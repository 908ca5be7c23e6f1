/** The blocklist refresh cycle: fetch, fall back, aggregate, install; and start-up from the cache. */
module Blocklist {
  import opened Wire
  import opened Names

  type Id = int

  datatype Format = Hosts | DomainList

  datatype Validators = Validators(etag: Option<Text>, lastModified: Option<Text>)

  const NO_VALIDATORS := Validators(None, None)

  /** A row of `list_enabled`. */
  datatype Source = Source(id: Id, format: Format, validators: Validators)

  datatype FetchOutcome = Modified(body: Bytes, validators: Validators) | NotModified | FetchFailed

  /** What the network and the storage layer do while one source is refreshed. */
  datatype Io = Io(outcome: FetchOutcome, loadOk: bool, saveOk: bool, metaOk: bool)

  /** The text parsers are not modelled: any function from a format and a body to a set of names. */
  type Parser = (Format, Bytes) -> set<Text>

  datatype Store = Store(cache: map<Id, Bytes>, meta: map<Id, Validators>)

  datatype Summary = Summary(fetched: nat, notModified: nat, failed: nat)

  // ---- Specification of one source -------------------------------------------------------

  /** The effect of one source: the store, the body it contributes (if any), and the counters. */
  datatype Step = Step(store: Store, body: Option<Bytes>, summary: Summary)

  function CachedBody(st: Store, s: Source, io: Io): Option<Bytes> {
    if io.loadOk && s.id in st.cache then Some(st.cache[s.id]) else None
  }

  predicate Usable(parse: Parser, s: Source, io: Io) {
    io.outcome.Modified? && parse(s.format, io.outcome.body) != {}
  }

  function RefreshStep(parse: Parser, st: Store, s: Source, io: Io): Step {
    match io.outcome
    case Modified(body, validators) =>
      if Usable(parse, s, io) then
        Step(Store(if io.saveOk then st.cache[s.id := body] else st.cache,
                   if io.metaOk then st.meta[s.id := validators] else st.meta),
             Some(body), Summary(1, 0, 0))
      else Step(st, CachedBody(st, s, io), Summary(0, 0, 1))
    case NotModified =>
      Step(st, CachedBody(st, s, io), Summary(0, 1, if CachedBody(st, s, io).None? then 1 else 0))
    case FetchFailed =>
      Step(st, CachedBody(st, s, io), Summary(0, 0, 1))
  }

  // ---- Specification of a cycle ----------------------------------------------------------

  function Add(x: Summary, y: Summary): Summary {
    Summary(x.fetched + y.fetched, x.notModified + y.notModified, x.failed + y.failed)
  }

  datatype CycleOut = CycleOut(store: Store, bodies: seq<Option<Bytes>>, summary: Summary)

  function Cycle(parse: Parser, st: Store, sources: seq<Source>, ios: seq<Io>): (out: CycleOut)
    requires |sources| == |ios|
    ensures |out.bodies| == |sources|
  {
    if sources == [] then CycleOut(st, [], Summary(0, 0, 0)) else
    var n := |sources| - 1;
    var before := Cycle(parse, st, sources[..n], ios[..n]);
    var step := RefreshStep(parse, before.store, sources[n], ios[n]);
    CycleOut(step.store, before.bodies + [step.body], Add(before.summary, step.summary))
  }

  /** First writer wins. */
  function Merge(m: map<Text, Id>, id: Id, names: set<Text>): map<Text, Id> {
    (map n | n in names :: id) + m
  }

  function Merged(parse: Parser, sources: seq<Source>, bodies: seq<Option<Bytes>>): map<Text, Id>
    requires |sources| == |bodies|
  {
    if sources == [] then map[] else
    var n := |sources| - 1;
    var m := Merged(parse, sources[..n], bodies[..n]);
    if bodies[n].Some? then Merge(m, sources[n].id, parse(sources[n].format, bodies[n].value)) else m
  }

  predicate Complete(bodies: seq<Option<Bytes>>) {
    forall i :: 0 <= i < |bodies| ==> bodies[i].Some?
  }

  lemma CompleteNil()
    ensures Complete([])
  {
  }

  lemma CompleteAppend(bodies: seq<Option<Bytes>>, body: Option<Bytes>)
    ensures Complete(bodies + [body]) <==> Complete(bodies) && body.Some?
  {
    assert (bodies + [body])[|bodies|] == body;
    assert forall i :: 0 <= i < |bodies| ==> (bodies + [body])[i] == bodies[i];
  }

  function LoadBodies(st: Store, sources: seq<Source>, loads: seq<bool>): (bodies: seq<Option<Bytes>>)
    requires |sources| == |loads|
    ensures |bodies| == |sources|
  {
    seq(|sources|, i requires 0 <= i < |sources| =>
      if loads[i] && sources[i].id in st.cache then Some(st.cache[sources[i].id]) else None)
  }

  // ---- The objects -----------------------------------------------------------------------

  lemma EmptyCycle(parse: Parser, st: Store)
    ensures Cycle(parse, st, [], []) == CycleOut(st, [], Summary(0, 0, 0)) && Merged(parse, [], []) == map[]
  {
  }

  lemma CycleSnoc(parse: Parser, st: Store, sources: seq<Source>, ios: seq<Io>, i: nat)
    requires |sources| == |ios| && i < |sources|
    ensures var before := Cycle(parse, st, sources[..i], ios[..i]);
            var step := RefreshStep(parse, before.store, sources[i], ios[i]);
            Cycle(parse, st, sources[..i + 1], ios[..i + 1]) ==
            CycleOut(step.store, before.bodies + [step.body], Add(before.summary, step.summary))
  {
    hide RefreshStep, Add;
    assert sources[..i + 1][..i] == sources[..i] && ios[..i + 1][..i] == ios[..i];
  }

  lemma MergedSnoc(parse: Parser, sources: seq<Source>, bodies: seq<Option<Bytes>>, body: Option<Bytes>, i: nat)
    requires i < |sources| && |bodies| == i
    ensures var m := Merged(parse, sources[..i], bodies);
            Merged(parse, sources[..i + 1], bodies + [body]) ==
            if body.Some? then Merge(m, sources[i].id, parse(sources[i].format, body.value)) else m
  {
    hide Merge;
    assert sources[..i + 1][..i] == sources[..i] && (bodies + [body])[..i] == bodies;
  }

  lemma MergeNone(m: map<Text, Id>, id: Id)
    ensures Merge(m, id, {}) == m
  {
  }

  lemma MergeOne(m: map<Text, Id>, id: Id, names: set<Text>, n: Text)
    ensures var done := Merge(m, id, names);
            Merge(m, id, names + {n}) == if n in done then done else done[n := id]
  {
    var done, next := Merge(m, id, names), Merge(m, id, names + {n});
    assert forall x :: x in next <==> x == n || x in done;
  }

  class Aggregator {
    var merged: map<Text, Id>
    var contributions: seq<(Id, nat)>

    constructor ()
      ensures merged == map[] && contributions == []
    {
      merged, contributions := map[], [];
    }

    /** Names are inserted in the order the hash set yields them; the result does not depend on it. */
    method AddSource(id: Id, names: set<Text>)
      modifies this
      ensures merged == Merge(old(merged), id, names)
      ensures contributions == old(contributions) + [(id, |names|)]
    {
      hide Merge;
      contributions := contributions + [(id, |names|)];
      var left := names;
      MergeNone(merged, id);
      assert names - left == {};
      while left != {}
        invariant left <= names
        invariant contributions == old(contributions) + [(id, |names|)]
        invariant merged == Merge(old(merged), id, names - left)
        decreases left
      {
        var n :| n in left;
        MergeOne(old(merged), id, names - left, n);
        assert names - (left - {n}) == names - left + {n};
        left := left - {n};
        if n !in merged {
          merged := merged[n := id];
        }
      }
      assert names - left == names;
    }
  }

  class BlocklistScheduler {
    const parse: Parser
    var cache: map<Id, Bytes>
    var meta: map<Id, Validators>
    var live: map<Text, Id>

    ghost function Stored(): Store
      reads this
    {
      Store(cache, meta)
    }

    constructor (parse: Parser, cache: map<Id, Bytes>, meta: map<Id, Validators>, live: map<Text, Id>)
      ensures this.parse == parse && Stored() == Store(cache, meta) && this.live == live
    {
      this.parse := parse;
      this.cache, this.meta, this.live := cache, meta, live;
    }

    method AddCachedSource(s: Source, io: Io, agg: Aggregator) returns (body: Option<Bytes>)
      modifies agg
      ensures body == CachedBody(Stored(), s, io)
      ensures agg.merged ==
                if body.Some? then Merge(old(agg.merged), s.id, parse(s.format, body.value)) else old(agg.merged)
    {
      if !io.loadOk || s.id !in cache {
        return None;
      }
      var content := cache[s.id];
      agg.AddSource(s.id, parse(s.format, content));
      return Some(content);
    }

    method HandleModified(s: Source, io: Io, agg: Aggregator) returns (body: Option<Bytes>, delta: Summary)
      requires io.outcome.Modified?
      modifies this, agg
      ensures Step(Stored(), body, delta) == RefreshStep(parse, old(Stored()), s, io)
      ensures agg.merged ==
                if body.Some? then Merge(old(agg.merged), s.id, parse(s.format, body.value)) else old(agg.merged)
      ensures live == old(live)
    {
      var names := parse(s.format, io.outcome.body);
      if |names| == 0 {
        delta := Summary(0, 0, 1);
        body := AddCachedSource(s, io, agg);
        return;
      }
      agg.AddSource(s.id, names);
      if io.saveOk {
        cache := cache[s.id := io.outcome.body];
      }
      if io.metaOk {
        meta := meta[s.id := io.outcome.validators];
      }
      return Some(io.outcome.body), Summary(1, 0, 0);
    }

    /** One source: its step on the store, and its contribution to the aggregator. */
    method RefreshSource(s: Source, io: Io, agg: Aggregator) returns (body: Option<Bytes>, delta: Summary)
      modifies this, agg
      ensures Step(Stored(), body, delta) == RefreshStep(parse, old(Stored()), s, io)
      ensures agg.merged ==
                if body.Some? then Merge(old(agg.merged), s.id, parse(s.format, body.value)) else old(agg.merged)
      ensures live == old(live)
    {
      match io.outcome {
        case Modified(_, _) =>
          body, delta := HandleModified(s, io, agg);
        case NotModified =>
          body := AddCachedSource(s, io, agg);
          delta := Summary(0, 1, if body.None? then 1 else 0);
        case FetchFailed =>
          body := AddCachedSource(s, io, agg);
          delta := Summary(0, 0, 1);
      }
    }

    /** A full cycle; `listed` is `None` when the storage layer cannot list the sources. */
    method RefreshOnce(listed: Option<seq<Source>>, ios: seq<Io>) returns (summary: Option<Summary>)
      requires listed.Some? ==> |ios| == |listed.value|
      modifies this
      ensures listed.None? ==> summary.None? && Stored() == old(Stored()) && live == old(live)
      ensures listed.Some? ==>
                var out := Cycle(parse, old(Stored()), listed.value, ios);
                && Stored() == out.store && summary == Some(out.summary)
                && live == if Complete(out.bodies) then Merged(parse, listed.value, out.bodies) else old(live)
    {
      hide RefreshStep, Merge, Complete, Cycle, Merged, Add;
      if listed.None? {
        return None;
      }
      var sources := listed.value;
      var agg := new Aggregator();
      var total := Summary(0, 0, 0);
      var complete := true;
      ghost var bodies: seq<Option<Bytes>> := [];
      assert Complete(bodies) by {
        CompleteNil();
      }
      assert sources[..0] == [] && ios[..0] == [];
      EmptyCycle(parse, Stored());
      for i := 0 to |sources|
        invariant live == old(live) && fresh(agg)
        invariant |bodies| == i && complete == Complete(bodies)
        invariant CycleOut(Stored(), bodies, total) == Cycle(parse, old(Stored()), sources[..i], ios[..i])
        invariant agg.merged == Merged(parse, sources[..i], bodies)
      {
        CycleSnoc(parse, old(Stored()), sources, ios, i);
        var body, delta := RefreshSource(sources[i], ios[i], agg);
        MergedSnoc(parse, sources, bodies, body, i);
        CompleteAppend(bodies, body);
        bodies := bodies + [body];
        total := Add(total, delta);
        if body.None? {
          complete := false;
        }
      }
      assert sources[..|sources|] == sources && ios[..|ios|] == ios;
      if complete {
        live := agg.merged;
      }
      return Some(total);
    }

    /** Offline start: whatever the cache holds, without touching the network or the store. */
    method LoadFromCache(listed: Option<seq<Source>>, loads: seq<bool>)
      requires listed.Some? ==> |loads| == |listed.value|
      modifies this`live
      ensures live == if listed.None? then old(live)
                      else Merged(parse, listed.value, LoadBodies(Stored(), listed.value, loads))
    {
      if listed.None? {
        return;
      }
      var sources := listed.value;
      var agg := new Aggregator();
      ghost var bodies := LoadBodies(Stored(), sources, loads);
      assert sources[..0] == [] && bodies[..0] == [];
      for i := 0 to |sources|
        invariant live == old(live) && fresh(agg)
        invariant agg.merged == Merged(parse, sources[..i], bodies[..i])
      {
        assert sources[..i + 1][..i] == sources[..i] && bodies[..i + 1][..i] == bodies[..i];
        if !loads[i] || sources[i].id !in cache {
          continue;
        }
        agg.AddSource(sources[i].id, parse(sources[i].format, cache[sources[i].id]));
      }
      assert sources[..|sources|] == sources && bodies[..|bodies|] == bodies;
      live := agg.merged;
    }
  }
}
