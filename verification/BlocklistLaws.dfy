/** What the live set and the stored cache satisfy over every run of refresh cycles. */
module BlocklistLaws {
  import opened Wire
  import opened Names
  import opened Blocklist

  /** `ORDER BY id` on a primary key. */
  ghost predicate Ascending(sources: seq<Source>) {
    forall i, j :: 0 <= i < j < |sources| ==> sources[i].id < sources[j].id
  }

  // ---- The installed snapshot ------------------------------------------------------------

  ghost predicate Contributes(parse: Parser, sources: seq<Source>, bodies: seq<Option<Bytes>>, i: nat, n: Text)
    requires |sources| == |bodies|
  {
    i < |sources| && bodies[i].Some? && n in parse(sources[i].format, bodies[i].value)
  }

  /** `i` is the first source to contribute `n`. */
  ghost predicate FirstContributor(parse: Parser, sources: seq<Source>, bodies: seq<Option<Bytes>>, i: nat, n: Text)
    requires |sources| == |bodies|
  {
    Contributes(parse, sources, bodies, i, n) && forall j :: 0 <= j < i ==> !Contributes(parse, sources, bodies, j, n)
  }

  lemma {:induction false} MergedExact(parse: Parser, sources: seq<Source>, bodies: seq<Option<Bytes>>, n: Text)
    requires |sources| == |bodies|
    ensures n in Merged(parse, sources, bodies) <==> exists i: nat :: Contributes(parse, sources, bodies, i, n)
    ensures n in Merged(parse, sources, bodies) ==>
              exists i: nat ::
                FirstContributor(parse, sources, bodies, i, n) && Merged(parse, sources, bodies)[n] == sources[i].id
    decreases |sources|
  {
    if sources != [] {
      var last := |sources| - 1;
      var ss, bs := sources[..last], bodies[..last];
      MergedExact(parse, ss, bs, n);
      assert forall i: nat :: i < last ==>
          (Contributes(parse, sources, bodies, i, n) <==> Contributes(parse, ss, bs, i, n));
      if i: nat :|
        && FirstContributor(parse, ss, bs, i, n) && n in Merged(parse, ss, bs)
        && Merged(parse, ss, bs)[n] == ss[i].id
      {
        assert FirstContributor(parse, sources, bodies, i, n) && ss[i] == sources[i];
      } else if Contributes(parse, sources, bodies, last, n) {
        assert FirstContributor(parse, sources, bodies, last, n);
      }
    }
  }

  /** With ids in ascending order, every name is credited to the lowest contributing id. */
  lemma SnapshotExact(parse: Parser, sources: seq<Source>, bodies: seq<Option<Bytes>>, n: Text)
    requires |sources| == |bodies| && Ascending(sources)
    ensures n in Merged(parse, sources, bodies) <==> exists i: nat :: Contributes(parse, sources, bodies, i, n)
    ensures n in Merged(parse, sources, bodies) ==>
              && (exists i: nat ::
                    Contributes(parse, sources, bodies, i, n) && sources[i].id == Merged(parse, sources, bodies)[n])
              && (forall i: nat :: Contributes(parse, sources, bodies, i, n) ==>
                    Merged(parse, sources, bodies)[n] <= sources[i].id)
  {
    hide Merged;
    MergedExact(parse, sources, bodies, n);
    if n in Merged(parse, sources, bodies) {
      var i: nat :| FirstContributor(parse, sources, bodies, i, n) &&
          Merged(parse, sources, bodies)[n] == sources[i].id;
      assert forall j: nat :: Contributes(parse, sources, bodies, j, n) ==> i <= j;
    }
  }

  /** A cycle in which nothing was counted as failed had a contribution from every source. */
  lemma {:induction false} NoFailureMeansComplete(parse: Parser, st: Store, sources: seq<Source>, ios: seq<Io>)
    requires |sources| == |ios|
    ensures Cycle(parse, st, sources, ios).summary.failed == 0 ==> Complete(Cycle(parse, st, sources, ios).bodies)
    decreases |sources|
  {
    if sources != [] {
      var n := |sources| - 1;
      NoFailureMeansComplete(parse, st, sources[..n], ios[..n]);
      var before := Cycle(parse, st, sources[..n], ios[..n]);
      CompleteAppend(before.bodies, RefreshStep(parse, before.store, sources[n], ios[n]).body);
    }
  }

  /** The sources answered 304 for which no cached body could be read. */
  ghost function MissedNotModified(sources: seq<Source>, ios: seq<Io>, bodies: seq<Option<Bytes>>): nat
    requires |sources| == |ios| == |bodies|
  {
    if sources == [] then 0 else
    var n := |sources| - 1;
    MissedNotModified(sources[..n], ios[..n], bodies[..n]) +
    if ios[n].outcome.NotModified? && bodies[n].None? then 1 else 0
  }

  lemma StepCounts(parse: Parser, st: Store, s: Source, io: Io)
    ensures var step := RefreshStep(parse, st, s, io);
            step.summary.fetched + step.summary.notModified + step.summary.failed
            == 1 + if io.outcome.NotModified? && step.body.None? then 1 else 0
  {
  }

  /** Every source is counted once, except that a 304 without a cached body is also a failure. */
  lemma {:induction false} CountersConserved(parse: Parser, st: Store, sources: seq<Source>, ios: seq<Io>)
    requires |sources| == |ios|
    ensures var out := Cycle(parse, st, sources, ios);
            out.summary.fetched + out.summary.notModified + out.summary.failed
            == |sources| + MissedNotModified(sources, ios, out.bodies)
    decreases |sources|
  {
    hide RefreshStep, Cycle;
    if sources == [] {
      EmptyCycle(parse, st);
    } else {
      var n := |sources| - 1;
      var before := Cycle(parse, st, sources[..n], ios[..n]);
      var step := RefreshStep(parse, before.store, sources[n], ios[n]);
      CountersConserved(parse, st, sources[..n], ios[..n]);
      StepCounts(parse, before.store, sources[n], ios[n]);
      CycleSnoc(parse, st, sources, ios, n);
      assert sources[..n + 1] == sources && ios[..n + 1] == ios;
      assert (before.bodies + [step.body])[..n] == before.bodies;
    }
  }

  // ---- Runs ------------------------------------------------------------------------------

  datatype World = World(store: Store, live: map<Text, Id>)

  datatype Input = Input(sources: seq<Source>, ios: seq<Io>)

  ghost predicate ValidInput(c: Input) {
    |c.sources| == |c.ios| && Ascending(c.sources)
  }

  ghost predicate ValidInputs(cs: seq<Input>) {
    forall k :: 0 <= k < |cs| ==> ValidInput(cs[k])
  }

  function OutOf(parse: Parser, w: World, c: Input): CycleOut
    requires |c.sources| == |c.ios|
  {
    Cycle(parse, w.store, c.sources, c.ios)
  }

  /** One `RefreshOnce`. */
  function Next(parse: Parser, w: World, c: Input): World
    requires |c.sources| == |c.ios|
  {
    var out := OutOf(parse, w, c);
    World(out.store, if Complete(out.bodies) then Merged(parse, c.sources, out.bodies) else w.live)
  }

  ghost function Run(parse: Parser, w: World, cs: seq<Input>): World
    requires ValidInputs(cs)
    decreases |cs|
  {
    if cs == [] then w else Next(parse, Run(parse, w, cs[..|cs| - 1]), cs[|cs| - 1])
  }

  /** The bodies that cycle `k` of the run collected. */
  ghost function BodiesAt(parse: Parser, w: World, cs: seq<Input>, k: nat): (bodies: seq<Option<Bytes>>)
    requires ValidInputs(cs) && k < |cs|
    ensures |bodies| == |cs[k].sources|
  {
    OutOf(parse, Run(parse, w, cs[..k]), cs[k]).bodies
  }

  ghost function SnapshotAt(parse: Parser, w: World, cs: seq<Input>, k: nat): map<Text, Id>
    requires ValidInputs(cs) && k < |cs|
  {
    Merged(parse, cs[k].sources, BodiesAt(parse, w, cs, k))
  }

  ghost predicate CompleteAt(parse: Parser, w: World, cs: seq<Input>, k: nat)
    requires ValidInputs(cs)
  {
    k < |cs| && Complete(BodiesAt(parse, w, cs, k))
  }

  lemma PrefixStable(parse: Parser, w: World, cs: seq<Input>, k: nat)
    requires ValidInputs(cs) && k + 1 < |cs|
    ensures CompleteAt(parse, w, cs[..|cs| - 1], k) == CompleteAt(parse, w, cs, k)
    ensures SnapshotAt(parse, w, cs[..|cs| - 1], k) == SnapshotAt(parse, w, cs, k)
  {
    assert cs[..|cs| - 1][..k] == cs[..k];
  }

  lemma LastStep(parse: Parser, w: World, cs: seq<Input>)
    requires ValidInputs(cs) && cs != []
    ensures var n := |cs| - 1;
            Run(parse, w, cs).live ==
                if CompleteAt(parse, w, cs, n) then SnapshotAt(parse, w, cs, n) else Run(parse, w, cs[..n]).live
  {
  }

  /** Cycle `k` of the run was complete, and no later one was. */
  ghost predicate LastComplete(parse: Parser, w: World, cs: seq<Input>, k: nat)
    requires ValidInputs(cs)
  {
    CompleteAt(parse, w, cs, k) && forall j: nat :: k < j < |cs| ==> !CompleteAt(parse, w, cs, j)
  }

  /**
   * Over every run, the live map is the initial one until a cycle completes, and from then on it
   * is the snapshot of the last complete cycle: a partial rebuild is never visible.
   */
  lemma {:induction false} LiveIsLastSnapshot(parse: Parser, w: World, cs: seq<Input>)
    requires ValidInputs(cs)
    ensures (forall k: nat :: !LastComplete(parse, w, cs, k)) ==> Run(parse, w, cs).live == w.live
    ensures forall k: nat :: LastComplete(parse, w, cs, k) ==> Run(parse, w, cs).live == SnapshotAt(parse, w, cs, k)
    ensures (exists k: nat :: LastComplete(parse, w, cs, k)) <==> exists k: nat :: CompleteAt(parse, w, cs, k)
    decreases |cs|
  {
    hide Cycle, SnapshotAt, CompleteAt, Run;
    if cs == [] {
      RunNil(parse, w);
      assert forall k: nat :: !CompleteAt(parse, w, cs, k) by {
        OutOfRange(parse, w, cs);
      }
    } else {
      var n := |cs| - 1;
      var init := cs[..n];
      LiveIsLastSnapshot(parse, w, init);
      LastStep(parse, w, cs);
      OutOfRange(parse, w, cs);
      OutOfRange(parse, w, init);
      forall k: nat | k < n
        ensures CompleteAt(parse, w, init, k) == CompleteAt(parse, w, cs, k)
        ensures SnapshotAt(parse, w, init, k) == SnapshotAt(parse, w, cs, k)
      {
        PrefixStable(parse, w, cs, k);
      }
      if CompleteAt(parse, w, cs, n) {
        assert LastComplete(parse, w, cs, n);
        assert forall k: nat :: LastComplete(parse, w, cs, k) ==> k == n;
      } else {
        assert forall k: nat :: LastComplete(parse, w, cs, k) <==> LastComplete(parse, w, init, k);
      }
    }
  }

  lemma RunNil(parse: Parser, w: World)
    ensures Run(parse, w, []) == w
  {
  }

  lemma OutOfRange(parse: Parser, w: World, cs: seq<Input>)
    requires ValidInputs(cs)
    ensures forall k: nat :: CompleteAt(parse, w, cs, k) ==> k < |cs|
  {
  }

  // ---- The cache keeps usable bodies -----------------------------------------------------

  /** Every stored body parses to at least one name under its source's format. */
  ghost predicate CacheUsable(parse: Parser, formatOf: Id -> Format, st: Store) {
    forall id :: id in st.cache ==> parse(formatOf(id), st.cache[id]) != {}
  }

  ghost predicate FormatsFixed(formatOf: Id -> Format, sources: seq<Source>) {
    forall i :: 0 <= i < |sources| ==> sources[i].format == formatOf(sources[i].id)
  }

  lemma {:induction false} CycleKeepsCacheUsable(parse: Parser,
                                                 formatOf: Id -> Format, st: Store, sources: seq<Source>, ios: seq<Io>)
    requires |sources| == |ios| && FormatsFixed(formatOf, sources) && CacheUsable(parse, formatOf, st)
    ensures CacheUsable(parse, formatOf, Cycle(parse, st, sources, ios).store)
    decreases |sources|
  {
    if sources != [] {
      CycleKeepsCacheUsable(parse, formatOf, st, sources[..|sources| - 1], ios[..|ios| - 1]);
    }
  }

  /** An empty or broken 200 never replaces the last good body, over every run. */
  lemma {:induction false} RunKeepsCacheUsable(parse: Parser, formatOf: Id -> Format, w: World, cs: seq<Input>)
    requires ValidInputs(cs) && (forall k :: 0 <= k < |cs| ==> FormatsFixed(formatOf, cs[k].sources))
    requires CacheUsable(parse, formatOf, w.store)
    ensures CacheUsable(parse, formatOf, Run(parse, w, cs).store)
    decreases |cs|
  {
    hide CacheUsable, Cycle;
    if cs != [] {
      var n := |cs| - 1;
      RunKeepsCacheUsable(parse, formatOf, w, cs[..n]);
      CycleKeepsCacheUsable(parse, formatOf, Run(parse, w, cs[..n]).store, cs[n].sources, cs[n].ios);
    }
  }

  // ---- Restart equivalence ---------------------------------------------------------------

  /** The two stores hold the same body and validators for `id`. */
  ghost predicate SameRow(x: Store, y: Store, id: Id) {
    && (id in x.cache <==> id in y.cache) && (id in x.cache ==> x.cache[id] == y.cache[id])
    && (id in x.meta <==> id in y.meta) && (id in x.meta ==> x.meta[id] == y.meta[id])
  }

  lemma StepFrame(parse: Parser, st: Store, s: Source, io: Io, id: Id)
    requires s.id != id
    ensures SameRow(st, RefreshStep(parse, st, s, io).store, id)
  {
  }

  /** A cycle leaves alone the rows of sources it does not visit. */
  lemma {:induction false} CycleFrame(parse: Parser, st: Store, sources: seq<Source>, ios: seq<Io>, id: Id)
    requires |sources| == |ios| && forall i :: 0 <= i < |sources| ==> sources[i].id != id
    ensures SameRow(st, Cycle(parse, st, sources, ios).store, id)
    decreases |sources|
  {
    hide RefreshStep;
    if sources != [] {
      var n := |sources| - 1;
      CycleFrame(parse, st, sources[..n], ios[..n], id);
      StepFrame(parse, Cycle(parse, st, sources[..n], ios[..n]).store, sources[n], ios[n], id);
    }
  }

  lemma {:induction false} BodyOfStep(parse: Parser, st: Store, sources: seq<Source>, ios: seq<Io>, i: nat)
    requires |sources| == |ios| && i < |sources|
    ensures Cycle(parse, st, sources, ios).bodies[i] ==
            RefreshStep(parse, Cycle(parse, st, sources[..i], ios[..i]).store, sources[i], ios[i]).body
    decreases |sources|
  {
    hide RefreshStep;
    var n := |sources| - 1;
    if i < n {
      BodyOfStep(parse, st, sources[..n], ios[..n], i);
      assert sources[..n][..i] == sources[..i] && ios[..n][..i] == ios[..i];
    }
  }

  /** What a source contributes is decided by the store the cycle started from. */
  lemma BodyFromStart(parse: Parser, st: Store, sources: seq<Source>, ios: seq<Io>, i: nat)
    requires |sources| == |ios| && Ascending(sources) && i < |sources|
    ensures Cycle(parse, st, sources, ios).bodies[i] == RefreshStep(parse, st, sources[i], ios[i]).body
  {
    hide Cycle;
    BodyOfStep(parse, st, sources, ios, i);
    CycleFrame(parse, st, sources[..i], ios[..i], sources[i].id);
  }

  /** So is the row that the cycle leaves for it. */
  lemma {:induction false} RowFromStart(parse: Parser, st: Store, sources: seq<Source>, ios: seq<Io>, i: nat)
    requires |sources| == |ios| && Ascending(sources) && i < |sources|
    ensures SameRow(RefreshStep(parse, st, sources[i], ios[i]).store, Cycle(parse, st, sources, ios).store,
              sources[i].id)
    decreases |sources|
  {
    hide RefreshStep;
    var n := |sources| - 1;
    var before := Cycle(parse, st, sources[..n], ios[..n]).store;
    if i < n {
      RowFromStart(parse, st, sources[..n], ios[..n], i);
      StepFrame(parse, before, sources[n], ios[n], sources[i].id);
    } else {
      CycleFrame(parse, st, sources[..n], ios[..n], sources[n].id);
      SameRowStep(parse, st, before, sources[n], ios[n]);
    }
  }

  lemma SameRowStep(parse: Parser, x: Store, y: Store, s: Source, io: Io)
    requires SameRow(x, y, s.id)
    ensures SameRow(RefreshStep(parse, x, s, io).store, RefreshStep(parse, y, s, io).store, s.id)
  {
  }

  /** The source answered with a list of at least one name. */
  ghost predicate Fresh(parse: Parser, s: Source, io: Io) {
    io.outcome.Modified? && parse(s.format, io.outcome.body) != {}
  }

  /** Who contributes, judged by the store the cycle starts from: fresh lists, and stored ones that load. */
  ghost predicate CanContribute(parse: Parser, st: Store, s: Source, io: Io) {
    Fresh(parse, s, io) || (io.loadOk && s.id in st.cache)
  }

  lemma StepContributor(parse: Parser, st: Store, s: Source, io: Io)
    ensures var body := RefreshStep(parse, st, s, io).body;
            && (body.Some? <==> CanContribute(parse, st, s, io))
            && (Fresh(parse, s, io) ==> body == Some(io.outcome.body))
            && (!Fresh(parse, s, io) && body.Some? ==> s.id in st.cache && body == Some(st.cache[s.id]))
  {
  }

  /**
   * The contribution of every source, whatever it answered: its fresh list, else the stored body
   * if that can be loaded, else nothing. A 304, an empty 200 and a failed fetch fall back alike.
   */
  lemma ContributionExact(parse: Parser, st: Store, sources: seq<Source>, ios: seq<Io>, i: nat)
    requires |sources| == |ios| && Ascending(sources) && i < |sources|
    ensures var body := Cycle(parse, st, sources, ios).bodies[i];
            && (body.Some? <==> CanContribute(parse, st, sources[i], ios[i]))
            && (Fresh(parse, sources[i], ios[i]) ==> body == Some(ios[i].outcome.body))
            && (!Fresh(parse, sources[i], ios[i]) && body.Some? ==>
                  sources[i].id in st.cache && body == Some(st.cache[sources[i].id]))
  {
    hide Cycle, RefreshStep, Fresh, CanContribute;
    BodyFromStart(parse, st, sources, ios, i);
    StepContributor(parse, st, sources[i], ios[i]);
  }

  /** A cycle is complete, and the live map replaced, if and only if every source can contribute. */
  lemma InstallExact(parse: Parser, w: World, c: Input)
    requires ValidInput(c)
    ensures Complete(OutOf(parse, w, c).bodies) <==>
            forall i :: 0 <= i < |c.sources| ==> CanContribute(parse, w.store, c.sources[i], c.ios[i])
    ensures (forall i :: 0 <= i < |c.sources| ==> CanContribute(parse, w.store, c.sources[i], c.ios[i])) ==>
              Next(parse, w, c).live == Merged(parse, c.sources, OutOf(parse, w, c).bodies)
    ensures !(forall i :: 0 <= i < |c.sources| ==> CanContribute(parse, w.store, c.sources[i], c.ios[i])) ==>
              Next(parse, w, c).live == w.live
  {
    hide Cycle, CanContribute, Fresh, Merged;
    forall i | 0 <= i < |c.sources|
      ensures OutOf(parse, w, c).bodies[i].Some? <==> CanContribute(parse, w.store, c.sources[i], c.ios[i])
    {
      ContributionExact(parse, w.store, c.sources, c.ios, i);
    }
  }

  /** What an offline start builds: the names of the stored bodies that could be loaded. */
  lemma LoadExact(parse: Parser, st: Store, sources: seq<Source>, loads: seq<bool>, n: Text)
    requires |sources| == |loads|
    ensures n in Merged(parse, sources, LoadBodies(st, sources, loads)) <==>
            exists i :: 0 <= i < |sources| && loads[i] && sources[i].id in st.cache &&
                        n in parse(sources[i].format, st.cache[sources[i].id])
  {
    hide Merged;
    var bodies := LoadBodies(st, sources, loads);
    MergedExact(parse, sources, bodies, n);
    if i :| 0 <= i < |sources| && loads[i] && sources[i].id in st.cache &&
            n in parse(sources[i].format, st.cache[sources[i].id]) {
      assert Contributes(parse, sources, bodies, i, n);
    }
    if i: nat :| Contributes(parse, sources, bodies, i, n) {
      assert loads[i] && sources[i].id in st.cache;
    }
  }

  // What the summary counts.

  ghost function Count(marks: seq<bool>): nat {
    if marks == [] then 0 else Count(marks[..|marks| - 1]) + if marks[|marks| - 1] then 1 else 0
  }

  ghost function Fetched(parse: Parser, sources: seq<Source>, ios: seq<Io>): seq<bool>
    requires |sources| == |ios|
  {
    seq(|sources|, i requires 0 <= i < |sources| => Fresh(parse, sources[i], ios[i]))
  }

  ghost function Unchanged(ios: seq<Io>): seq<bool> {
    seq(|ios|, i requires 0 <= i < |ios| => ios[i].outcome.NotModified?)
  }

  /** Failures: fetch errors, lists without a name, and 304 answers without a stored body to use. */
  ghost function Failed(parse: Parser, sources: seq<Source>, ios: seq<Io>, bodies: seq<Option<Bytes>>): seq<bool>
    requires |sources| == |ios| == |bodies|
  {
    seq(|sources|, i requires 0 <= i < |sources| =>
      if ios[i].outcome.NotModified? then bodies[i].None? else !Fresh(parse, sources[i], ios[i]))
  }

  lemma StepSummary(parse: Parser, st: Store, s: Source, io: Io)
    ensures var step := RefreshStep(parse, st, s, io);
            && step.summary.fetched == (if Fresh(parse, s, io) then 1 else 0)
            && step.summary.notModified == (if io.outcome.NotModified? then 1 else 0)
            && step.summary.failed ==
               if (if io.outcome.NotModified? then step.body.None? else !Fresh(parse, s, io)) then 1 else 0
  {
  }

  /** Each counter is the number of sources of its kind. */
  lemma {:induction false} SummaryExact(parse: Parser, st: Store, sources: seq<Source>, ios: seq<Io>)
    requires |sources| == |ios|
    ensures var out := Cycle(parse, st, sources, ios);
            && out.summary.fetched == Count(Fetched(parse, sources, ios))
            && out.summary.notModified == Count(Unchanged(ios))
            && out.summary.failed == Count(Failed(parse, sources, ios, out.bodies))
    decreases |sources|
  {
    hide RefreshStep, Cycle, Fresh;
    if sources == [] {
      EmptyCycle(parse, st);
      assert ios == [];
    } else {
      var n := |sources| - 1;
      var before := Cycle(parse, st, sources[..n], ios[..n]);
      var step := RefreshStep(parse, before.store, sources[n], ios[n]);
      SummaryExact(parse, st, sources[..n], ios[..n]);
      StepSummary(parse, before.store, sources[n], ios[n]);
      CycleSnoc(parse, st, sources, ios, n);
      assert sources[..n + 1] == sources && ios[..n + 1] == ios;
      var out := Cycle(parse, st, sources, ios);
      assert Fetched(parse, sources, ios)[..n] == Fetched(parse, sources[..n], ios[..n]);
      assert Unchanged(ios)[..n] == Unchanged(ios[..n]);
      assert Failed(parse, sources, ios, out.bodies)[..n] == Failed(parse, sources[..n], ios[..n], before.bodies);
    }
  }

  /** An accepted body is in the store when the cycle ends: it was saved, or it was there before. */
  ghost predicate Kept(parse: Parser, st: Store, s: Source, io: Io) {
    Usable(parse, s, io) ==> io.saveOk || (s.id in st.cache && st.cache[s.id] == io.outcome.body)
  }

  ghost predicate AllKept(parse: Parser, st: Store, sources: seq<Source>, ios: seq<Io>)
    requires |sources| == |ios|
  {
    forall i :: 0 <= i < |sources| ==> Kept(parse, st, sources[i], ios[i])
  }

  function BodyIn(st: Store, id: Id): Option<Bytes> {
    if id in st.cache then Some(st.cache[id]) else None
  }

  lemma StepKept(parse: Parser, st: Store, s: Source, io: Io)
    requires RefreshStep(parse, st, s, io).body.Some?
    ensures RefreshStep(parse, st, s, io).body == BodyIn(RefreshStep(parse, st, s, io).store, s.id) <==>
              Kept(parse, st, s, io)
  {
  }

  /** A contributed body is the one stored at the end of the cycle if and only if it was kept. */
  lemma ContributedIsStored(parse: Parser, st: Store, sources: seq<Source>, ios: seq<Io>, i: nat)
    requires |sources| == |ios| && Ascending(sources) && i < |sources|
    requires Cycle(parse, st, sources, ios).bodies[i].Some?
    ensures Cycle(parse, st, sources, ios).bodies[i] == BodyIn(Cycle(parse, st, sources, ios).store, sources[i].id)
       <==> Kept(parse, st, sources[i], ios[i])
  {
    hide Cycle, RefreshStep, Kept;
    BodyFromStart(parse, st, sources, ios, i);
    RowFromStart(parse, st, sources, ios, i);
    StepKept(parse, st, sources[i], ios[i]);
  }

  /** The bodies an offline start reads when every load succeeds. */
  ghost function Reloaded(st: Store, sources: seq<Source>): (bodies: seq<Option<Bytes>>)
    ensures |bodies| == |sources|
    ensures forall i :: 0 <= i < |sources| ==> bodies[i] == BodyIn(st, sources[i].id)
  {
    LoadBodies(st, sources, seq(|sources|, _ => true))
  }

  /** After a complete cycle, a restart reads the very bodies of that cycle if and only if all were kept. */
  lemma ReloadExact(parse: Parser, w: World, c: Input)
    requires ValidInput(c) && Complete(OutOf(parse, w, c).bodies)
    ensures Reloaded(Next(parse, w, c).store, c.sources) == OutOf(parse, w, c).bodies
       <==> AllKept(parse, w.store, c.sources, c.ios)
  {
    hide Cycle, Kept, Merged, Reloaded;
    var out := OutOf(parse, w, c);
    var bodies := Reloaded(out.store, c.sources);
    forall i | 0 <= i < |c.sources|
      ensures bodies[i] == out.bodies[i] <==> Kept(parse, w.store, c.sources[i], c.ios[i])
    {
      ContributedIsStored(parse, w.store, c.sources, c.ios, i);
    }
  }

  /**
   * Restart equivalence: after a complete cycle in which every accepted body was kept, an offline
   * start from the stored bodies of the same sources rebuilds exactly the live map.
   */
  lemma RestartEquivalence(parse: Parser, w: World, c: Input)
    requires ValidInput(c) && Complete(OutOf(parse, w, c).bodies)
    requires AllKept(parse, w.store, c.sources, c.ios)
    ensures Next(parse, w, c).live == Merged(parse, c.sources, Reloaded(Next(parse, w, c).store, c.sources))
  {
    hide Cycle, Merged, Reloaded, AllKept;
    ReloadExact(parse, w, c);
  }

  // When two lists of bodies merge to the same map.

  ghost function NamesOf(parse: Parser, s: Source, body: Option<Bytes>): set<Text> {
    if body.Some? then parse(s.format, body.value) else {}
  }

  /** Some source before `i` contributes `n`. */
  ghost predicate Earlier(parse: Parser, sources: seq<Source>, bodies: seq<Option<Bytes>>, i: nat, n: Text)
    requires |sources| == |bodies|
  {
    exists j: nat :: j < i && Contributes(parse, sources, bodies, j, n)
  }

  /** `x` and `y` disagree at `i` only on names that an earlier source contributes in `x`. */
  ghost predicate Masked(parse: Parser, sources: seq<Source>, x: seq<Option<Bytes>>, y: seq<Option<Bytes>>, i: nat)
    requires |sources| == |x| == |y| && i < |sources|
  {
    forall n :: (n in NamesOf(parse, sources[i], x[i])) != (n in NamesOf(parse, sources[i], y[i])) ==>
                  Earlier(parse, sources, x, i, n)
  }

  lemma EarlierInit(parse: Parser, sources: seq<Source>, x: seq<Option<Bytes>>, k: nat, i: nat, n: Text)
    requires |sources| == |x| && i <= k <= |sources|
    ensures Earlier(parse, sources[..k], x[..k], i, n) == Earlier(parse, sources, x, i, n)
  {
    forall j: nat | j < i
      ensures Contributes(parse, sources[..k], x[..k], j, n) == Contributes(parse, sources, x, j, n)
    {
    }
  }

  lemma MaskedInit(parse: Parser, sources: seq<Source>, x: seq<Option<Bytes>>, y: seq<Option<Bytes>>, k: nat, i: nat)
    requires |sources| == |x| == |y| && i < k <= |sources|
    ensures Masked(parse, sources[..k], x[..k], y[..k], i) == Masked(parse, sources, x, y, i)
  {
    hide Earlier;
    forall n ensures Earlier(parse, sources[..k], x[..k], i, n) == Earlier(parse, sources, x, i, n) {
      EarlierInit(parse, sources, x, k, i, n);
    }
  }

  lemma MergedIsEarlier(parse: Parser, sources: seq<Source>, x: seq<Option<Bytes>>, n: Text)
    requires |sources| == |x|
    ensures n in Merged(parse, sources, x) <==> Earlier(parse, sources, x, |sources|, n)
  {
    hide Merged;
    MergedExact(parse, sources, x, n);
  }

  ghost predicate CreditedBefore(m: map<Text, Id>, id: Id) {
    forall n :: n in m ==> m[n] < id
  }

  lemma MergedCredits(parse: Parser, sources: seq<Source>, x: seq<Option<Bytes>>, id: Id)
    requires |sources| == |x| && forall i :: 0 <= i < |sources| ==> sources[i].id < id
    ensures CreditedBefore(Merged(parse, sources, x), id)
  {
    hide Merged;
    forall n | n in Merged(parse, sources, x) ensures Merged(parse, sources, x)[n] < id {
      MergedExact(parse, sources, x, n);
    }
  }

  /** Merging one more source on top of maps that credit earlier ids only. */
  lemma MergeAgrees(p: map<Text, Id>, q: map<Text, Id>, id: Id, x: set<Text>, y: set<Text>)
    requires CreditedBefore(p, id) && CreditedBefore(q, id)
    ensures Merge(p, id, x) == Merge(q, id, y) <==> p == q && forall n :: (n in x) != (n in y) ==> n in p
  {
    var l, r := Merge(p, id, x), Merge(q, id, y);
    if l == r {
      forall n ensures n in p <==> n in q && p[n] == q[n] {
        assert n in p ==> l[n] == p[n] < id;
        assert n in q ==> r[n] == q[n] < id;
      }
      assert p == q;
      forall n | (n in x) != (n in y) ensures n in p {
        assert n in l <==> n in r;
      }
    }
  }

  lemma MergedLast(parse: Parser, sources: seq<Source>, x: seq<Option<Bytes>>)
    requires |sources| == |x| && sources != []
    ensures var k := |sources| - 1;
            Merged(parse, sources, x) ==
                Merge(Merged(parse, sources[..k], x[..k]), sources[k].id, NamesOf(parse, sources[k], x[k]))
  {
  }

  /** Two lists of bodies merge to one map if and only if every disagreement is masked. */
  lemma {:induction false} MergedAgree(parse: Parser, sources: seq<Source>, x: seq<Option<Bytes>>,
                                       y: seq<Option<Bytes>>)
    requires |sources| == |x| == |y| && Ascending(sources)
    ensures Merged(parse, sources, x) == Merged(parse, sources, y) <==>
            forall i :: 0 <= i < |sources| ==> Masked(parse, sources, x, y, i)
    decreases |sources|
  {
    hide Merge, Masked, Merged, NamesOf, CreditedBefore;
    if sources == [] {
      MergedNil(parse, x, y);
    } else {
      var k := |sources| - 1;
      var ss, xs, ys := sources[..k], x[..k], y[..k];
      MergedAgree(parse, ss, xs, ys);
      forall i | 0 <= i < k ensures Masked(parse, ss, xs, ys, i) == Masked(parse, sources, x, y, i) {
        MaskedInit(parse, sources, x, y, k, i);
      }
      MergedCredits(parse, ss, xs, sources[k].id);
      MergedCredits(parse, ss, ys, sources[k].id);
      MergedLast(parse, sources, x);
      MergedLast(parse, sources, y);
      MergeAgrees(Merged(parse, ss, xs), Merged(parse, ss, ys), sources[k].id, NamesOf(parse, sources[k], x[k]),
          NamesOf(parse, sources[k], y[k]));
      MaskedIsMerged(parse, sources, x, y, k);
    }
  }

  lemma MergedNil(parse: Parser, x: seq<Option<Bytes>>, y: seq<Option<Bytes>>)
    requires |x| == |y| == 0
    ensures Merged(parse, [], x) == Merged(parse, [], y)
  {
  }

  lemma MaskedIsMerged(parse: Parser, sources: seq<Source>, x: seq<Option<Bytes>>, y: seq<Option<Bytes>>, k: nat)
    requires |sources| == |x| == |y| && k < |sources|
    ensures Masked(parse, sources, x, y, k) <==>
            forall n :: (n in NamesOf(parse, sources[k], x[k])) != (n in NamesOf(parse, sources[k], y[k])) ==>
                          n in Merged(parse, sources[..k], x[..k])
  {
    hide Merged, NamesOf, Earlier;
    forall n ensures n in Merged(parse, sources[..k], x[..k]) <==> Earlier(parse, sources, x, k, n) {
      MergedIsEarlier(parse, sources[..k], x[..k], n);
      EarlierInit(parse, sources, x, k, k, n);
    }
  }

  /** The names on which an accepted but unsaved body differs from the body stored before. */
  ghost predicate Lost(parse: Parser, st: Store, s: Source, io: Io, n: Text) {
    && Usable(parse, s, io) && !io.saveOk
    && (n in parse(s.format, io.outcome.body)) != (n in NamesOf(parse, s, BodyIn(st, s.id)))
  }

  /** Some source before `i` contributes `n`, judged by the store the cycle starts from. */
  ghost predicate ContributedBefore(parse: Parser, st: Store, c: Input, i: nat, n: Text)
    requires |c.sources| == |c.ios| && i <= |c.sources|
  {
    exists j: nat :: j < i && n in NamesOf(parse, c.sources[j], RefreshStep(parse, st, c.sources[j], c.ios[j]).body)
  }

  /** Each name on which the unsaved body of `i` differs from the stored one has an earlier contributor. */
  ghost predicate Recovered(parse: Parser, st: Store, c: Input, i: nat)
    requires |c.sources| == |c.ios| && i < |c.sources|
  {
    forall n :: Lost(parse, st, c.sources[i], c.ios[i], n) ==> ContributedBefore(parse, st, c, i, n)
  }

  /**
   * When a restart rebuilds the live map. After a complete cycle it does if and only if each name
   * on which an unsaved body differs from the stored one is also contributed by an earlier source.
   */
  lemma RestartExact(parse: Parser, w: World, c: Input)
    requires ValidInput(c) && Complete(OutOf(parse, w, c).bodies)
    ensures Next(parse, w, c).live == Merged(parse, c.sources, Reloaded(Next(parse, w, c).store, c.sources))
       <==> forall i :: 0 <= i < |c.sources| ==> Recovered(parse, w.store, c, i)
  {
    hide Cycle, Merged, Reloaded, Masked, Recovered;
    var out := OutOf(parse, w, c);
    var y := Reloaded(out.store, c.sources);
    MergedAgree(parse, c.sources, out.bodies, y);
    forall i | 0 <= i < |c.sources|
      ensures Masked(parse, c.sources, out.bodies, y, i) == Recovered(parse, w.store, c, i)
    {
      MaskedIsRecovered(parse, w, c, i);
    }
  }

  lemma MaskedIsRecovered(parse: Parser, w: World, c: Input, i: nat)
    requires ValidInput(c) && Complete(OutOf(parse, w, c).bodies) && i < |c.sources|
    ensures var out := OutOf(parse, w, c);
            Masked(parse, c.sources, out.bodies, Reloaded(out.store, c.sources), i) == Recovered(parse, w.store, c, i)
  {
    hide Cycle, Reloaded, RefreshStep, NamesOf, Lost, Earlier, ContributedBefore;
    var out := OutOf(parse, w, c);
    var x, y := out.bodies, Reloaded(out.store, c.sources);
    BodyFromStart(parse, w.store, c.sources, c.ios, i);
    RowFromStart(parse, w.store, c.sources, c.ios, i);
    forall n
      ensures (n in NamesOf(parse, c.sources[i], x[i])) != (n in NamesOf(parse, c.sources[i], y[i])) <==>
              Lost(parse, w.store, c.sources[i], c.ios[i], n)
      ensures Earlier(parse, c.sources, x, i, n) == ContributedBefore(parse, w.store, c, i, n)
    {
      StepLost(parse, w.store, c.sources[i], c.ios[i], n);
      EarlierFromStart(parse, w, c, i, n);
    }
  }

  lemma StepLost(parse: Parser, st: Store, s: Source, io: Io, n: Text)
    requires RefreshStep(parse, st, s, io).body.Some?
    ensures var step := RefreshStep(parse, st, s, io);
            (n in NamesOf(parse, s, step.body)) != (n in NamesOf(parse, s, BodyIn(step.store, s.id))) <==>
                Lost(parse, st, s, io, n)
  {
  }

  lemma EarlierFromStart(parse: Parser, w: World, c: Input, i: nat, n: Text)
    requires ValidInput(c) && i <= |c.sources|
    ensures Earlier(parse, c.sources, OutOf(parse, w, c).bodies, i, n) == ContributedBefore(parse, w.store, c, i, n)
  {
    hide Cycle, RefreshStep;
    forall j: nat | j < i
      ensures Contributes(parse, c.sources, OutOf(parse, w, c).bodies, j, n) <==>
              n in NamesOf(parse, c.sources[j], RefreshStep(parse, w.store, c.sources[j], c.ios[j]).body)
    {
      BodyFromStart(parse, w.store, c.sources, c.ios, j);
    }
  }

  /**
   * A name that an unsaved body adds to the stored one, or is alone in having, is lost by the
   * restart if no other stored body has it; a stored body of the same source changes nothing.
   */
  lemma UnsavedSourceIsLost(parse: Parser, w: World, c: Input, i: nat, n: Text)
    requires ValidInput(c) && Complete(OutOf(parse, w, c).bodies) && i < |c.sources|
    requires Usable(parse, c.sources[i], c.ios[i]) && !c.ios[i].saveOk &&
               n in parse(c.sources[i].format, c.ios[i].outcome.body)
    requires forall j :: 0 <= j < |c.sources| ==>
               n !in NamesOf(parse, c.sources[j], BodyIn(Next(parse, w, c).store, c.sources[j].id))
    ensures n in Next(parse, w, c).live
    ensures n !in Merged(parse, c.sources, Reloaded(Next(parse, w, c).store, c.sources))
  {
    hide Cycle, Merged, Reloaded;
    var out := OutOf(parse, w, c);
    BodyFromStart(parse, w.store, c.sources, c.ios, i);
    MergedExact(parse, c.sources, out.bodies, n);
    assert Contributes(parse, c.sources, out.bodies, i, n);
    MergedExact(parse, c.sources, Reloaded(out.store, c.sources), n);
  }

  function Credited(names: set<Text>, id: Id): map<Text, Id> {
    map n | n in names :: id
  }

  lemma OneSource(parse: Parser, st: Store, s: Source, io: Io)
    ensures var step := RefreshStep(parse, st, s, io);
            Cycle(parse, st, [s], [io]).store == step.store && Cycle(parse, st, [s], [io]).bodies == [step.body]
  {
    assert [s][..0] == [] && [io][..0] == [];
    assert Cycle(parse, st, [], []).bodies == [];
  }

  lemma OneMerged(parse: Parser, s: Source, body: Bytes)
    ensures Merged(parse, [s], [Some(body)]) == Credited(parse(s.format, body), s.id)
  {
    assert Merged(parse, [s][..0], [Some(body)][..0]) == map[];
  }

  /** With a single source whose new body is not saved, the restart brings back the old body. */
  lemma StaleBodyReturns(parse: Parser, w: World, s: Source, io: Io)
    requires Usable(parse, s, io) && !io.saveOk && s.id in w.store.cache
    ensures var next := Next(parse, w, Input([s], [io]));
            && next.live == Credited(parse(s.format, io.outcome.body), s.id)
            && Merged(parse, [s], Reloaded(next.store, [s])) == Credited(parse(s.format, w.store.cache[s.id]), s.id)
  {
    hide Merged, Credited, Cycle;
    OneSource(parse, w.store, s, io);
    OneMerged(parse, s, io.outcome.body);
    OneMerged(parse, s, w.store.cache[s.id]);
    assert Reloaded(Next(parse, w, Input([s], [io])).store, [s]) == [Some(w.store.cache[s.id])];
  }

  /** A parser for lists of one name: the body is the name. */
  function OneName(format: Format, body: Bytes): set<Text> {
    {body}
  }

  const STORED_SOURCE := Source(1, Hosts, NO_VALIDATORS)
  const STALE_WORLD := World(Store(map[1 := [97]], map[]), map[[97] := 1])
  const UNSAVED_IO := Io(Modified([98], NO_VALIDATORS), true, false, true)

  /** Concretely: the live map credits `b`, and after the restart it credits `a`. */
  lemma RestartCanDiffer()
    ensures var next := Next(OneName, STALE_WORLD, Input([STORED_SOURCE], [UNSAVED_IO]));
            && [98] in next.live && [97] !in next.live
            && [97] in Merged(OneName, [STORED_SOURCE], Reloaded(next.store, [STORED_SOURCE]))
            && [98] !in Merged(OneName, [STORED_SOURCE], Reloaded(next.store, [STORED_SOURCE]))
  {
    hide Next, Merged, Reloaded;
    assert OneName(Hosts, [98]) == {[98]} && OneName(Hosts, [97]) == {[97]};
    StaleBodyReturns(OneName, STALE_WORLD, STORED_SOURCE, UNSAVED_IO);
  }

  // ---- A restart after any run ---------------------------------------------------------

  /** The last body that a cycle saves for `id`. */
  ghost function SavedIn(parse: Parser, sources: seq<Source>, ios: seq<Io>, id: Id): Option<Bytes>
    requires |sources| == |ios|
  {
    if sources == [] then None else
    var n := |sources| - 1;
    if sources[n].id == id && Usable(parse, sources[n], ios[n]) && ios[n].saveOk then Some(ios[n].outcome.body)
    else SavedIn(parse, sources[..n], ios[..n], id)
  }

  function OrElse(x: Option<Bytes>, y: Option<Bytes>): Option<Bytes> {
    if x.Some? then x else y
  }

  lemma StepSaves(parse: Parser, st: Store, s: Source, io: Io, id: Id)
    ensures BodyIn(RefreshStep(parse, st, s, io).store, id) ==
            if s.id == id && Usable(parse, s, io) && io.saveOk then Some(io.outcome.body) else BodyIn(st, id)
  {
  }

  lemma {:induction false} CycleSaves(parse: Parser, st: Store, sources: seq<Source>, ios: seq<Io>, id: Id)
    requires |sources| == |ios|
    ensures BodyIn(Cycle(parse, st, sources, ios).store, id) == OrElse(SavedIn(parse, sources, ios, id), BodyIn(st, id))
    decreases |sources|
  {
    hide RefreshStep, BodyIn, Usable;
    if sources != [] {
      var n := |sources| - 1;
      CycleSaves(parse, st, sources[..n], ios[..n], id);
      StepSaves(parse, Cycle(parse, st, sources[..n], ios[..n]).store, sources[n], ios[n], id);
    }
  }

  /** The body stored for `id` after a run: the last one saved, or else the one stored at the start. */
  ghost function StoredAfter(parse: Parser, st: Store, cs: seq<Input>, id: Id): Option<Bytes>
    requires ValidInputs(cs)
  {
    if cs == [] then BodyIn(st, id) else
    var c := cs[|cs| - 1];
    OrElse(SavedIn(parse, c.sources, c.ios, id), StoredAfter(parse, st, cs[..|cs| - 1], id))
  }

  lemma {:induction false} RunStores(parse: Parser, w: World, cs: seq<Input>, id: Id)
    requires ValidInputs(cs)
    ensures BodyIn(Run(parse, w, cs).store, id) == StoredAfter(parse, w.store, cs, id)
    decreases |cs|
  {
    hide Cycle, BodyIn, SavedIn, OrElse, Merged, Complete;
    if cs != [] {
      var n := |cs| - 1;
      RunStores(parse, w, cs[..n], id);
      CycleSaves(parse, Run(parse, w, cs[..n]).store, cs[n].sources, cs[n].ios, id);
    }
  }

  /** The last validators that a cycle stores for `id`. */
  ghost function ValidatorsIn(parse: Parser, sources: seq<Source>, ios: seq<Io>, id: Id): Option<Validators>
    requires |sources| == |ios|
  {
    if sources == [] then None else
    var n := |sources| - 1;
    if sources[n].id == id && Fresh(parse, sources[n], ios[n]) && ios[n].metaOk
    then Some(ios[n].outcome.validators)
    else ValidatorsIn(parse, sources[..n], ios[..n], id)
  }

  function MetaIn(st: Store, id: Id): Option<Validators> {
    if id in st.meta then Some(st.meta[id]) else None
  }

  lemma StepStoresValidators(parse: Parser, st: Store, s: Source, io: Io, id: Id)
    ensures MetaIn(RefreshStep(parse, st, s, io).store, id) ==
            if s.id == id && Fresh(parse, s, io) && io.metaOk then Some(io.outcome.validators) else MetaIn(st, id)
  {
  }

  /** A cycle stores the validators of fresh answers whose update succeeds, and no others. */
  lemma {:induction false} CycleStoresValidators(parse: Parser, st: Store, sources: seq<Source>, ios: seq<Io>, id: Id)
    requires |sources| == |ios|
    ensures var last := ValidatorsIn(parse, sources, ios, id);
            MetaIn(Cycle(parse, st, sources, ios).store, id) == if last.Some? then last else MetaIn(st, id)
    decreases |sources|
  {
    hide RefreshStep, MetaIn, Fresh;
    if sources != [] {
      var n := |sources| - 1;
      CycleStoresValidators(parse, st, sources[..n], ios[..n], id);
      StepStoresValidators(parse, Cycle(parse, st, sources[..n], ios[..n]).store, sources[n], ios[n], id);
    }
  }

  /** What source `i` contributes to cycle `k` if it contributes: its usable response, or the stored body. */
  ghost function Contribution(parse: Parser, st: Store, cs: seq<Input>, k: nat, i: nat): Option<Bytes>
    requires ValidInputs(cs) && k < |cs| && i < |cs[k].sources|
  {
    var s, io := cs[k].sources[i], cs[k].ios[i];
    if Usable(parse, s, io) then Some(io.outcome.body) else StoredAfter(parse, st, cs[..k], s.id)
  }

  lemma StepContributes(parse: Parser, st: Store, s: Source, io: Io)
    requires RefreshStep(parse, st, s, io).body.Some?
    ensures RefreshStep(parse, st, s, io).body ==
              if Usable(parse, s, io) then Some(io.outcome.body) else BodyIn(st, s.id)
  {
  }

  lemma BodyIsContribution(parse: Parser, w: World, cs: seq<Input>, k: nat, i: nat)
    requires ValidInputs(cs) && CompleteAt(parse, w, cs, k) && i < |cs[k].sources|
    ensures BodiesAt(parse, w, cs, k)[i] == Contribution(parse, w.store, cs, k, i)
  {
    hide Cycle, RefreshStep, BodyIn, Usable, Run, StoredAfter;
    var before := Run(parse, w, cs[..k]).store;
    BodyFromStart(parse, before, cs[k].sources, cs[k].ios, i);
    StepContributes(parse, before, cs[k].sources[i], cs[k].ios[i]);
    RunStores(parse, w, cs[..k], cs[k].sources[i].id);
  }

  ghost predicate ContributedEarlier(parse: Parser, st: Store, cs: seq<Input>, k: nat, i: nat, n: Text)
    requires ValidInputs(cs) && k < |cs| && i <= |cs[k].sources|
  {
    exists j: nat :: j < i && n in NamesOf(parse, cs[k].sources[j], Contribution(parse, st, cs, k, j))
  }

  /** Each name on which source `i`'s contribution and its stored body differ has an earlier contributor. */
  ghost predicate Outlived(parse: Parser, st: Store, cs: seq<Input>, k: nat, i: nat)
    requires ValidInputs(cs) && k < |cs| && i < |cs[k].sources|
  {
    var s := cs[k].sources[i];
    forall n :: (n in NamesOf(parse, s, Contribution(parse, st, cs, k, i))) !=
                (n in NamesOf(parse, s, StoredAfter(parse, st, cs, s.id))) ==>
                  ContributedEarlier(parse, st, cs, k, i, n)
  }

  lemma MaskedIsOutlived(parse: Parser, w: World, cs: seq<Input>, k: nat, i: nat)
    requires ValidInputs(cs) && CompleteAt(parse, w, cs, k) && i < |cs[k].sources|
    ensures Masked(parse, cs[k].sources, BodiesAt(parse, w, cs, k), Reloaded(Run(parse, w, cs).store, cs[k].sources), i)
         == Outlived(parse, w.store, cs, k, i)
  {
    hide BodiesAt, Reloaded, Contribution, StoredAfter, Run;
    var sources, x := cs[k].sources, BodiesAt(parse, w, cs, k);
    RunStores(parse, w, cs, sources[i].id);
    BodyIsContribution(parse, w, cs, k, i);
    forall n
      ensures Earlier(parse, sources, x, i, n) == ContributedEarlier(parse, w.store, cs, k, i, n)
    {
      forall j: nat | j < i
        ensures Contributes(parse, sources, x, j, n) <==>
                  n in NamesOf(parse, sources[j], Contribution(parse, w.store, cs, k, j))
      {
        BodyIsContribution(parse, w, cs, k, j);
      }
    }
  }

  /**
   * A restart at the end of any run, however many incomplete cycles came last: it rebuilds the live
   * map if and only if each name on which a contribution to the last complete cycle differs from
   * the body stored by now was also contributed by an earlier source. Both bodies are determined
   * by the responses and by which of them were saved.
   */
  lemma RunRestartExact(parse: Parser, w: World, cs: seq<Input>, k: nat)
    requires ValidInputs(cs) && LastComplete(parse, w, cs, k)
    ensures Run(parse, w, cs).live == Merged(parse, cs[k].sources, Reloaded(Run(parse, w, cs).store, cs[k].sources))
       <==> forall i :: 0 <= i < |cs[k].sources| ==> Outlived(parse, w.store, cs, k, i)
  {
    hide BodiesAt, Reloaded, Run, Merged, Masked, Outlived, CompleteAt;
    assert k < |cs| by {
      OutOfRange(parse, w, cs);
    }
    var sources, y := cs[k].sources, Reloaded(Run(parse, w, cs).store, cs[k].sources);
    LiveIsLastSnapshot(parse, w, cs);
    MergedAgree(parse, sources, BodiesAt(parse, w, cs, k), y);
    forall i | 0 <= i < |sources|
      ensures Masked(parse, sources, BodiesAt(parse, w, cs, k), y, i) == Outlived(parse, w.store, cs, k, i)
    {
      MaskedIsOutlived(parse, w, cs, k, i);
    }
  }

  /** No cycle after `k` saved another body for `id` than `body`. */
  ghost predicate NothingElseSaved(parse: Parser, cs: seq<Input>, k: nat, id: Id, body: Option<Bytes>)
    requires ValidInputs(cs)
  {
    forall j :: k < j < |cs| ==>
      SavedIn(parse, cs[j].sources, cs[j].ios, id).None? || SavedIn(parse, cs[j].sources, cs[j].ios, id) == body
  }

  lemma {:induction false} StoredStays(parse: Parser, st: Store, cs: seq<Input>, k: nat, id: Id)
    requires ValidInputs(cs) && k < |cs|
    requires NothingElseSaved(parse, cs, k, id, StoredAfter(parse, st, cs[..k + 1], id))
    ensures StoredAfter(parse, st, cs, id) == StoredAfter(parse, st, cs[..k + 1], id)
    decreases |cs|
  {
    hide SavedIn;
    var n := |cs| - 1;
    if k == n {
      assert cs[..k + 1] == cs;
    } else {
      assert cs[..n][..k + 1] == cs[..k + 1];
      StoredStays(parse, st, cs[..n], k, id);
    }
  }

  /**
   * Restart equivalence over runs: if the last complete cycle kept all its bodies, and no later
   * cycle saved a different one for its sources, a restart rebuilds exactly the live map.
   */
  lemma RunRestartEquivalence(parse: Parser, w: World, cs: seq<Input>, k: nat)
    requires ValidInputs(cs) && LastComplete(parse, w, cs, k)
    requires AllKept(parse, Run(parse, w, cs[..k]).store, cs[k].sources, cs[k].ios)
    requires forall i :: 0 <= i < |cs[k].sources| ==>
               NothingElseSaved(parse, cs, k, cs[k].sources[i].id, BodiesAt(parse, w, cs, k)[i])
    ensures Run(parse, w, cs).live == Merged(parse, cs[k].sources, Reloaded(Run(parse, w, cs).store, cs[k].sources))
  {
    hide Reloaded, Run, Merged, StoredAfter, NothingElseSaved, Cycle, AllKept;
    var sources, x := cs[k].sources, BodiesAt(parse, w, cs, k);
    LiveIsLastSnapshot(parse, w, cs);
    var before, y := Run(parse, w, cs[..k]), Reloaded(Run(parse, w, cs).store, sources);
    ReloadExact(parse, before, cs[k]);
    RunUnfold(parse, w, cs, k);
    forall i | 0 <= i < |sources| ensures y[i] == x[i] {
      RunStores(parse, w, cs[..k + 1], sources[i].id);
      StoredStays(parse, w.store, cs, k, sources[i].id);
      RunStores(parse, w, cs, sources[i].id);
    }
    assert y == x;
  }

  lemma RunUnfold(parse: Parser, w: World, cs: seq<Input>, k: nat)
    requires ValidInputs(cs) && k < |cs|
    ensures Run(parse, w, cs[..k + 1]) == Next(parse, Run(parse, w, cs[..k]), cs[k])
  {
    assert cs[..k + 1][..k] == cs[..k];
  }

  // ---- Body and validators from the same response ----------------------------------------

  datatype Response = Response(id: Id, body: Bytes, validators: Validators)

  /** Cached body and stored validators of every source come from one response in `ledger`. */
  ghost predicate Paired(st: Store, ledger: set<Response>) {
    forall id :: (id in st.cache <==> id in st.meta) &&
                 (id in st.cache ==> Response(id, st.cache[id], st.meta[id]) in ledger)
  }

  /** The usable responses of a cycle. */
  ghost function Received(parse: Parser, sources: seq<Source>, ios: seq<Io>): set<Response>
    requires |sources| == |ios|
  {
    set i | 0 <= i < |sources| && Usable(parse, sources[i], ios[i]) ::
      Response(sources[i].id, ios[i].outcome.body, ios[i].outcome.validators)
  }

  /** In each accepted 200, the body save and the metadata update succeed or fail together. */
  ghost predicate Atomic(parse: Parser, sources: seq<Source>, ios: seq<Io>)
    requires |sources| == |ios|
  {
    forall i :: 0 <= i < |sources| && Usable(parse, sources[i], ios[i]) ==> ios[i].saveOk == ios[i].metaOk
  }

  lemma {:induction false} CycleKeepsPaired(parse: Parser, st: Store, sources: seq<Source>, ios: seq<Io>,
                                            ledger: set<Response>)
    requires |sources| == |ios| && Atomic(parse, sources, ios) && Paired(st, ledger)
    ensures Paired(Cycle(parse, st, sources, ios).store, ledger + Received(parse, sources, ios))
    decreases |sources|
  {
    if sources != [] {
      var n := |sources| - 1;
      CycleKeepsPaired(parse, st, sources[..n], ios[..n], ledger);
      assert Received(parse, sources[..n], ios[..n]) <= Received(parse, sources, ios) by {
        assert forall i :: 0 <= i < n ==> sources[..n][i] == sources[i] && ios[..n][i] == ios[i];
      }
      if Usable(parse, sources[n], ios[n]) {
        assert Response(sources[n].id, ios[n].outcome.body, ios[n].outcome.validators) in Received(parse, sources, ios);
      }
    }
  }

  ghost function Ledger(parse: Parser, cs: seq<Input>): set<Response>
    requires ValidInputs(cs)
  {
    if cs == [] then {} else
    Ledger(parse, cs[..|cs| - 1]) + Received(parse, cs[|cs| - 1].sources, cs[|cs| - 1].ios)
  }

  /** Over every run of atomic cycles from an empty store, body and validators stay paired. */
  lemma {:induction false} RunKeepsPaired(parse: Parser, w: World, cs: seq<Input>, ledger: set<Response>)
    requires ValidInputs(cs) && forall k :: 0 <= k < |cs| ==> Atomic(parse, cs[k].sources, cs[k].ios)
    requires Paired(w.store, ledger)
    ensures Paired(Run(parse, w, cs).store, ledger + Ledger(parse, cs))
    decreases |cs|
  {
    hide Cycle, Received, Atomic, Paired;
    if cs == [] {
      assert ledger + {} == ledger;
    } else {
      var n := |cs| - 1;
      RunKeepsPaired(parse, w, cs[..n], ledger);
      CycleKeepsPaired(parse, Run(parse, w, cs[..n]).store, cs[n].sources, cs[n].ios, ledger + Ledger(parse, cs[..n]));
      assert ledger + Ledger(parse, cs) == ledger + Ledger(parse, cs[..n]) + Received(parse, cs[n].sources, cs[n].ios);
    }
  }

  /** The rows handed to a cycle carry the validators the store holds. */
  ghost predicate RowsMatch(st: Store, sources: seq<Source>) {
    forall i :: 0 <= i < |sources| ==>
      sources[i].validators == if sources[i].id in st.meta then st.meta[sources[i].id] else NO_VALIDATORS
  }

  /** A 304 contributes the very body whose response supplied the validators that were sent. */
  lemma NotModifiedContributesNamedBody(parse: Parser, st: Store, sources: seq<Source>, ios: seq<Io>,
                                        ledger: set<Response>, i: nat)
    requires |sources| == |ios| && Ascending(sources) && RowsMatch(st, sources) && Paired(st, ledger)
    requires i < |sources| && ios[i].outcome.NotModified?
    ensures var body := Cycle(parse, st, sources, ios).bodies[i];
            body.Some? ==> Response(sources[i].id, body.value, sources[i].validators) in ledger
  {
    hide Cycle;
    BodyFromStart(parse, st, sources, ios, i);
  }

  /**
   * Over every run of atomic cycles, each 304 answered to the validators the store held then
   * contributes the body of the response that supplied those validators.
   */
  lemma RunContributesNamedBody(parse: Parser, w: World, cs: seq<Input>, ledger: set<Response>, k: nat, i: nat)
    requires ValidInputs(cs) && k < |cs| && Paired(w.store, ledger)
    requires forall j :: 0 <= j < k ==> Atomic(parse, cs[j].sources, cs[j].ios)
    requires RowsMatch(Run(parse, w, cs[..k]).store, cs[k].sources)
    requires i < |cs[k].sources| && cs[k].ios[i].outcome.NotModified?
    ensures var body := BodiesAt(parse, w, cs, k)[i];
            body.Some? ==>
              Response(cs[k].sources[i].id, body.value, cs[k].sources[i].validators)
              in ledger + Ledger(parse, cs[..k])
  {
    hide Cycle, Paired, Atomic, Run, RowsMatch, Ledger;
    RunKeepsPaired(parse, w, cs[..k], ledger);
    var before, known := Run(parse, w, cs[..k]).store, ledger + Ledger(parse, cs[..k]);
    NotModifiedContributesNamedBody(parse, before, cs[k].sources, cs[k].ios, known, i);
  }

  /** The body and the validators that a response leaves in the store are from one known response. */
  ghost predicate Matched(st: Store, s: Source, io: Io, ledger: set<Response>)
    requires io.outcome.Modified?
  {
    s.id in st.cache && s.id in st.meta &&
    Response(s.id, if io.saveOk then io.outcome.body else st.cache[s.id],
                   if io.metaOk then io.outcome.validators else st.meta[s.id]) in ledger
  }

  /**
   * The atomicity condition is exact for every response, also one that repeats a body or validators
   * seen before: the pairing survives if and only if the two writes shared their fate, or the
   * source had a row and the mixture of old and new is itself a response received.
   */
  lemma PairingExact(parse: Parser, st: Store, s: Source, io: Io, ledger: set<Response>)
    requires Paired(st, ledger) && Usable(parse, s, io)
    ensures var known := ledger + {Response(s.id, io.outcome.body, io.outcome.validators)};
            Paired(RefreshStep(parse, st, s, io).store, known) <==> io.saveOk == io.metaOk || Matched(st, s, io, known)
  {
    var known := ledger + {Response(s.id, io.outcome.body, io.outcome.validators)};
    var next := RefreshStep(parse, st, s, io).store;
    forall id | id != s.id
      ensures (id in next.cache <==> id in next.meta) &&
              (id in next.cache ==> Response(id, next.cache[id], next.meta[id]) in known)
    {
    }
    assert s.id in st.cache ==> Response(s.id, st.cache[s.id], st.meta[s.id]) in ledger;
  }

  /** For a response whose body and validators are both new to its source, only a shared fate will do. */
  lemma FreshPairingExact(parse: Parser, st: Store, s: Source, io: Io, ledger: set<Response>)
    requires Paired(st, ledger) && Usable(parse, s, io)
    requires forall r :: r in ledger && r.id == s.id ==>
               r.body != io.outcome.body && r.validators != io.outcome.validators
    ensures var known := ledger + {Response(s.id, io.outcome.body, io.outcome.validators)};
            Paired(RefreshStep(parse, st, s, io).store, known) <==> io.saveOk == io.metaOk
  {
    PairingExact(parse, st, s, io, ledger);
    assert s.id in st.cache ==> Response(s.id, st.cache[s.id], st.meta[s.id]) in ledger;
  }
}
