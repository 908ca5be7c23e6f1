/** The cache layer of the pipeline: probe, forward on a miss, store what the scan allows. */
module CacheLayer {
  import opened Wire
  import opened Headers
  import opened Messages
  import opened Edns
  import Synth
  import opened TtlScan
  import opened Patch
  import opened Rescan
  import opened Cache

  /** What an upstream returned; the negative flag and TTL come from its resolver library. */
  datatype Upstream = Upstream(bytes: Bytes, isNegative: bool, negativeTtl: Option<u32>)

  datatype Directive = Keep(offsets: seq<nat>, expiry: u32) | Pass

  /** The store policy: negatives by their capped negative TTL, positives by the scan's minimum. */
  function Policy(u: Upstream, cap: u32): Directive {
    match Scan(u.bytes)
    case Err(_) => Pass
    case Ok(s) =>
      var expiry := if u.isNegative then CapTtl(u.negativeTtl, cap) else s.minTtl;
      if expiry.Some? then Keep(s.offsets, expiry.value) else Pass
  }

  function CapTtl(t: Option<u32>, cap: u32): Option<u32> {
    if t.Some? then Some(Min(t.value, cap)) else None
  }

  /** What is stored and for how long: negatives for their own TTL up to the cap, positives for the minimum. */
  lemma PolicyExact(u: Upstream, cap: u32, offsets: seq<nat>, expiry: u32)
    ensures Policy(u, cap) == Keep(offsets, expiry) <==>
              && Scan(u.bytes).Ok? && Scan(u.bytes).value.offsets == offsets
              && if u.isNegative
                 then u.negativeTtl.Some? && expiry == if u.negativeTtl.value <= cap then u.negativeTtl.value else cap
                 else Scan(u.bytes).value.minTtl == Some(expiry)
  {
    hide Scan;
  }

  // Runs: requests interleave, so a probe, a store and an edit of the bounds are separate steps.

  datatype CacheState = CacheState(entries: map<Question, CachedResponse>, lo: u32, hi: u32)

  datatype Event =
    | SetBounds(lo: u32, hi: u32)
    | Clear
    | Store(question: Question, upstream: Upstream, cap: u32, now: nat)

  ghost predicate ValidEvents(evs: seq<Event>) {
    forall i :: 0 <= i < |evs| && evs[i].SetBounds? ==> evs[i].lo <= evs[i].hi
  }

  function Insert(s: CacheState, q: Question, u: Upstream, cap: u32, now: nat): CacheState
    requires s.lo <= s.hi
  {
    match Policy(u, cap)
    case Pass => s
    case Keep(offsets, expiry) =>
      s.(entries := s.entries[q := CachedResponse(u.bytes, offsets, now, Clamp(expiry, s.lo, s.hi))])
  }

  ghost function Run(s: CacheState, evs: seq<Event>): (r: CacheState)
    requires s.lo <= s.hi && ValidEvents(evs)
    ensures r.lo <= r.hi
    decreases |evs|
  {
    if evs == [] then s else
    var before := Run(s, evs[..|evs| - 1]);
    match evs[|evs| - 1]
    case SetBounds(lo, hi) => before.(lo := lo, hi := hi)
    case Clear => before.(entries := map[])
    case Store(q, u, cap, now) => Insert(before, q, u, cap, now)
  }

  /** Step `i` stored `e` for `q`, under the bounds in force then. */
  ghost predicate StoredBy(s: CacheState, evs: seq<Event>, i: nat, q: Question, e: CachedResponse)
    requires s.lo <= s.hi && ValidEvents(evs)
  {
    && i < |evs| && evs[i].Store? && evs[i].question == q
    && Policy(evs[i].upstream, evs[i].cap).Keep?
    && var bounds, keep := Run(s, evs[..i]), Policy(evs[i].upstream, evs[i].cap);
       e == CachedResponse(evs[i].upstream.bytes, keep.offsets, evs[i].now, Clamp(keep.expiry, bounds.lo, bounds.hi))
  }

  /** Over every run, each entry was stored by an earlier step for the same question. */
  lemma {:induction false} EntryProvenance(s: CacheState, evs: seq<Event>, q: Question)
    requires s.lo <= s.hi && ValidEvents(evs) && s.entries == map[]
    ensures q in Run(s, evs).entries ==> exists i: nat :: StoredBy(s, evs, i, q, Run(s, evs).entries[q])
    decreases |evs|
  {
    hide Policy;
    if evs != [] && q in Run(s, evs).entries {
      var n := |evs| - 1;
      var init := evs[..n];
      EntryProvenance(s, init, q);
      assert evs[..n] == init;
      if q in Run(s, init).entries && Run(s, evs).entries[q] == Run(s, init).entries[q] {
        var i: nat :| StoredBy(s, init, i, q, Run(s, init).entries[q]);
        assert init[..i] == evs[..i] && init[i] == evs[i];
        assert StoredBy(s, evs, i, q, Run(s, evs).entries[q]);
      } else {
        assert StoredBy(s, evs, n, q, Run(s, evs).entries[q]);
      }
    }
  }

  /** No step after `i` clears the cache or stores another response for `q`. */
  ghost predicate Undisturbed(evs: seq<Event>, i: nat, q: Question) {
    forall j :: i < j < |evs| ==>
      !evs[j].Clear? && (evs[j].Store? && evs[j].question == q ==> Policy(evs[j].upstream, evs[j].cap).Pass?)
  }

  /** What the cache holds after a run: for each question the last response stored, unless cleared since. */
  lemma {:induction false} EntryExact(s: CacheState, evs: seq<Event>, q: Question, e: CachedResponse)
    requires s.lo <= s.hi && ValidEvents(evs) && s.entries == map[]
    ensures q in Run(s, evs).entries && Run(s, evs).entries[q] == e <==>
            exists i: nat :: StoredBy(s, evs, i, q, e) && Undisturbed(evs, i, q)
    decreases |evs|
  {
    hide Policy;
    if evs != [] {
      var n := |evs| - 1;
      var init := evs[..n];
      EntryExact(s, init, q, e);
      forall i: nat | i < n ensures StoredBy(s, init, i, q, e) == StoredBy(s, evs, i, q, e) {
        assert init[..i] == evs[..i] && init[i] == evs[i];
      }
      forall i: nat | i < n
        ensures Undisturbed(evs, i, q) <==> Undisturbed(init, i, q) && LeavesAlone(evs[n], q)
      {
        UndisturbedInit(evs, i, q);
      }
      if LeavesAlone(evs[n], q) {
        assert !StoredBy(s, evs, n, q, e);
        if i: nat :| StoredBy(s, init, i, q, e) && Undisturbed(init, i, q) {
          assert StoredBy(s, evs, i, q, e) && Undisturbed(evs, i, q);
        }
        if i: nat :| StoredBy(s, evs, i, q, e) && Undisturbed(evs, i, q) {
          assert StoredBy(s, init, i, q, e) && Undisturbed(init, i, q);
        }
      } else if StoredBy(s, evs, n, q, e) {
        assert Undisturbed(evs, n, q);
      }
    }
  }

  ghost predicate LeavesAlone(ev: Event, q: Question) {
    !ev.Clear? && (ev.Store? && ev.question == q ==> Policy(ev.upstream, ev.cap).Pass?)
  }

  lemma UndisturbedInit(evs: seq<Event>, i: nat, q: Question)
    requires i + 1 < |evs|
    ensures Undisturbed(evs, i, q) <==> Undisturbed(evs[..|evs| - 1], i, q) && LeavesAlone(evs[|evs| - 1], q)
  {
    hide Policy;
    var n := |evs| - 1;
    var init := evs[..n];
    assert forall j :: 0 <= j < n ==> init[j] == evs[j];
    if Undisturbed(init, i, q) && LeavesAlone(evs[n], q) {
      forall j | i < j < |evs| ensures LeavesAlone(evs[j], q) {
        if j < n {
          assert init[j] == evs[j];
        }
      }
      assert forall j :: i < j < |evs| ==> LeavesAlone(evs[j], q);
    }
  }

  /** The bounds in force after a run are those of the last edit, or the initial ones. */
  lemma {:induction false} BoundsExact(s: CacheState, evs: seq<Event>, i: nat)
    requires s.lo <= s.hi && ValidEvents(evs)
    requires i < |evs| ==> evs[i].SetBounds?
    requires forall j :: i < j < |evs| ==> !evs[j].SetBounds?
    requires i >= |evs| ==> forall j :: 0 <= j < |evs| ==> !evs[j].SetBounds?
    ensures Run(s, evs).lo == if i < |evs| then evs[i].lo else s.lo
    ensures Run(s, evs).hi == if i < |evs| then evs[i].hi else s.hi
    decreases |evs|
  {
    hide Policy;
    if evs != [] && i != |evs| - 1 {
      var init := evs[..|evs| - 1];
      assert forall j :: 0 <= j < |init| ==> init[j] == evs[j];
      BoundsExact(s, init, i);
    }
  }

  /** `r` is the stored response under another id, with every TTL aged and no other byte changed. */
  ghost predicate AgedCopy(e: CachedResponse, r: Bytes, id: u16, elapsed: u32) {
    && Spaced(e.offsets, 4, |e.bytes|)
    && |r| == |e.bytes| >= 2 && U16At(r, 0) == id
    && (forall k :: 0 <= k < |e.offsets| ==>
          var ttl := U32At(e.bytes, e.offsets[k]);
          U32At(r, e.offsets[k]) == if elapsed <= ttl then ttl - elapsed else 0)
    && (forall i :: 2 <= i < |r| && !InWindow(e.offsets, i) ==> r[i] == e.bytes[i])
  }

  /**
   * Over every run: a hit answers with an upstream response that was stored for the same question
   * and scanned; the client sees its own id, every TTL aged by the time since the store, and
   * otherwise the upstream's bytes.
   */
  lemma HitIsFaithful(s: CacheState, evs: seq<Event>, q: Question, id: u16, now: nat, secs: u32)
    requires s.lo <= s.hi && ValidEvents(evs) && s.entries == map[]
    requires q in Run(s, evs).entries && WholeSeconds(Run(s, evs).entries[q].storedAt, now, secs)
    ensures var e := Run(s, evs).entries[q];
            && (exists i: nat :: StoredBy(s, evs, i, q, e))
            && Scan(e.bytes).Ok? && e.offsets == Scan(e.bytes).value.offsets
            && AgedCopy(e, e.Served(id, now), id, secs)
  {
    hide Run, Scan, Patched, U32At, U16At;
    EntryProvenance(s, evs, q);
    var e := Run(s, evs).entries[q];
    ScanPatchable(e.bytes);
    ServedAges(e, id, now, secs);
  }

  /** The minimum TTL of a stored positive answer. */
  function MinOf(u: Upstream): u32
    requires Scan(u.bytes).Ok? && Scan(u.bytes).value.minTtl.Some?
  {
    Scan(u.bytes).value.minTtl.value
  }

  /**
   * Over every run: while the entry of a positive answer lives, whose minimum TTL was at least the
   * floor in force when it was stored, every TTL served is the original less the time since the
   * store, and is at least one.
   */
  lemma PositiveHitServesExactTtls(s: CacheState, evs: seq<Event>, q: Question, i: nat, id: u16,
                                   now: nat, secs: u32)
    requires s.lo <= s.hi && ValidEvents(evs) && q in Run(s, evs).entries
    requires StoredBy(s, evs, i, q, Run(s, evs).entries[q]) && !evs[i].upstream.isNegative
    requires Run(s, evs[..i]).lo <= MinOf(evs[i].upstream)
    requires evs[i].now <= now < evs[i].now + Run(s, evs).entries[q].expiry * 1_000_000_000
    requires WholeSeconds(evs[i].now, now, secs)
    ensures Scan(evs[i].upstream.bytes).Ok?
    ensures ServesExactTtls(evs[i].upstream.bytes, id, secs)
    ensures Run(s, evs).entries[q].Served(id, now)
         == Patched(evs[i].upstream.bytes, Scan(evs[i].upstream.bytes).value.offsets, id, secs)
  {
    hide Run, Scan, ServesExactTtls, Patched;
    var bounds := Run(s, evs[..i]);
    LiveEntryServesExactTtls(Run(s, evs).entries[q], bounds.lo, bounds.hi, id, now, secs);
  }

  // One request against the shared cache object.

  ghost function StateOf(c: DnsCache<Question>): CacheState
    requires c.Valid()
    reads c
  {
    CacheState(c.entries, c.MinTtlBound(), c.MaxTtlBound())
  }

  /**
   * Probe; on a miss take the upstream's answer, store it if the policy says so, and patch its id.
   * When no upstream answers, the client gets SERVFAIL and nothing is stored.
   */
  method Call(cache: DnsCache<Question>, query: Query, edns: Option<EdnsInfo>, held: bool, probedAt: nat,
              upstream: Option<Upstream>, cap: u32, storedAt: nat) returns (r: Bytes)
    requires cache.Valid() && Synth.Answerable(query, edns)
    modifies cache`entries
    ensures cache.Valid()
    ensures held && query.question in old(cache.entries) ==>
              && r == old(cache.entries)[query.question].Served(query.header.id, probedAt)
              && StateOf(cache) == old(StateOf(cache))
    ensures !(held && query.question in old(cache.entries)) && upstream.Some? ==>
              && r == PatchId(upstream.value.bytes, query.header.id)
              && StateOf(cache) == Insert(old(StateOf(cache)), query.question, upstream.value, cap, storedAt)
    ensures !(held && query.question in old(cache.entries)) && upstream.None? ==>
              && r == Synth.Respond(query, Synth.ErrorResponse(ServFail), edns)
              && StateOf(cache) == old(StateOf(cache))
  {
    var q, clientId := query.question, query.header.id;
    var hit := cache.Get(q, clientId, probedAt, held);
    if hit.Some? {
      return hit.value;
    }
    if upstream.None? {
      r := Synth.WriteReply(query, Synth.ErrorResponse(ServFail), edns);
      return;
    }
    var answer := upstream.value;
    var scan := ScanTtls(answer.bytes);
    if scan.Ok? {
      var expiry := if answer.isNegative then CapTtl(answer.negativeTtl, cap) else scan.value.minTtl;
      if expiry.Some? {
        cache.Insert(q, answer.bytes, scan.value.offsets, expiry.value, storedAt);
      }
    }
    return PatchId(answer.bytes, clientId);
  }
}
