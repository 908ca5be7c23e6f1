/** `DnsCache`: stored responses, live TTL bounds, and the TTLs that clients are served. */
module Cache {
  import opened Wire
  import opened Records
  import opened TtlScan
  import opened Patch
  import opened Rescan

  const NANOS_PER_SEC: nat := 1_000_000_000
  const U32_MAX: nat := 0xFFFF_FFFF

  /** Times are nanoseconds of a monotonic clock; `expiry` is in seconds. */
  datatype CachedResponse = CachedResponse(bytes: Bytes, offsets: seq<nat>, storedAt: nat, expiry: u32) {
    /** Whole seconds since the entry was stored, as `try_into().unwrap_or(u32::MAX)`. */
    function ElapsedSecs(now: nat): u32 {
      Min(SatSub(now, storedAt) / NANOS_PER_SEC, U32_MAX)
    }

    function Served(id: u16, now: nat): Bytes {
      Patched(bytes, offsets, id, ElapsedSecs(now))
    }

  }

  /** `secs` is the number of whole seconds from one instant to another, held at the largest 32-bit value. */
  ghost predicate WholeSeconds(start: nat, now: nat, secs: u32) {
    && (now < start ==> secs == 0)
    && (start <= now ==> start + secs * 1_000_000_000 <= now)
    && (start <= now && secs < 0xFFFF_FFFF ==> now < start + (secs + 1) * 1_000_000_000)
  }

  lemma ElapsedExact(e: CachedResponse, now: nat, secs: u32)
    ensures e.ElapsedSecs(now) == secs <==> WholeSeconds(e.storedAt, now, secs)
  {
  }

  /**
   * A hit by the clock: the client's id, each recorded TTL less the whole seconds since the store
   * and never below 0, and every other byte as stored.
   */
  lemma ServedAges(e: CachedResponse, id: u16, now: nat, secs: u32)
    requires Patchable(e.bytes, e.offsets) && WholeSeconds(e.storedAt, now, secs)
    ensures var r := e.Served(id, now);
            && |r| == |e.bytes| && U16At(r, 0) == id
            && (forall k :: 0 <= k < |e.offsets| ==>
                  var ttl := U32At(e.bytes, e.offsets[k]);
                  U32At(r, e.offsets[k]) == if secs <= ttl then ttl - secs else 0)
            && (forall i :: 2 <= i < |r| && !InWindow(e.offsets, i) ==> r[i] == e.bytes[i])
  {
    hide U32At, U16At, Patched;
    ElapsedExact(e, now, secs);
    PatchedEffect(e.bytes, e.offsets, id, secs);
  }

  function PackBounds(minTtl: u32, maxTtl: u32): nat {
    minTtl * 0x1_0000_0000 + maxTtl
  }

  function UnpackBounds(packed: nat): (u32, u32)
    requires packed < 0x1_0000_0000_0000_0000
  {
    (packed / 0x1_0000_0000, packed % 0x1_0000_0000)
  }

  lemma BoundsRoundTrip(minTtl: u32, maxTtl: u32)
    ensures PackBounds(minTtl, maxTtl) < 0x1_0000_0000_0000_0000
    ensures UnpackBounds(PackBounds(minTtl, maxTtl)) == (minTtl, maxTtl)
  {
  }

  function Clamp(secs: u32, lo: u32, hi: u32): u32
    requires lo <= hi
  {
    if secs < lo then lo else if secs > hi then hi else secs
  }

  lemma ClampExact(secs: u32, lo: u32, hi: u32)
    requires lo <= hi
    ensures Clamp(secs, lo, hi) == secs <==> lo <= secs <= hi
    ensures secs <= lo ==> Clamp(secs, lo, hi) == lo
    ensures hi <= secs ==> Clamp(secs, lo, hi) == hi
  {
  }

  class DnsCache<K(==)> {
    var entries: map<K, CachedResponse>
    /** Both bounds in one word, so that a reader never sees half of an update. */
    var ttlBounds: nat

    ghost predicate Valid()
      reads this
    {
      ttlBounds < 0x1_0000_0000_0000_0000 && MinTtlBound() <= MaxTtlBound()
    }

    ghost function MinTtlBound(): u32
      reads this
      requires ttlBounds < 0x1_0000_0000_0000_0000
    {
      UnpackBounds(ttlBounds).0
    }

    ghost function MaxTtlBound(): u32
      reads this
      requires ttlBounds < 0x1_0000_0000_0000_0000
    {
      UnpackBounds(ttlBounds).1
    }

    constructor (minTtl: u32, maxTtl: u32)
      requires minTtl <= maxTtl
      ensures Valid() && entries == map[]
      ensures MinTtlBound() == minTtl && MaxTtlBound() == maxTtl
    {
      entries := map[];
      ttlBounds := PackBounds(minTtl, maxTtl);
      BoundsRoundTrip(minTtl, maxTtl);
    }

    method SetTtlBounds(minTtl: u32, maxTtl: u32)
      requires minTtl <= maxTtl
      modifies this`ttlBounds
      ensures Valid() && MinTtlBound() == minTtl && MaxTtlBound() == maxTtl
    {
      ttlBounds := PackBounds(minTtl, maxTtl);
      BoundsRoundTrip(minTtl, maxTtl);
    }

    method ClampTtl(secs: u32) returns (r: u32)
      requires Valid()
      ensures MinTtlBound() <= r <= MaxTtlBound() && r == Clamp(secs, MinTtlBound(), MaxTtlBound())
    {
      var bounds := UnpackBounds(ttlBounds);
      r := Clamp(secs, bounds.0, bounds.1);
    }

    /** The bounds in force at insertion fix the entry's life; later edits do not touch it. */
    method Insert(key: K, bytes: Bytes, offsets: seq<nat>, expiryTtlSecs: u32, now: nat)
      requires Valid()
      modifies this`entries
      ensures Valid()
      ensures entries ==
                var expiry := Clamp(expiryTtlSecs, MinTtlBound(), MaxTtlBound());
                old(entries)[key := CachedResponse(bytes, offsets, now, expiry)]
    {
      var clamped := ClampTtl(expiryTtlSecs);
      entries := entries[key := CachedResponse(bytes, offsets, now, clamped)];
    }

    /** A hit copies and patches; whether the store still holds the entry is an input. */
    method Get(key: K, clientId: u16, now: nat, held: bool) returns (r: Option<Bytes>)
      ensures r == if held && key in entries then Some(entries[key].Served(clientId, now)) else None
    {
      if !held || key !in entries {
        return None;
      }
      var entry := entries[key];
      var buf := PatchedFor(entry.bytes, entry.offsets, clientId, entry.ElapsedSecs(now));
      return Some(buf[..]);
    }
  }

  // The TTLs a client sees.

  /** Every recorded TTL is served as exactly the original less the elapsed time, and is not 0. */
  ghost predicate ServesExactTtls(b: Bytes, id: u16, elapsed: u32)
    requires Scan(b).Ok?
  {
    var offs := Scan(b).value.offsets;
    var c := Patched(b, offs, id, elapsed);
    |c| == |b| && Spaced(offs, 4, |b|) &&
    forall k :: 0 <= k < |offs| ==> U32At(c, offs[k]) == U32At(b, offs[k]) - elapsed && U32At(c, offs[k]) >= 1
  }

  /** The scan's minimum in terms of the message bytes: a lower bound that some field attains. */
  lemma MinTtlOfBytes(b: Bytes)
    requires Scan(b).Ok? && Scan(b).value.minTtl.Some?
    ensures Patchable(b, Scan(b).value.offsets)
    ensures forall k :: 0 <= k < |Scan(b).value.offsets| ==>
              Scan(b).value.minTtl.value <= U32At(b, Scan(b).value.offsets[k])
    ensures exists k :: 0 <= k < |Scan(b).value.offsets| &&
              U32At(b, Scan(b).value.offsets[k]) == Scan(b).value.minTtl.value
  {
    hide U32At, GetMessage, IsRr;
    var m, offs := GetMessage(b).value, Scan(b).value.offsets;
    ScanPatchable(b);
    ScanExact(b);
    MessageExact(b);
    MinTtlExact(m.rrs);
    forall k | 0 <= k < |offs| ensures Scan(b).value.minTtl.value <= U32At(b, offs[k]) {
      assert offs[k] in offs;
      var j: nat :| TtlOf(m.rrs, offs[k], j);
      RrLayout(b, m.rrs[j]);
    }
    var j :| 0 <= j < |m.rrs| && m.rrs[j].Real() && m.rrs[j].ttl == MinTtl(m.rrs).value;
    RrLayout(b, m.rrs[j]);
    assert TtlOf(m.rrs, m.rrs[j].TtlAt(), j);
    assert m.rrs[j].TtlAt() in offs;
  }

  lemma ServesExactly(b: Bytes, id: u16, elapsed: u32)
    requires Scan(b).Ok? && Scan(b).value.minTtl.Some?
    ensures ServesExactTtls(b, id, elapsed) <==> elapsed < Scan(b).value.minTtl.value
  {
    hide U32At, Scan, Patched;
    var offs := Scan(b).value.offsets;
    MinTtlOfBytes(b);
    PatchedEffect(b, offs, id, elapsed);
    var k :| 0 <= k < |offs| && U32At(b, offs[k]) == Scan(b).value.minTtl.value;
    assert U32At(Patched(b, offs, id, elapsed), offs[k]) == SatSub(U32At(b, offs[k]), elapsed);
  }

  /**
   * An entry stored with the scan's minimum as its expiry serves exact, non-zero TTLs for its
   * whole clamped life if and only if the floor bound is not above that minimum.
   */
  lemma FloorExact(b: Bytes, lo: u32, hi: u32, id: u16)
    requires Scan(b).Ok? && Scan(b).value.minTtl.Some? && lo <= hi
    ensures (forall elapsed: u32 :: elapsed < Clamp(Scan(b).value.minTtl.value, lo, hi) ==>
              ServesExactTtls(b, id, elapsed))
       <==> lo <= Scan(b).value.minTtl.value
  {
    hide Scan, ServesExactTtls;
    var least := Scan(b).value.minTtl.value;
    ServesExactly(b, id, least);
    forall elapsed: u32 ensures ServesExactTtls(b, id, elapsed) <==> elapsed < least {
      ServesExactly(b, id, elapsed);
    }
  }

  /** The same for the clock: what `Get` returns while the entry is live. */
  lemma LiveEntryServesExactTtls(entry: CachedResponse, lo: u32, hi: u32, id: u16, now: nat, secs: u32)
    requires Scan(entry.bytes).Ok? && Scan(entry.bytes).value.minTtl.Some? && lo <= hi
    requires entry.offsets == Scan(entry.bytes).value.offsets
    requires lo <= Scan(entry.bytes).value.minTtl.value
    requires entry.expiry == Clamp(Scan(entry.bytes).value.minTtl.value, lo, hi)
    requires entry.storedAt <= now < entry.storedAt + entry.expiry * 1_000_000_000
    requires WholeSeconds(entry.storedAt, now, secs)
    ensures entry.Served(id, now) == Patched(entry.bytes, Scan(entry.bytes).value.offsets, id, secs)
    ensures ServesExactTtls(entry.bytes, id, secs)
  {
    hide Scan, ServesExactTtls, Patched;
    ElapsedExact(entry, now, secs);
    assert secs < entry.expiry;
    ServesExactly(entry.bytes, id, secs);
  }
}
