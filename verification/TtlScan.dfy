/** `TtlScan::scan`: the minimum TTL and the TTL offsets of every record that is not an OPT. */
module TtlScan {
  import opened Wire
  import opened Cursor
  import opened Headers
  import opened Records

  datatype Scanned = Scanned(minTtl: Option<u32>, offsets: seq<nat>)

  function Offsets(rrs: seq<Rr>): seq<nat> {
    if rrs == [] then [] else
    var init, last := rrs[..|rrs| - 1], rrs[|rrs| - 1];
    if last.Real() then Offsets(init) + [last.TtlAt()] else Offsets(init)
  }

  function MinTtl(rrs: seq<Rr>): Option<u32> {
    if rrs == [] then None else
    var init, last := rrs[..|rrs| - 1], rrs[|rrs| - 1];
    if !last.Real() then MinTtl(init)
    else match MinTtl(init)
         case None => Some(last.ttl)
         case Some(least) => Some(Min(least, last.ttl))
  }

  function Scan(b: Bytes): Result<Scanned> {
    var m :- GetMessage(b);
    Ok(Scanned(MinTtl(m.rrs), Offsets(m.rrs)))
  }

  lemma ScanSnoc(rrs: seq<Rr>, rr: Rr)
    ensures Offsets(rrs + [rr]) == if rr.Real() then Offsets(rrs) + [rr.TtlAt()] else Offsets(rrs)
    ensures MinTtl(rrs + [rr]) ==
            if !rr.Real() then MinTtl(rrs)
            else Some(if MinTtl(rrs).None? then rr.ttl else Min(MinTtl(rrs).value, rr.ttl))
  {
    assert (rrs + [rr])[..|rrs|] == rrs;
  }

  lemma NoRecords(b: Bytes, p: nat)
    ensures GetRrs(b, p, 0) == Ok([]) && Offsets([]) == [] && MinTtl([]) == None
  {
  }

  /** The record loop of the scan. */
  method ScanRecords(reader: Reader, n: nat) returns (r: Result<Scanned>)
    modifies reader
    ensures var rrs := GetRrs(reader.buf, old(reader.pos), n);
            if rrs.Ok? then r == Ok(Scanned(MinTtl(rrs.value), Offsets(rrs.value))) else r == Err(rrs.error)
  {
    hide GetRr, GetRrs, Offsets, MinTtl;
    ghost var whole := GetRrs(reader.buf, reader.pos, n);
    ghost var done: seq<Rr> := [];
    NoRecords(reader.buf, reader.pos);
    var minTtl: Option<u32> := None;
    var offsets: seq<nat> := [];
    for i := 0 to n
      invariant minTtl == MinTtl(done) && offsets == Offsets(done)
      invariant var rest := GetRrs(reader.buf, reader.pos, n - i);
                && (whole.Ok? <==> rest.Ok?)
                && (whole.Err? ==> whole.error == rest.error)
                && (whole.Ok? ==> whole.value == done + rest.value)
    {
      ghost var rr := GetRr(reader.buf, reader.pos);
      RrsUnfold(reader.buf, reader.pos, n - i);
      var f := ReadRr(reader);
      if f.Err? {
        return Err(f.error);
      }
      ScanSnoc(done, rr.value);
      done := done + [rr.value];
      if f.value.rtype != OPT_TYPE {
        offsets := offsets + [f.value.ttlOffset];
        minTtl := Some(if minTtl.None? then f.value.ttl else Min(minTtl.value, f.value.ttl));
      }
    }
    NoRecords(reader.buf, reader.pos);
    assert done + [] == done;
    return Ok(Scanned(minTtl, offsets));
  }

  method ScanTtls(message: Bytes) returns (r: Result<Scanned>)
    ensures r == Scan(message)
  {
    hide GetRrs, GetQuestions, Offsets, MinTtl, U16At;
    var reader := new Reader(message);
    var header :- ReadHeader(reader);
    var q := SkipQuestions(reader, header.qdcount);
    if q.Err? {
      return Err(q.error);
    }
    r := ScanRecords(reader, header.ancount + header.nscount + header.arcount);
  }

  // The scan against the record list.

  ghost predicate TtlOf(rrs: seq<Rr>, x: nat, k: nat) {
    k < |rrs| && rrs[k].Real() && rrs[k].TtlAt() == x
  }

  /** A listed offset is the TTL field of some real record, and every real record is listed. */
  lemma {:induction false} OffsetsExact(rrs: seq<Rr>)
    ensures forall x :: x in Offsets(rrs) <==> exists k :: TtlOf(rrs, x, k)
  {
    if rrs != [] {
      var init, last := rrs[..|rrs| - 1], rrs[|rrs| - 1];
      OffsetsExact(init);
      forall x
        ensures x in Offsets(rrs) <==> exists k :: TtlOf(rrs, x, k)
      {
        if exists k :: TtlOf(init, x, k) {
          var k :| TtlOf(init, x, k);
          assert TtlOf(rrs, x, k);
        }
        if last.Real() && last.TtlAt() == x {
          assert TtlOf(rrs, x, |rrs| - 1);
        }
        if exists k :: TtlOf(rrs, x, k) {
          var k: nat :| TtlOf(rrs, x, k);
          assert k < |init| ==> TtlOf(init, x, k);
        }
      }
    }
  }

  /** Offsets are at least `gap` apart, in order, and leave room for TTL and RDLENGTH. */
  ghost predicate Spaced(offs: seq<nat>, gap: nat, len: nat) {
    && (forall k :: 0 <= k < |offs| ==> offs[k] + 6 <= len)
    && (forall j, k :: 0 <= j < k < |offs| ==> offs[j] + gap <= offs[k])
  }

  lemma TilesInit(b: Bytes, p: nat, rrs: seq<Rr>)
    requires |rrs| > 0 && Tiles(b, p, rrs)
    ensures Tiles(b, p, rrs[..|rrs| - 1])
  {
    hide IsRr;
  }

  lemma {:induction false} OffsetsSpaced(b: Bytes, p: nat, rrs: seq<Rr>)
    requires Tiles(b, p, rrs)
    ensures Spaced(Offsets(rrs), 11, |b|)
    ensures forall k :: 0 <= k < |Offsets(rrs)| ==>
              p + 5 <= Offsets(rrs)[k] && Offsets(rrs)[k] + 6 <= rrs[|rrs| - 1].End()
  {
    hide IsRr, Tiles, Offsets, MinTtl, Spaced;
    if rrs == [] {
      NoRecords(b, p);
      NothingSpaced(|b|);
    } else {
      var init, last := rrs[..|rrs| - 1], rrs[|rrs| - 1];
      var offs := Offsets(init);
      TilesInit(b, p, rrs);
      TilesEach(b, p, rrs);
      OffsetsSpaced(b, p, init);
      RrLayout(b, last);
      TilesFrom(b, p, rrs, |rrs| - 1);
      assert forall k :: 0 <= k < |offs| ==> offs[k] + 6 <= last.owner by {
        if |init| > 0 {
          TilesOrdered(b, p, rrs, |rrs| - 2, |rrs| - 1);
          assert init[|init| - 1] == rrs[|rrs| - 2];
        } else {
          NoRecords(b, p);
        }
      }
      ScanSnoc(init, last);
      assert rrs == init + [last];
      SpacedSnoc(offs, last.TtlAt(), 11, |b|);
    }
  }

  lemma NothingSpaced(len: nat)
    ensures Spaced([], 11, len)
  {
  }

  lemma SpacedSnoc(offs: seq<nat>, x: nat, gap: nat, len: nat)
    requires Spaced(offs, gap, len) && x + 6 <= len
    requires forall k :: 0 <= k < |offs| ==> offs[k] + gap <= x
    ensures Spaced(offs + [x], gap, len)
  {
  }

  /** The minimum is attained by a real record and bounds all of them; it is absent only without any. */
  lemma {:induction false} MinTtlExact(rrs: seq<Rr>)
    ensures MinTtl(rrs).None? <==> forall k :: 0 <= k < |rrs| ==> !rrs[k].Real()
    ensures MinTtl(rrs).Some? ==> exists k :: 0 <= k < |rrs| && rrs[k].Real() && rrs[k].ttl == MinTtl(rrs).value
    ensures MinTtl(rrs).Some? ==> forall k :: 0 <= k < |rrs| && rrs[k].Real() ==> MinTtl(rrs).value <= rrs[k].ttl
  {
    if rrs != [] {
      var init, last := rrs[..|rrs| - 1], rrs[|rrs| - 1];
      MinTtlExact(init);
      forall k | 0 <= k < |init| ensures init[k] == rrs[k] {
      }
      if MinTtl(init).Some? {
        var k :| 0 <= k < |init| && init[k].Real() && init[k].ttl == MinTtl(init).value;
        assert rrs[k].ttl == MinTtl(init).value;
      }
    }
  }

  /**
   * The whole scan: its offsets are the TTL fields of the real records in order, none before
   * offset 17 and any two at least 11 bytes apart, so no patch window overlaps another or the id,
   * and the bounds guard of the patch loop holds for every one of them.
   */
  lemma ScanExact(b: Bytes)
    requires Scan(b).Ok?
    ensures GetMessage(b).Ok?
    ensures var rrs, offs := GetMessage(b).value.rrs, Scan(b).value.offsets;
            && Spaced(offs, 11, |b|)
            && (forall k :: 0 <= k < |offs| ==> 17 <= offs[k])
            && (forall x :: x in offs <==> exists k :: TtlOf(rrs, x, k))
  {
    MessageExact(b);
    var m := GetMessage(b).value;
    OffsetsSpaced(b, m.questionEnd, m.rrs);
    OffsetsExact(m.rrs);
  }
}
