/** `CachedResponse::patched_for`: serving a cached message by editing its bytes in place. */
module Patch {
  import opened Wire
  import opened TtlScan

  function PatchId(b: Bytes, id: u16): Bytes {
    if |b| >= 2 then Be16(id) + b[2..] else b
  }

  function PatchOne(b: Bytes, off: nat, elapsed: u32): Bytes {
    if off + 4 <= |b| then b[..off] + Be32(SatSub(U32At(b, off), elapsed)) + b[off + 4..] else b
  }

  function PatchTtls(b: Bytes, offs: seq<nat>, elapsed: u32): Bytes
    decreases |offs|
  {
    if offs == [] then b else PatchTtls(PatchOne(b, offs[0], elapsed), offs[1..], elapsed)
  }

  function Patched(b: Bytes, offs: seq<nat>, id: u16, elapsed: u32): Bytes {
    PatchTtls(PatchId(b, id), offs, elapsed)
  }

  method PutU32(buf: array<byte>, off: nat, v: u32)
    requires off + 4 <= buf.Length
    modifies buf
    ensures buf[..] == old(buf[..off]) + Be32(v) + old(buf[off + 4..])
  {
    var hi, lo := Be16(v / 0x1_0000), Be16(v % 0x1_0000);
    buf[off], buf[off + 1], buf[off + 2], buf[off + 3] := hi[0], hi[1], lo[0], lo[1];
  }

  /** The copy is edited in place, for any offsets at all; out-of-range ones are passed over. */
  method PatchedFor(bytes: Bytes, offsets: seq<nat>, clientId: u16, elapsedSecs: u32) returns (buf: array<byte>)
    ensures fresh(buf)
    ensures buf[..] == Patched(bytes, offsets, clientId, elapsedSecs)
  {
    var len := |bytes|;
    buf := new byte[len](i requires 0 <= i < |bytes| => bytes[i]);
    assert buf[..] == bytes;
    if len >= 2 {
      buf[0], buf[1] := Be16(clientId)[0], Be16(clientId)[1];
    }
    assert buf[..] == PatchId(bytes, clientId);
    for i := 0 to |offsets|
      invariant buf.Length == len
      invariant PatchTtls(buf[..], offsets[i..], elapsedSecs) == Patched(bytes, offsets, clientId, elapsedSecs)
    {
      var offset := offsets[i];
      assert offsets[i..][0] == offset && offsets[i..][1..] == offsets[i + 1..];
      if offset + 4 <= len {
        var ttl := U32At(buf[..], offset);
        PutU32(buf, offset, SatSub(ttl, elapsedSecs));
      }
    }
  }

  // What a patch changes.

  /** The reply to a miss: the client's id, and otherwise the upstream's bytes. */
  lemma PatchIdEffect(b: Bytes, id: u16)
    ensures |PatchId(b, id)| == |b|
    ensures |b| >= 2 ==> PatchId(b, id)[0] as int * 256 + PatchId(b, id)[1] == id
    ensures forall i :: 0 <= i < |b| && (2 <= i || |b| < 2) ==> PatchId(b, id)[i] == b[i]
  {
  }

  /** The offsets whose whole field lies in a message of `len` bytes. */
  function Inside(offs: seq<nat>, len: nat): seq<nat> {
    if offs == [] then []
    else if offs[0] + 4 <= len then [offs[0]] + Inside(offs[1..], len)
    else Inside(offs[1..], len)
  }

  /** Offsets that are out of range change nothing, and keep no other offset from being patched. */
  lemma {:induction false} PatchSkipsOutside(b: Bytes, offs: seq<nat>, elapsed: u32)
    ensures PatchTtls(b, offs, elapsed) == PatchTtls(b, Inside(offs, |b|), elapsed)
    ensures |PatchTtls(b, offs, elapsed)| == |b|
    decreases |offs|
  {
    hide PatchOne;
    if offs != [] {
      if offs[0] + 4 <= |b| {
        PatchOneEffect(b, offs[0], elapsed);
        PatchSkipsOutside(PatchOne(b, offs[0], elapsed), offs[1..], elapsed);
      } else {
        PatchOneOutside(b, offs[0], elapsed);
        PatchSkipsOutside(b, offs[1..], elapsed);
      }
    }
  }

  lemma PatchOneOutside(b: Bytes, off: nat, elapsed: u32)
    requires off + 4 > |b|
    ensures PatchOne(b, off, elapsed) == b
  {
  }

  ghost predicate InWindow(offs: seq<nat>, i: nat) {
    exists k :: 0 <= k < |offs| && offs[k] <= i < offs[k] + 4
  }

  lemma PatchOneEffect(b: Bytes, off: nat, elapsed: u32)
    requires off + 4 <= |b|
    ensures |PatchOne(b, off, elapsed)| == |b|
    ensures U32At(PatchOne(b, off, elapsed), off) == SatSub(U32At(b, off), elapsed)
    ensures forall i :: 0 <= i < |b| && !(off <= i < off + 4) ==> PatchOne(b, off, elapsed)[i] == b[i]
  {
    var field := Be32(SatSub(U32At(b, off), elapsed));
    var c := PatchOne(b, off, elapsed);
    assert c[off..off + 4] == field;
    AtField32(c, off, SatSub(U32At(b, off), elapsed));
  }

  /** Every listed TTL has dropped by the elapsed time, saturating at 0, and nothing else moved. */
  ghost predicate Aged(b: Bytes, c: Bytes, offs: seq<nat>, elapsed: u32)
    requires Spaced(offs, 4, |b|)
  {
    && |c| == |b|
    && (forall k :: 0 <= k < |offs| ==> U32At(c, offs[k]) == SatSub(U32At(b, offs[k]), elapsed))
    && (forall i :: 0 <= i < |b| && !InWindow(offs, i) ==> c[i] == b[i])
  }

  lemma WindowTail(offs: seq<nat>, i: nat)
    requires offs != []
    ensures InWindow(offs, i) <==> offs[0] <= i < offs[0] + 4 || InWindow(offs[1..], i)
  {
    if InWindow(offs[1..], i) {
      var k :| 0 <= k < |offs[1..]| && offs[1..][k] <= i < offs[1..][k] + 4;
      assert offs[k + 1] == offs[1..][k];
    }
    if InWindow(offs, i) && !(offs[0] <= i < offs[0] + 4) {
      var k :| 0 <= k < |offs| && offs[k] <= i < offs[k] + 4;
      assert offs[1..][k - 1] == offs[k];
    }
  }

  lemma {:induction false} PatchTtlsEffect(b: Bytes, offs: seq<nat>, elapsed: u32)
    requires Spaced(offs, 4, |b|)
    ensures Aged(b, PatchTtls(b, offs, elapsed), offs, elapsed)
    decreases |offs|
  {
    hide U32At, PatchOne;
    if offs != [] {
      var mid, rest := PatchOne(b, offs[0], elapsed), offs[1..];
      PatchOneEffect(b, offs[0], elapsed);
      PatchTtlsEffect(mid, rest, elapsed);
      var c := PatchTtls(b, offs, elapsed);
      forall k | 0 <= k < |offs|
        ensures U32At(c, offs[k]) == SatSub(U32At(b, offs[k]), elapsed)
      {
        if k == 0 {
          assert forall i :: offs[0] <= i < offs[0] + 4 ==> !InWindow(rest, i);
          U32FromBytes(mid, c, offs[0]);
        } else {
          assert rest[k - 1] == offs[k];
          U32FromBytes(b, mid, offs[k]);
        }
      }
      forall i | 0 <= i < |b| && !InWindow(offs, i) ensures c[i] == b[i] {
        WindowTail(offs, i);
      }
    }
  }

  /** Windows that the scan can produce: apart from each other and from the transaction id. */
  ghost predicate Patchable(b: Bytes, offs: seq<nat>) {
    |b| >= 2 && Spaced(offs, 4, |b|) && forall k :: 0 <= k < |offs| ==> 2 <= offs[k]
  }

  /** The whole patch: bytes 0-1 carry the client's id, the windows the aged TTLs, the rest is copied. */
  lemma PatchedEffect(b: Bytes, offs: seq<nat>, id: u16, elapsed: u32)
    requires Patchable(b, offs)
    ensures var c := Patched(b, offs, id, elapsed);
            && |c| == |b|
            && U16At(c, 0) == id
            && (forall k :: 0 <= k < |offs| ==> U32At(c, offs[k]) == SatSub(U32At(b, offs[k]), elapsed))
            && (forall i :: 2 <= i < |b| && !InWindow(offs, i) ==> c[i] == b[i])
  {
    hide U32At, PatchTtls;
    var mid := PatchId(b, id);
    assert |mid| == |b| && U16At(mid, 0) == id;
    PatchTtlsEffect(mid, offs, elapsed);
    assert !InWindow(offs, 0) && !InWindow(offs, 1);
    forall k | 0 <= k < |offs| ensures U32At(mid, offs[k]) == U32At(b, offs[k]) {
      U32FromBytes(b, mid, offs[k]);
    }
  }

  /** Aging twice is aging once by the sum; only the last client id remains. */
  lemma PatchComposes(b: Bytes, offs: seq<nat>, id1: u16, id2: u16, e1: u32, e2: u32)
    requires Patchable(b, offs)
    requires e1 + e2 < 0x1_0000_0000
    ensures Patched(Patched(b, offs, id1, e1), offs, id2, e2) == Patched(b, offs, id2, e1 + e2)
  {
    hide U32At, Patched;
    var mid := Patched(b, offs, id1, e1);
    PatchedEffect(b, offs, id1, e1);
    var twice, once := Patched(mid, offs, id2, e2), Patched(b, offs, id2, e1 + e2);
    PatchedEffect(mid, offs, id2, e2);
    PatchedEffect(b, offs, id2, e1 + e2);
    forall i | 0 <= i < |b| ensures twice[i] == once[i] {
      if i < 2 {
        assert U16At(twice, 0) == U16At(once, 0);
      } else if InWindow(offs, i) {
        var k :| 0 <= k < |offs| && offs[k] <= i < offs[k] + 4;
        U32Injective(twice, once, offs[k]);
      }
    }
  }
}
