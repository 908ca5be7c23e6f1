/** Patching and scanning: what a later walk sees of a message served from the cache. */
module Rescan {
  import opened Wire
  import opened Headers
  import opened NameSkip
  import opened Records
  import opened TtlScan
  import opened Patch

  // A message that differs from a parsed one in TTL fields and in the id only.

  ghost predicate SameButTtl(b: Bytes, c: Bytes, rr: Rr) {
    Agree(b, c, rr.owner, rr.TtlAt()) && Agree(b, c, rr.TtlAt() + 4, rr.TtlAt() + 6)
  }

  function Reread(c: Bytes, rr: Rr): Rr
    requires Skip(c, rr.owner).Ok? && rr.TtlAt() + 4 <= |c|
  {
    rr.(name := Skip(c, rr.owner).value, ttl := U32At(c, rr.TtlAt()))
  }

  /** One record: only its owner name can stop the re-read, and nothing but the TTL changes. */
  lemma RrReread(b: Bytes, c: Bytes, rr: Rr)
    requires |b| == |c| && IsRr(b, rr) && SameButTtl(b, c, rr)
    ensures GetRr(c, rr.owner).Ok? <==> Skip(c, rr.owner).Ok?
    ensures Skip(c, rr.owner).Ok? ==> rr.TtlAt() + 4 <= |c| && GetRr(c, rr.owner) == Ok(Reread(c, rr))
    ensures Skip(c, rr.owner).Ok? ==> Skip(c, rr.owner).value.End() == rr.name.End()
  {
    hide IsRr, Skip;
    RrLayout(b, rr);
    if Skip(c, rr.owner).Ok? {
      SkipEndStable(b, c, rr.owner);
    }
  }

  ghost predicate RereadAs(c: Bytes, rr: Rr, got: Rr) {
    && Skip(c, rr.owner).Ok? && rr.TtlAt() + 4 <= |c|
    && got == Reread(c, rr) && got.TtlAt() == rr.TtlAt() && got.End() == rr.End()
  }

  lemma {:induction false} RrsReread(b: Bytes, c: Bytes, p: nat, rrs: seq<Rr>)
    requires |b| == |c| && Tiles(b, p, rrs)
    requires forall k :: 0 <= k < |rrs| ==> SameButTtl(b, c, rrs[k])
    ensures GetRrs(c, p, |rrs|).Ok? <==> forall k :: 0 <= k < |rrs| ==> Skip(c, rrs[k].owner).Ok?
    ensures GetRrs(c, p, |rrs|).Ok? ==>
              var got := GetRrs(c, p, |rrs|).value;
              |got| == |rrs| && forall k :: 0 <= k < |rrs| ==> RereadAs(c, rrs[k], got[k])
    decreases |rrs|
  {
    hide GetRr, GetRrs, SameButTtl, Skip, IsRr, Tiles, RereadAs;
    if rrs == [] {
      NoRecords(c, p);
    } else {
      TilesTail(b, p, rrs);
      var rr, rest := rrs[0], rrs[1..];
      assert rrs == [rr] + rest;
      RrsUnfold(c, p, |rrs|);
      RrReread(b, c, rr);
      if Skip(c, p).Ok? {
        var first := GetRr(c, p).value;
        assert RereadAs(c, rr, first) && first.End() == rr.End() by {
          RereadHead(b, c, rr);
        }
        RrsReread(b, c, rr.End(), rest);
        assert forall k :: 0 < k < |rrs| ==> rrs[k] == rest[k - 1];
        assert forall k :: 0 <= k < |rest| ==> rest[k] == rrs[k + 1];
      }
    }
  }

  lemma RereadHead(b: Bytes, c: Bytes, rr: Rr)
    requires |b| == |c| && IsRr(b, rr) && SameButTtl(b, c, rr) && Skip(c, rr.owner).Ok?
    ensures GetRr(c, rr.owner).Ok? && RereadAs(c, rr, GetRr(c, rr.owner).value)
    ensures GetRr(c, rr.owner).value.End() == rr.End()
  {
    RrReread(b, c, rr);
  }

  /** The offsets where the questions from `p` start. */
  function QuestionStarts(b: Bytes, p: nat, n: nat): seq<nat>
    decreases n
  {
    if n == 0 then [] else
    [p] + if GetQuestion(b, p).Ok? then QuestionStarts(b, GetQuestion(b, p).value, n - 1) else []
  }

  lemma QuestionReread(b: Bytes, c: Bytes, p: nat)
    requires |b| == |c| && GetQuestion(b, p).Ok? && Agree(b, c, p, GetQuestion(b, p).value)
    ensures GetQuestion(c, p).Ok? <==> Skip(c, p).Ok?
    ensures Skip(c, p).Ok? ==> GetQuestion(c, p) == GetQuestion(b, p)
    ensures p < GetQuestion(b, p).value <= |b|
  {
    SkipEnd(b, p);
    if Skip(c, p).Ok? {
      SkipEndStable(b, c, p);
    }
  }

  lemma {:induction false} QuestionsReread(b: Bytes, c: Bytes, p: nat, n: nat)
    requires |b| == |c| && p <= |b| && GetQuestions(b, p, n).Ok? && Agree(b, c, p, GetQuestions(b, p, n).value)
    ensures GetQuestions(c, p, n).Ok? <==> forall s :: s in QuestionStarts(b, p, n) ==> Skip(c, s).Ok?
    ensures GetQuestions(c, p, n).Ok? ==> GetQuestions(c, p, n) == GetQuestions(b, p, n)
    ensures forall s :: s in QuestionStarts(b, p, n) ==> Skip(b, s).Ok?
    decreases n
  {
    hide GetQuestion, Skip;
    if n > 0 {
      var next := GetQuestion(b, p).value;
      FirstQuestionAdvances(b, p, n);
      QuestionReread(b, c, p);
      QuestionsReread(b, c, next, n - 1);
      assert p in QuestionStarts(b, p, n);
      assert forall s :: s in QuestionStarts(b, p, n) <==> s == p || s in QuestionStarts(b, next, n - 1);
    }
  }

  lemma FirstQuestionAdvances(b: Bytes, p: nat, n: nat)
    requires n > 0 && p <= |b| && GetQuestions(b, p, n).Ok?
    ensures GetQuestion(b, p).Ok? && Skip(b, p).Ok?
    ensures p < GetQuestion(b, p).value <= GetQuestions(b, p, n).value
  {
    SkipEnd(b, p);
    QuestionsAdvance(b, GetQuestion(b, p).value, n - 1);
  }

  // The scan of the patched message.

  ghost predicate SameFields(x: Rr, y: Rr) {
    x.rtype == y.rtype && x.TtlAt() == y.TtlAt()
  }

  lemma {:induction false} OffsetsCongruent(rrs: seq<Rr>, got: seq<Rr>)
    requires |got| == |rrs| && forall k :: 0 <= k < |rrs| ==> SameFields(rrs[k], got[k])
    ensures Offsets(got) == Offsets(rrs)
  {
    if rrs != [] {
      OffsetsCongruent(rrs[..|rrs| - 1], got[..|got| - 1]);
      assert SameFields(rrs[|rrs| - 1], got[|got| - 1]);
    }
  }

  function AgeOption(t: Option<u32>, elapsed: u32): Option<u32> {
    match t
    case None => None
    case Some(v) => Some(SatSub(v, elapsed))
  }

  lemma {:induction false} MinTtlAges(rrs: seq<Rr>, got: seq<Rr>, elapsed: u32)
    requires |got| == |rrs|
    requires forall k :: 0 <= k < |rrs| ==>
               got[k].rtype == rrs[k].rtype && (rrs[k].Real() ==> got[k].ttl == SatSub(rrs[k].ttl, elapsed))
    ensures MinTtl(got) == AgeOption(MinTtl(rrs), elapsed)
  {
    if rrs != [] {
      MinTtlAges(rrs[..|rrs| - 1], got[..|got| - 1], elapsed);
    }
  }

  /** The offsets of every name the scan skips: question names and record owners. */
  ghost predicate NameStart(b: Bytes, s: nat)
    requires GetMessage(b).Ok?
  {
    var m := GetMessage(b).value;
    s in QuestionStarts(b, HEADER_LEN, m.header.qdcount) || exists k :: 0 <= k < |m.rrs| && m.rrs[k].owner == s
  }

  lemma ScanPatchable(b: Bytes)
    requires Scan(b).Ok?
    ensures Patchable(b, Scan(b).value.offsets)
  {
    ScanExact(b);
    MessageExact(b);
  }

  lemma WindowRecord(b: Bytes, i: nat) returns (j: nat)
    requires Scan(b).Ok? && InWindow(Scan(b).value.offsets, i)
    ensures GetMessage(b).Ok?
    ensures j < |GetMessage(b).value.rrs|
    ensures var rr := GetMessage(b).value.rrs[j]; rr.TtlAt() <= i < rr.TtlAt() + 4
  {
    ScanExact(b);
    var offs := Scan(b).value.offsets;
    var k :| 0 <= k < |offs| && offs[k] <= i < offs[k] + 4;
    assert offs[k] in offs;
    j :| TtlOf(GetMessage(b).value.rrs, offs[k], j);
  }

  lemma WindowsAfterQuestions(b: Bytes, i: nat)
    requires Scan(b).Ok? && GetMessage(b).Ok? && i < GetMessage(b).value.questionEnd
    ensures !InWindow(Scan(b).value.offsets, i)
  {
    hide GetMessage, Skip, IsRr, InWindow, Scan;
    var m := GetMessage(b).value;
    if InWindow(Scan(b).value.offsets, i) {
      var j := WindowRecord(b, i);
      MessageExact(b);
      TilesFrom(b, m.questionEnd, m.rrs, j);
      RrLayout(b, m.rrs[j]);
    }
  }

  lemma WindowsInTtls(b: Bytes, k: nat, i: nat)
    requires Scan(b).Ok? && GetMessage(b).Ok? && k < |GetMessage(b).value.rrs|
    requires var rr := GetMessage(b).value.rrs[k]; rr.owner <= i < rr.TtlAt() || rr.TtlAt() + 4 <= i < rr.TtlAt() + 6
    ensures !InWindow(Scan(b).value.offsets, i)
  {
    hide GetMessage, Skip, IsRr, InWindow, Scan;
    var m := GetMessage(b).value;
    if InWindow(Scan(b).value.offsets, i) {
      var j := WindowRecord(b, i);
      MessageExact(b);
      RrLayout(b, m.rrs[j]);
      RrLayout(b, m.rrs[k]);
      if j < k {
        TilesOrdered(b, m.questionEnd, m.rrs, j, k);
      } else if k < j {
        TilesOrdered(b, m.questionEnd, m.rrs, k, j);
      }
    }
  }

  /** No patched byte belongs to a header count, a question, or a record field other than a TTL. */
  lemma PatchSparesStructure(b: Bytes, id: u16, elapsed: u32)
    requires Scan(b).Ok?
    ensures var m, c := GetMessage(b).value, Patched(b, Scan(b).value.offsets, id, elapsed);
            && |c| == |b|
            && Agree(b, c, 2, m.questionEnd)
            && (forall k :: 0 <= k < |m.rrs| ==> SameButTtl(b, c, m.rrs[k]))
            && (forall k :: 0 <= k < |m.rrs| && m.rrs[k].Real() ==>
                  m.rrs[k].TtlAt() + 4 <= |c| && U32At(c, m.rrs[k].TtlAt()) == SatSub(m.rrs[k].ttl, elapsed))
  {
    hide U32At, Patched, GetMessage, Skip, IsRr, Tiles, InWindow;
    var m, offs := GetMessage(b).value, Scan(b).value.offsets;
    var c := Patched(b, offs, id, elapsed);
    MessageExact(b);
    ScanExact(b);
    PatchedEffect(b, offs, id, elapsed);
    forall i | 2 <= i < m.questionEnd ensures b[i] == c[i] {
      WindowsAfterQuestions(b, i);
    }
    forall k | 0 <= k < |m.rrs| ensures SameButTtl(b, c, m.rrs[k]) {
      var rr := m.rrs[k];
      RrLayout(b, rr);
      TilesFrom(b, m.questionEnd, m.rrs, k);
      forall i | rr.owner <= i < rr.TtlAt() || rr.TtlAt() + 4 <= i < rr.TtlAt() + 6 ensures b[i] == c[i] {
        WindowsInTtls(b, k, i);
      }
    }
    forall k | 0 <= k < |m.rrs| && m.rrs[k].Real()
      ensures m.rrs[k].TtlAt() + 4 <= |c| && U32At(c, m.rrs[k].TtlAt()) == SatSub(m.rrs[k].ttl, elapsed)
    {
      RrLayout(b, m.rrs[k]);
      assert TtlOf(m.rrs, m.rrs[k].TtlAt(), k);
      assert m.rrs[k].TtlAt() in offs;
    }
  }

  /** The walk of a message with the header counts of `b`, in two parts. */
  lemma MessageInParts(b: Bytes, c: Bytes)
    requires GetMessage(b).Ok? && |c| == |b| && Agree(b, c, 2, HEADER_LEN)
    ensures var m := GetMessage(b).value; var q := GetQuestions(c, HEADER_LEN, m.header.qdcount);
            && (GetMessage(c).Ok? <==> q.Ok? && GetRrs(c, q.value, |m.rrs|).Ok?)
            && (GetMessage(c).Ok? ==> GetMessage(c).value.rrs == GetRrs(c, q.value, |m.rrs|).value)
  {
    hide GetQuestions, GetRrs;
    MessageExact(b);
    HeaderReread(b, c);
  }

  lemma StartsOfRecords(b: Bytes)
    requires GetMessage(b).Ok?
    ensures var m := GetMessage(b).value;
            forall s: nat :: NameStart(b, s) <==>
              s in QuestionStarts(b, HEADER_LEN, m.header.qdcount) ||
              exists k :: 0 <= k < |m.rrs| && m.rrs[k].owner == s
  {
  }

  /** The patched message parses exactly when every name of it can be skipped. */
  lemma ReparseExact(b: Bytes, c: Bytes)
    requires GetMessage(b).Ok? && |c| == |b| && Agree(b, c, 2, GetMessage(b).value.questionEnd)
    requires forall k :: 0 <= k < |GetMessage(b).value.rrs| ==> SameButTtl(b, c, GetMessage(b).value.rrs[k])
    ensures GetMessage(c).Ok? <==> forall s: nat :: NameStart(b, s) ==> Skip(c, s).Ok?
    ensures GetMessage(c).Ok? ==>
              var rrs, got := GetMessage(b).value.rrs, GetMessage(c).value.rrs;
              |got| == |rrs| && forall k :: 0 <= k < |rrs| ==> RereadAs(c, rrs[k], got[k])
  {
    hide GetMessage, Skip, SameButTtl, GetQuestions, GetRrs, RereadAs, NameStart, QuestionStarts;
    var m := GetMessage(b).value;
    MessageExact(b);
    MessageInParts(b, c);
    QuestionsReread(b, c, HEADER_LEN, m.header.qdcount);
    RrsReread(b, c, m.questionEnd, m.rrs);
    StartsOfRecords(b);
    if forall s: nat :: NameStart(b, s) ==> Skip(c, s).Ok? {
      assert forall k :: 0 <= k < |m.rrs| ==> NameStart(b, m.rrs[k].owner);
    }
  }

  /**
   * Re-scanning a patched message: it succeeds exactly when every name skip succeeds on the
   * patched bytes, and then, with no side condition, its offsets are the recorded ones and its
   * minimum is the old minimum less the elapsed time.
   */
  lemma RescanExact(b: Bytes, id: u16, elapsed: u32)
    requires Scan(b).Ok?
    ensures GetMessage(b).Ok?
    ensures var c := Patched(b, Scan(b).value.offsets, id, elapsed);
            && (Scan(c).Ok? <==> forall s: nat :: NameStart(b, s) ==> Skip(c, s).Ok?)
            && (Scan(c).Ok? ==>
                 Scan(c).value == Scanned(AgeOption(Scan(b).value.minTtl, elapsed), Scan(b).value.offsets))
  {
    hide U32At, Patched, Skip, SameButTtl, GetMessage, NameStart, Offsets, MinTtl;
    var m, c := GetMessage(b).value, Patched(b, Scan(b).value.offsets, id, elapsed);
    PatchSparesStructure(b, id, elapsed);
    ReparseExact(b, c);
    if GetMessage(c).Ok? {
      var got := GetMessage(c).value.rrs;
      assert forall k :: 0 <= k < |m.rrs| ==> RereadAs(c, m.rrs[k], got[k]);
      OffsetsCongruent(m.rrs, got);
      MinTtlAges(m.rrs, got, elapsed);
    }
  }

  lemma HeaderReread(b: Bytes, c: Bytes)
    requires |b| == |c| && HEADER_LEN <= |b| && Agree(b, c, 2, HEADER_LEN)
    ensures HeaderAt(c, 0) == HeaderAt(b, 0).(id := U16At(c, 0))
  {
  }

  ghost predicate WalkAvoids(b: Bytes, s: nat, offs: seq<nat>) {
    Skip(b, s).Ok? ==> forall i: nat :: i in Skip(b, s).value.Reads() ==> 2 <= i && !InWindow(offs, i)
  }

  /** No name walk of the message looks at the id or at a recorded TTL field. */
  ghost predicate WalksAvoidPatch(b: Bytes)
    requires Scan(b).Ok?
  {
    forall s: nat :: NameStart(b, s) ==> WalkAvoids(b, s, Scan(b).value.offsets)
  }

  /** Patching commutes with scanning whenever no name walk reads a patched byte. */
  lemma PatchCommutesWithScan(b: Bytes, id: u16, elapsed: u32)
    requires Scan(b).Ok? && WalksAvoidPatch(b)
    ensures Scan(Patched(b, Scan(b).value.offsets, id, elapsed))
         == Ok(Scanned(AgeOption(Scan(b).value.minTtl, elapsed), Scan(b).value.offsets))
  {
    hide U32At, Patched, Skip, IsRr, GetRr, GetQuestion;
    var offs := Scan(b).value.offsets;
    var c := Patched(b, offs, id, elapsed);
    RescanExact(b, id, elapsed);
    ScanPatchable(b);
    PatchedEffect(b, offs, id, elapsed);
    forall s | NameStart(b, s) ensures Skip(c, s).Ok? {
      NameStartSkips(b, s);
      assert WalkAvoids(b, s, offs);
      SkipUnchanged(b, c, s);
    }
  }

  lemma NameStartSkips(b: Bytes, s: nat)
    requires GetMessage(b).Ok? && NameStart(b, s)
    ensures Skip(b, s).Ok?
  {
    var m := GetMessage(b).value;
    MessageExact(b);
    QuestionsReread(b, b, HEADER_LEN, m.header.qdcount);
    if k :| 0 <= k < |m.rrs| && m.rrs[k].owner == s {
      RrLayout(b, m.rrs[k]);
    }
  }

  // The side condition for the id is exact.

  ghost predicate ReadsByte(b: Bytes, s: nat, x: nat) {
    Skip(b, s).Ok? && x in Skip(b, s).value.Reads()
  }

  /** The walk has a length byte at `x`, and up to there reads only bytes on which `b` and `c` agree. */
  ghost predicate ReachesClean(b: Bytes, c: Bytes, w: Walk, x: nat)
    requires |b| == |c|
    decreases w
  {
    || w.at == x
    || (Agree(b, c, w.at, w.at + if w.Jump? then 2 else 1) && !w.Root? && ReachesClean(b, c, w.next, x))
  }

  /** A length byte with reserved bits in a place the walk reaches makes the name unreadable. */
  lemma {:induction false} PoisonedWalk(b: Bytes, c: Bytes, p: nat, w: Walk, v: Walk, x: nat)
    requires |b| == |c| && IsWalk(b, p, w) && ReachesClean(b, c, w, x)
    requires x < |c| && IsReserved(c[x])
    ensures !IsWalk(c, p, v)
    decreases w
  {
    if p != x && IsWalk(c, p, v) {
      match w
      case Label(_, len, next) => PoisonedWalk(b, c, p + 1 + len, next, v.next, x);
      case Jump(_, target, next) => PoisonedWalk(b, c, target, next, v.next, x);
    }
  }

  lemma PoisonedSkip(b: Bytes, c: Bytes, s: nat, x: nat)
    requires |b| == |c| && Skip(b, s).Ok? && ReachesClean(b, c, Skip(b, s).value, x)
    requires x < |c| && IsReserved(c[x])
    ensures Skip(c, s).Err?
  {
    hide Skip, IsReserved;
    SkipExact(b, s, Skip(b, s).value);
    if Skip(c, s).Ok? {
      SkipExact(c, s, Skip(c, s).value);
      PoisonedWalk(b, c, s, Skip(b, s).value, Skip(c, s).value, x);
    }
  }

  /** Byte 0, or byte 1 of a walk that does not read byte 0, is always read as a length byte. */
  lemma {:induction false} IdIsReached(b: Bytes, c: Bytes, p: nat, w: Walk, x: nat)
    requires |b| == |c| && IsWalk(b, p, w) && x in w.Reads()
    requires x == 0 || (x == 1 && 0 !in w.Reads())
    requires forall i :: i in w.Reads() && i != x && i < |b| ==> b[i] == c[i]
    ensures ReachesClean(b, c, w, x)
    decreases w
  {
    if p != x {
      match w
      case Label(_, len, next) => IdIsReached(b, c, p + 1 + len, next, x);
      case Jump(_, target, next) =>
        assert p in w.Reads() && p + 1 in w.Reads();
        IdIsReached(b, c, target, next, x);
    }
  }

  /** No name walk of the message looks at a recorded TTL field. */
  ghost predicate WalksAvoidTtls(b: Bytes)
    requires Scan(b).Ok?
  {
    forall s: nat, i: nat :: NameStart(b, s) && ReadsByte(b, s, i) ==> !InWindow(Scan(b).value.offsets, i)
  }

  /** What a name walk sees of the patched message, when it avoids the TTL fields or none has aged. */
  lemma PatchSeenByWalk(b: Bytes, s: nat, id: u16, elapsed: u32)
    requires Scan(b).Ok? && NameStart(b, s) && (elapsed == 0 || WalksAvoidTtls(b))
    ensures Skip(b, s).Ok?
    ensures var c := Patched(b, Scan(b).value.offsets, id, elapsed);
            && |c| == |b| && U16At(c, 0) == id
            && forall i :: i in Skip(b, s).value.Reads() && 2 <= i < |b| ==> b[i] == c[i]
  {
    hide Patched, Skip, NameStart, U16At;
    var offs := Scan(b).value.offsets;
    ScanPatchable(b);
    NameStartSkips(b, s);
    PatchedEffect(b, offs, id, elapsed);
    if elapsed == 0 {
      PatchByZero(b, offs, id);
    } else {
      assert forall i: nat :: ReadsByte(b, s, i) ==> !InWindow(offs, i);
    }
  }

  lemma PatchByZero(b: Bytes, offs: seq<nat>, id: u16)
    requires Patchable(b, offs)
    ensures Patched(b, offs, id, 0) == PatchId(b, id)
  {
    hide U32At, Patched;
    var c := Patched(b, offs, id, 0);
    PatchedEffect(b, offs, id, 0);
    forall i | 0 <= i < |b| ensures c[i] == PatchId(b, id)[i] {
      if i < 2 {
        assert U16At(c, 0) == U16At(PatchId(b, id), 0);
      } else if InWindow(offs, i) {
        var k :| 0 <= k < |offs| && offs[k] <= i < offs[k] + 4;
        U32Injective(b, c, offs[k]);
      }
    }
  }

  /**
   * When no walk reads a TTL field, or none has aged yet, a served entry re-scans under every
   * client id if and only if no name walk reads bytes 0-1. This can be checked at the store.
   */
  lemma RescanUnderEveryId(b: Bytes, elapsed: u32)
    requires Scan(b).Ok? && (elapsed == 0 || WalksAvoidTtls(b))
    ensures GetMessage(b).Ok?
    ensures (forall id: u16 :: Scan(Patched(b, Scan(b).value.offsets, id, elapsed)).Ok?)
       <==> (forall s: nat :: NameStart(b, s) ==> !ReadsByte(b, s, 0) && !ReadsByte(b, s, 1))
  {
    hide Patched, Skip, Scan, NameStart, WalksAvoidTtls;
    MessageOk(b);
    if forall s: nat :: NameStart(b, s) ==> !ReadsByte(b, s, 0) && !ReadsByte(b, s, 1) {
      forall id: u16 ensures Scan(Patched(b, Scan(b).value.offsets, id, elapsed)).Ok? {
        RescanWithId(b, id, elapsed);
      }
    } else {
      var s: nat :| NameStart(b, s) && (ReadsByte(b, s, 0) || ReadsByte(b, s, 1));
      var id := PoisonId(b, s, elapsed);
    }
  }

  lemma MessageOk(b: Bytes)
    ensures Scan(b).Ok? ==> GetMessage(b).Ok?
  {
  }

  lemma RescanWithId(b: Bytes, id: u16, elapsed: u32)
    requires Scan(b).Ok? && (elapsed == 0 || WalksAvoidTtls(b))
    requires forall s: nat :: NameStart(b, s) ==> !ReadsByte(b, s, 0) && !ReadsByte(b, s, 1)
    ensures Scan(Patched(b, Scan(b).value.offsets, id, elapsed)).Ok?
  {
    hide Patched, Skip, NameStart, WalksAvoidTtls;
    var c := Patched(b, Scan(b).value.offsets, id, elapsed);
    RescanExact(b, id, elapsed);
    forall s: nat | NameStart(b, s) ensures Skip(c, s).Ok? {
      PatchSeenByWalk(b, s, id, elapsed);
      assert !ReadsByte(b, s, 0) && !ReadsByte(b, s, 1);
      SkipUnchanged(b, c, s);
    }
  }

  /** The client id whose bytes spoil the walk at `s`: it puts reserved bits where a length is read. */
  lemma PoisonId(b: Bytes, s: nat, elapsed: u32) returns (id: u16)
    requires Scan(b).Ok? && (elapsed == 0 || WalksAvoidTtls(b))
    requires GetMessage(b).Ok? && NameStart(b, s) && (ReadsByte(b, s, 0) || ReadsByte(b, s, 1))
    ensures Scan(Patched(b, Scan(b).value.offsets, id, elapsed)).Err?
  {
    hide Patched, Skip, Scan, NameStart, WalksAvoidTtls, GetMessage;
    var x := if ReadsByte(b, s, 0) then 0 else 1;
    HeaderFits(b);
    id := if x == 0 then 0x40 * 256 + b[1] else b[0] as int * 256 + 0x40;
    var c := Patched(b, Scan(b).value.offsets, id, elapsed);
    PatchSeenByWalk(b, s, id, elapsed);
    assert c[x] == 0x40 && c[1 - x] == b[1 - x];
    SkipExact(b, s, Skip(b, s).value);
    IdIsReached(b, c, s, Skip(b, s).value, x);
    PoisonedSkip(b, c, s, x);
    RescanExact(b, id, elapsed);
  }

  lemma HeaderFits(b: Bytes)
    requires GetMessage(b).Ok?
    ensures HEADER_LEN <= |b|
  {
    MessageExact(b);
  }

  // A walk that reads a TTL: the entry is accepted, and some time later it cannot be scanned.

  ghost predicate PatchedByte(offs: seq<nat>, i: nat) {
    i < 2 || InWindow(offs, i)
  }

  /** `x` is the first byte of the walk that a patch may change, and it is read as a length byte. */
  ghost predicate FirstPatchedRead(w: Walk, offs: seq<nat>, x: nat)
    decreases w
  {
    || w.at == x
    || (!PatchedByte(offs, w.at) && (w.Jump? ==> !PatchedByte(offs, w.at + 1)) && !w.Root? &&
        FirstPatchedRead(w.next, offs, x))
  }

  lemma {:induction false} FirstPatchedIsReached(b: Bytes, c: Bytes, p: nat, w: Walk, offs: seq<nat>, x: nat)
    requires |b| == |c| && IsWalk(b, p, w) && FirstPatchedRead(w, offs, x)
    requires forall i :: 0 <= i < |b| && !PatchedByte(offs, i) ==> b[i] == c[i]
    ensures ReachesClean(b, c, w, x)
    decreases w
  {
    hide PatchedByte;
    if p != x {
      match w
      case Label(_, len, next) => FirstPatchedIsReached(b, c, p + 1 + len, next, offs, x);
      case Jump(_, target, next) => FirstPatchedIsReached(b, c, target, next, offs, x);
    }
  }

  /** What one unit of byte `k` of a TTL is worth in seconds. */
  function Weight(k: nat): u32
    requires k < 4
  {
    if k == 0 then 0x100_0000 else if k == 1 then 0x1_0000 else if k == 2 then 0x100 else 1
  }

  lemma ByteOfTtl(c: Bytes, off: nat, k: nat)
    requires off + 4 <= |c| && k < 4 && U32At(c, off) == 64 * Weight(k)
    ensures c[off + k] == 64
  {
    assert U32At(c, off) ==
        c[off] as int * 0x100_0000 + c[off + 1] as int * 0x1_0000 + c[off + 2] as int * 0x100 + c[off + 3];
  }

  /**
   * If the first patched byte that a name walk reads is length byte `k` of a TTL of at least 64
   * units of that byte, the entry is served in a form that cannot be scanned, under every client
   * id, once the TTL has aged to 64 units: for the last byte, a TTL of one minute and 4 seconds.
   */
  lemma PointerIntoTtlBreaksRescan(b: Bytes, s: nat, j: nat, k: nat, id: u16)
    requires Scan(b).Ok? && NameStart(b, s) && Skip(b, s).Ok?
    requires j < |Scan(b).value.offsets| && k < 4
    requires Scan(b).value.offsets[j] + 4 <= |b| && U32At(b, Scan(b).value.offsets[j]) >= 64 * Weight(k)
    requires FirstPatchedRead(Skip(b, s).value, Scan(b).value.offsets, Scan(b).value.offsets[j] + k)
    ensures Scan(Patched(b, Scan(b).value.offsets, id, U32At(b, Scan(b).value.offsets[j]) - 64 * Weight(k))).Err?
  {
    hide Patched, Skip, Scan, NameStart, U32At, Weight;
    var offs := Scan(b).value.offsets;
    var elapsed := U32At(b, offs[j]) - 64 * Weight(k);
    var c := Patched(b, offs, id, elapsed);
    ScanPatchable(b);
    PatchedEffect(b, offs, id, elapsed);
    ByteOfTtl(c, offs[j], k);
    SkipExact(b, s, Skip(b, s).value);
    FirstPatchedIsReached(b, c, s, Skip(b, s).value, offs, offs[j] + k);
    PoisonedSkip(b, c, s, offs[j] + k);
    RescanExact(b, id, elapsed);
  }

  /**
   * The answer to a question for a one-byte name: two A records, of which the first is owned by
   * the question name and the second by a pointer to the last byte of the first one's TTL.
   */
  ghost predicate PointsIntoTtl(b: Bytes) {
    && |b| == 51
    && U16At(b, 4) == 1 && U16At(b, 6) == 2 && U16At(b, 8) == 0 && U16At(b, 10) == 0
    && b[12] == 1 && b[14] == 0
    && IsAddressRecord(b, 19, 12) && IsAddressRecord(b, 35, 28)
  }

  /** An A record at `p`, owned through a pointer, with a TTL of 256 seconds. */
  ghost predicate IsAddressRecord(b: Bytes, p: nat, target: byte) {
    && p + 16 <= |b| && b[p] == 0xC0 && b[p + 1] == target
    && U16At(b, p + 2) == 1 && U16At(b, p + 4) == 1 && U32At(b, p + 6) == 256 && b[p + 9] == 0 && U16At(b, p + 10) == 4
  }

  const RR_FIRST := Rr(19, Jump(19, 12, Label(12, 1, Root(14))), 1, 1, 256, 4)
  const RR_SECOND := Rr(35, Jump(35, 28, Root(28)), 1, 1, 256, 4)

  lemma TwoRecords(rrs: seq<Rr>)
    requires rrs == [RR_FIRST, RR_SECOND]
    ensures Offsets(rrs) == [25, 41] && MinTtl(rrs) == Some(256)
  {
    var init := rrs[..|rrs| - 1];
    assert init == [RR_FIRST] && init[..|init| - 1] == [];
    assert Offsets(init) == [25] && MinTtl(init) == Some(256);
    assert RR_SECOND.Real() && RR_SECOND.TtlAt() == 41;
    assert Offsets(rrs) == Offsets(init) + [41];
  }

  lemma PointsIntoTtlQuestion(b: Bytes)
    requires PointsIntoTtl(b)
    ensures GetQuestions(b, HEADER_LEN, 1) == Ok(19)
  {
    hide U16At, U32At, Skip;
    SkipExact(b, 12, Label(12, 1, Root(14)));
    assert GetQuestion(b, 12) == Ok(19);
    assert GetQuestions(b, 19, 0) == Ok(19);
  }

  lemma PointsIntoTtlRecords(b: Bytes)
    requires PointsIntoTtl(b)
    ensures GetRr(b, 19) == Ok(RR_FIRST) && GetRr(b, 35) == Ok(RR_SECOND)
    ensures Skip(b, 35) == Ok(RR_SECOND.name)
  {
    hide U16At, U32At, Skip, GetRr;
    RrExact(b, 19, RR_FIRST);
    RrExact(b, 35, RR_SECOND);
    SkipExact(b, 35, RR_SECOND.name);
  }

  lemma PointsIntoTtlScans(b: Bytes)
    requires PointsIntoTtl(b)
    ensures GetMessage(b).Ok? && GetMessage(b).value.rrs == [RR_FIRST, RR_SECOND]
    ensures Scan(b) == Ok(Scanned(Some(256), [25, 41]))
  {
    hide GetRr, GetQuestions, U32At;
    var rrs := [RR_FIRST, RR_SECOND];
    PointsIntoTtlQuestion(b);
    PointsIntoTtlRecords(b);
    assert GetRrs(b, 51, 0) == Ok([]);
    assert GetRrs(b, 35, 1) == Ok([RR_SECOND] + []);
    assert GetRrs(b, 19, 2) == Ok([RR_FIRST] + ([RR_SECOND] + []));
    assert [RR_FIRST] + ([RR_SECOND] + []) == rrs;
    TwoRecords(rrs);
  }

  /** Such an answer is accepted with a minimum TTL of 256, and after 192 seconds no id makes it scan. */
  lemma AnswerStopsScanning(b: Bytes, id: u16)
    requires PointsIntoTtl(b)
    ensures Scan(b) == Ok(Scanned(Some(256), [25, 41]))
    ensures Scan(Patched(b, [25, 41], id, 192)).Err?
  {
    hide Patched, Scan, GetMessage, GetRr, Skip;
    PointsIntoTtlScans(b);
    PointsIntoTtlRecords(b);
    assert [RR_FIRST, RR_SECOND][1].owner == 35;
    assert NameStart(b, 35);
    assert !InWindow([25, 41], 35) && !InWindow([25, 41], 36);
    assert FirstPatchedRead(RR_SECOND.name, [25, 41], 28);
    PointerIntoTtlBreaksRescan(b, 35, 0, 3, id);
  }

  /** The answer to `a` A IN with id 0x1234: two addresses in 192.0.2.0/24, each for 256 seconds. */
  const POINTER_INTO_TTL: Bytes := EX_HEADER + EX_QUESTION + ExampleRecord(12, 1) + ExampleRecord(28, 2)

  const EX_HEADER: Bytes := [0x12, 0x34, 0x81, 0x80, 0, 1, 0, 2, 0, 0, 0, 0]
  const EX_QUESTION: Bytes := [1, 97, 0, 0, 1, 0, 1]

  function ExampleRecord(target: byte, host: byte): (r: Bytes)
    ensures |r| == 16
  {
    [0xC0, target, 0, 1, 0, 1, 0, 0, 1, 0, 0, 4, 192, 0, 2, host]
  }

  lemma ExampleRecordPlaced(b: Bytes, p: nat, target: byte, host: byte)
    requires At(b, p, ExampleRecord(target, host))
    ensures IsAddressRecord(b, p, target)
  {
    var r := b[p..p + 16];
    assert forall i :: 0 <= i < 16 ==> r[i] == b[p + i];
  }

  lemma ExampleQuestionPlaced(b: Bytes)
    requires At(b, 0, EX_HEADER) && At(b, 12, EX_QUESTION)
    ensures U16At(b, 4) == 1 && U16At(b, 6) == 2 && U16At(b, 8) == 0 && U16At(b, 10) == 0
    ensures b[12] == 1 && b[14] == 0
  {
    var h := b[0..12];
    assert forall i :: 0 <= i < 12 ==> h[i] == b[i];
    assert b[12..19][0] == b[12] && b[12..19][2] == b[14];
  }

  lemma PointsIntoTtlExists()
    ensures PointsIntoTtl(POINTER_INTO_TTL)
  {
    hide ExampleRecord, IsAddressRecord, U16At;
    var b := POINTER_INTO_TTL;
    var first, second := ExampleRecord(12, 1), ExampleRecord(28, 2);
    assert |EX_HEADER| == 12 && |EX_QUESTION| == 7;
    assert At(b, 0, EX_HEADER + EX_QUESTION + first + second);
    AtConcat(b, 0, EX_HEADER + EX_QUESTION + first, second);
    AtConcat(b, 0, EX_HEADER + EX_QUESTION, first);
    AtConcat(b, 0, EX_HEADER, EX_QUESTION);
    ExampleQuestionPlaced(b);
    ExampleRecordPlaced(b, 19, 12, 1);
    ExampleRecordPlaced(b, 35, 28, 2);
  }
}
