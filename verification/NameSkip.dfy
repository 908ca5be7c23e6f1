/** `Name::skip_rr`: skipping a possibly compressed owner name (section 4.1.4 of RFC 1035). */
module NameSkip {
  import opened Wire
  import opened Cursor

  const MAX_LABEL_LEN: nat := 63
  const MAX_NAME_WIRE_LEN: nat := 255
  const MAX_SKIP_HOPS: nat := 16

  /** The positions a skip visits: labels, pointer words and the final root byte. */
  datatype Walk =
    | Root(at: nat)
    | Label(at: nat, len: nat, next: Walk)
    | Jump(at: nat, target: nat, next: Walk)
  {
    function Hops(): nat {
      match this
      case Root(_) => 0
      case Label(_, _, next) => next.Hops()
      case Jump(_, _, next) => 1 + next.Hops()
    }

    function LabelBytes(): nat {
      match this
      case Root(_) => 0
      case Label(_, len, next) => len + next.LabelBytes()
      case Jump(_, _, next) => next.LabelBytes()
    }

    function LabelCount(): nat {
      match this
      case Root(_) => 0
      case Label(_, _, next) => 1 + next.LabelCount()
      case Jump(_, _, next) => next.LabelCount()
    }

    /** The length of the name on the wire once its pointers are replaced by what they point to. */
    function WireLength(): nat {
      match this
      case Root(_) => 1
      case Label(_, len, next) => 1 + len + next.WireLength()
      case Jump(_, _, next) => next.WireLength()
    }

    function Steps(): nat {
      if Root? then 1 else 1 + next.Steps()
    }

    /** First offset after the name in the stream: past the first pointer word or the root byte. */
    function End(): nat {
      match this
      case Root(at) => at + 1
      case Label(_, _, next) => next.End()
      case Jump(at, _, _) => at + 2
    }

    /** The bytes whose value the skip depends on. Label contents are never looked at. */
    function Reads(): set<nat> {
      match this
      case Root(at) => {at}
      case Label(at, _, next) => {at} + next.Reads()
      case Jump(at, _, next) => {at, at + 1} + next.Reads()
    }
  }

  /** What the two top bits of a length byte announce. */
  predicate IsPointer(c: byte) {
    c / 64 == 3
  }

  predicate IsReserved(c: byte) {
    c / 64 == 1 || c / 64 == 2
  }

  function PointerTarget(hi: byte, lo: byte): nat {
    hi % 64 * 256 + lo
  }

  /** The loop of `skip_rr` from `cur`, after `hops` pointers and `total` label bytes. */
  function Follow(b: Bytes, cur: nat, hops: nat, total: nat): Result<Walk>
    requires hops <= MAX_SKIP_HOPS && total <= MAX_NAME_WIRE_LEN
    decreases MAX_SKIP_HOPS - hops + MAX_NAME_WIRE_LEN - total
  {
    if cur >= |b| then Err(UnexpectedEof(cur, 1, 0))
    else if IsPointer(b[cur]) then
      if cur + 1 >= |b| then Err(UnexpectedEof(cur + 1, 1, 0)) else
      var target := PointerTarget(b[cur], b[cur + 1]);
      if target >= |b| || target >= cur then Err(InvalidPointerTarget(target, |b|))
      else if hops == MAX_SKIP_HOPS then Err(NameSkipLimitExceeded)
      else
        var next :- Follow(b, target, hops + 1, total);
        Ok(Jump(cur, target, next))
    else if IsReserved(b[cur]) then Err(LabelTooLong(b[cur]))
    else if b[cur] == 0 then Ok(Root(cur))
    else if total + b[cur] > MAX_NAME_WIRE_LEN then Err(NameTooLong(total + b[cur]))
    else if cur + 1 + b[cur] > |b| then Err(UnexpectedEof(cur + 1, b[cur], SatSub(|b|, cur + 1)))
    else
      var next :- Follow(b, cur + 1 + b[cur], hops, total + b[cur]);
      Ok(Label(cur, b[cur], next))
  }

  function Skip(b: Bytes, p: nat): Result<Walk> {
    Follow(b, p, 0, 0)
  }

  // The relational specification: what it means for a walk to be a name of the message.

  ghost predicate IsWalk(b: Bytes, p: nat, w: Walk)
    decreases w
  {
    p == w.at < |b| &&
    match w
    case Root(_) => b[p] == 0
    case Label(_, len, next) => 1 <= len <= MAX_LABEL_LEN && b[p] == len && p + 1 + len <= |b| &&
        IsWalk(b, p + 1 + len, next)
    case Jump(_, target, next) =>
      p + 1 < |b| && IsPointer(b[p]) && target == PointerTarget(b[p], b[p + 1]) && target < p && IsWalk(b, target, next)
  }

  lemma {:induction false} FollowIsWalk(b: Bytes, p: nat, hops: nat, total: nat)
    requires hops <= MAX_SKIP_HOPS && total <= MAX_NAME_WIRE_LEN
    requires Follow(b, p, hops, total).Ok?
    ensures var w := Follow(b, p, hops, total).value;
            IsWalk(b, p, w) && hops + w.Hops() <= MAX_SKIP_HOPS && total + w.LabelBytes() <= MAX_NAME_WIRE_LEN
    decreases MAX_SKIP_HOPS - hops + MAX_NAME_WIRE_LEN - total
  {
    var w := Follow(b, p, hops, total).value;
    match w
    case Root(_) =>
    case Label(_, len, _) => FollowIsWalk(b, p + 1 + len, hops, total + len);
    case Jump(_, target, _) => FollowIsWalk(b, target, hops + 1, total);
  }

  lemma {:induction false} WalkIsFollowed(b: Bytes, p: nat, w: Walk, hops: nat, total: nat)
    requires IsWalk(b, p, w)
    requires hops + w.Hops() <= MAX_SKIP_HOPS && total + w.LabelBytes() <= MAX_NAME_WIRE_LEN
    ensures Follow(b, p, hops, total) == Ok(w)
    decreases w
  {
    match w
    case Root(_) =>
    case Label(_, len, next) => WalkIsFollowed(b, p + 1 + len, next, hops, total + len);
    case Jump(_, target, next) => WalkIsFollowed(b, target, next, hops + 1, total);
  }

  /**
   * `skip_rr` accepts exactly the names that have a walk within the hop and label-byte budgets;
   * the walk is unique, and every step of it is a label byte, a hop or the root.
   */
  lemma SkipExact(b: Bytes, p: nat, w: Walk)
    ensures Skip(b, p) == Ok(w) <==>
            IsWalk(b, p, w) && w.Hops() <= MAX_SKIP_HOPS && w.LabelBytes() <= MAX_NAME_WIRE_LEN
  {
    if Skip(b, p) == Ok(w) {
      FollowIsWalk(b, p, 0, 0);
    }
    if IsWalk(b, p, w) && w.Hops() <= MAX_SKIP_HOPS && w.LabelBytes() <= MAX_NAME_WIRE_LEN {
      WalkIsFollowed(b, p, w, 0, 0);
    }
  }

  /**
   * Walks in terms of the bytes: a root is a zero byte, a label is a length of 1 to 63 with that
   * many bytes after it, and a jump is the 16-bit word 0xC000 plus an earlier offset.
   */
  lemma WalkShape(b: Bytes, p: nat, len: nat, target: nat, next: Walk)
    ensures IsWalk(b, p, Root(p)) <==> p < |b| && b[p] == 0
    ensures IsWalk(b, p, Label(p, len, next)) <==>
              p < |b| && 1 <= len <= 63 && b[p] == len && p + 1 + len <= |b| && IsWalk(b, p + 1 + len, next)
    ensures IsWalk(b, p, Jump(p, target, next)) <==>
              p + 2 <= |b| && U16At(b, p) == 0xC000 + target && target < p && IsWalk(b, target, next)
  {
  }

  // Where and why a skip fails.

  /** A way into the message: labels passed and pointers taken, one after the other. */
  datatype Trail = Here | PastLabel(len: nat, rest: Trail) | PastPointer(target: nat, rest: Trail)
  {
    function Hops(): nat {
      match this
      case Here => 0
      case PastLabel(_, rest) => rest.Hops()
      case PastPointer(_, rest) => 1 + rest.Hops()
    }

    function LabelBytes(): nat {
      match this
      case Here => 0
      case PastLabel(len, rest) => len + rest.LabelBytes()
      case PastPointer(_, rest) => rest.LabelBytes()
    }
  }

  ghost predicate Leads(b: Bytes, p: nat, t: Trail, q: nat)
    decreases t
  {
    match t
    case Here => p == q
    case PastLabel(len, rest) =>
      p < |b| && 1 <= len <= 63 && b[p] == len && p + 1 + len <= |b| && Leads(b, p + 1 + len, rest, q)
    case PastPointer(target, rest) =>
      p + 2 <= |b| && U16At(b, p) == 0xC000 + target && target < p && Leads(b, target, rest, q)
  }

  /** What is wrong at `q`, after `hops` pointers and `total` label bytes; the first fault counts. */
  ghost function FaultAt(b: Bytes, q: nat, hops: nat, total: nat): Option<Error> {
    if q >= |b| then Some(UnexpectedEof(q, 1, 0))
    else if b[q] >= 192 then
      if q + 1 == |b| then Some(UnexpectedEof(q + 1, 1, 0))
      else if U16At(b, q) - 0xC000 >= q then Some(InvalidPointerTarget(U16At(b, q) - 0xC000, |b|))
      else if hops == 16 then Some(NameSkipLimitExceeded)
      else None
    else if b[q] >= 64 then Some(LabelTooLong(b[q]))
    else if total + b[q] > 255 then Some(NameTooLong(total + b[q]))
    else if q + 1 + b[q] > |b| then Some(UnexpectedEof(q + 1, b[q], |b| - (q + 1)))
    else None
  }

  ghost predicate FailsAlong(b: Bytes, p: nat, t: Trail, q: nat, hops: nat, total: nat, e: Error) {
    && Leads(b, p, t, q) && hops + t.Hops() <= 16 && total + t.LabelBytes() <= 255
    && FaultAt(b, q, hops + t.Hops(), total + t.LabelBytes()) == Some(e)
  }

  lemma FollowStep(b: Bytes, p: nat, hops: nat, total: nat)
    requires hops <= MAX_SKIP_HOPS && total <= MAX_NAME_WIRE_LEN
    ensures var fault, r := FaultAt(b, p, hops, total), Follow(b, p, hops, total);
            && (fault.Some? ==> r == Err(fault.value))
            && (fault.None? && b[p] >= 192 ==>
                  var target := U16At(b, p) - 0xC000; var rest := Follow(b, target, hops + 1, total);
                  (r.Err? <==> rest.Err?) && (r.Err? ==> r.error == rest.error))
            && (fault.None? && 1 <= b[p] < 64 ==>
                  var rest := Follow(b, p + 1 + b[p], hops, total + b[p]);
                  (r.Err? <==> rest.Err?) && (r.Err? ==> r.error == rest.error))
            && (fault.None? && b[p] == 0 ==> r.Ok?)
  {
  }

  lemma {:induction false} FollowFails(b: Bytes, p: nat, hops: nat, total: nat) returns (t: Trail, q: nat)
    requires hops <= MAX_SKIP_HOPS && total <= MAX_NAME_WIRE_LEN && Follow(b, p, hops, total).Err?
    ensures FailsAlong(b, p, t, q, hops, total, Follow(b, p, hops, total).error)
    decreases MAX_SKIP_HOPS - hops + MAX_NAME_WIRE_LEN - total
  {
    hide Follow, U16At;
    t, q := Here, p;
    FollowStep(b, p, hops, total);
    if FaultAt(b, p, hops, total).None? {
      if b[p] >= 192 {
        WordHead(b, p);
        var target := U16At(b, p) - 0xC000;
        var rest, end := FollowFails(b, target, hops + 1, total);
        t, q := PastPointer(target, rest), end;
      } else {
        var rest, end := FollowFails(b, p + 1 + b[p], hops, total + b[p]);
        t, q := PastLabel(b[p], rest), end;
      }
    }
  }

  lemma {:induction false} FailsThere(b: Bytes, p: nat, t: Trail, q: nat, hops: nat, total: nat, e: Error)
    requires FailsAlong(b, p, t, q, hops, total, e)
    ensures Follow(b, p, hops, total) == Err(e)
    decreases t
  {
    hide Follow, U16At, FaultAt;
    FollowStep(b, p, hops, total);
    NoFaultOnTrail(b, p, t, q, hops, total);
    match t
    case Here =>
    case PastLabel(len, rest) => FailsThere(b, p + 1 + len, rest, q, hops, total + len, e);
    case PastPointer(target, rest) => FailsThere(b, target, rest, q, hops + 1, total, e);
  }

  lemma NoFaultOnTrail(b: Bytes, p: nat, t: Trail, q: nat, hops: nat, total: nat)
    requires Leads(b, p, t, q) && hops + t.Hops() <= 16 && total + t.LabelBytes() <= 255
    ensures t.PastLabel? ==> FaultAt(b, p, hops, total).None? && 1 <= b[p] < 64
    ensures t.PastPointer? ==> FaultAt(b, p, hops, total).None? && b[p] >= 192
  {
    hide U16At;
    if t.PastPointer? {
      WordHead(b, p);
    }
  }

  lemma WordHead(b: Bytes, p: nat)
    requires p + 2 <= |b|
    ensures U16At(b, p) >= 0xC000 <==> b[p] >= 192
  {
  }

  /** A skip fails with an error if and only if a trail within the budgets leads to that fault. */
  lemma SkipFailsExact(b: Bytes, p: nat, e: Error)
    ensures Skip(b, p) == Err(e) <==> exists t, q :: FailsAlong(b, p, t, q, 0, 0, e)
  {
    if Skip(b, p) == Err(e) {
      var t, q := FollowFails(b, p, 0, 0);
    }
    if t, q :| FailsAlong(b, p, t, q, 0, 0, e) {
      FailsThere(b, p, t, q, 0, 0, e);
    }
  }

  lemma {:induction false} StepBound(b: Bytes, p: nat, w: Walk)
    requires IsWalk(b, p, w)
    ensures w.Steps() <= w.Hops() + w.LabelBytes() + 1
    decreases w
  {
    match w
    case Root(_) =>
    case Label(_, len, next) => StepBound(b, p + 1 + len, next);
    case Jump(_, target, next) => StepBound(b, target, next);
  }

  /** An accepted name is walked in at most 272 steps, on every buffer. */
  lemma SkipBounded(b: Bytes, p: nat)
    requires Skip(b, p).Ok?
    ensures Skip(b, p).value.Steps() <= MAX_SKIP_HOPS + MAX_NAME_WIRE_LEN + 1
  {
    var w := Skip(b, p).value;
    SkipExact(b, p, w);
    StepBound(b, p, w);
  }

  // Where the stream cursor lands, defined without following any pointer.

  /** How the head of a name in the stream is told apart. */
  datatype Head = AtPointer | AtRoot | AtLabel(len: nat) | AtNothing

  function HeadAt(b: Bytes, p: nat): Head {
    if p >= |b| || IsReserved(b[p]) then AtNothing
    else if IsPointer(b[p]) then AtPointer
    else if b[p] == 0 then AtRoot
    else AtLabel(b[p])
  }

  function InStreamEnd(b: Bytes, p: nat): Option<nat>
    decreases SatSub(|b|, p)
  {
    match HeadAt(b, p)
    case AtNothing => None
    case AtPointer => Some(p + 2)
    case AtRoot => Some(p + 1)
    case AtLabel(len) => InStreamEnd(b, p + 1 + len)
  }

  lemma HeadOfWalk(b: Bytes, p: nat, w: Walk)
    requires IsWalk(b, p, w)
    ensures HeadAt(b, p) ==
              match w case Root(_) => AtRoot case Label(_, len, _) => AtLabel(len) case Jump(_, _, _) => AtPointer
    ensures w.Label? ==> IsWalk(b, p + 1 + w.len, w.next)
    ensures p + (if w.Jump? then 2 else 1) <= |b|
  {
  }

  /** On success the cursor position does not depend on anything a followed pointer leads to. */
  lemma {:induction false} EndIsInStream(b: Bytes, p: nat, w: Walk)
    requires IsWalk(b, p, w)
    ensures InStreamEnd(b, p) == Some(w.End())
    ensures p < w.End() <= |b|
    decreases w
  {
    hide IsWalk, HeadAt;
    HeadOfWalk(b, p, w);
    if w.Label? {
      EndIsInStream(b, p + 1 + w.len, w.next);
    } else {
      assert w.at == p by {
        WalkStarts(b, p, w);
      }
    }
  }

  lemma WalkStarts(b: Bytes, p: nat, w: Walk)
    requires IsWalk(b, p, w)
    ensures w.at == p < |b|
  {
  }

  // Dependence of a skip on the message bytes.

  /** Two messages that agree on the bytes a walk reads have the same walk there. */
  lemma {:induction false} WalkUnchanged(b: Bytes, c: Bytes, p: nat, w: Walk)
    requires |b| == |c| && IsWalk(b, p, w)
    requires forall i :: i in w.Reads() && i < |b| ==> b[i] == c[i]
    ensures IsWalk(c, p, w)
    decreases w
  {
    assert p in w.Reads();
    match w
    case Root(_) =>
    case Label(_, len, next) => WalkUnchanged(b, c, p + 1 + len, next);
    case Jump(_, target, next) =>
      assert p + 1 in w.Reads();
      WalkUnchanged(b, c, target, next);
  }

  lemma SkipUnchanged(b: Bytes, c: Bytes, p: nat)
    requires |b| == |c| && Skip(b, p).Ok?
    requires forall i :: i in Skip(b, p).value.Reads() && i < |b| ==> b[i] == c[i]
    ensures Skip(c, p) == Skip(b, p)
  {
    var w := Skip(b, p).value;
    SkipExact(b, p, w);
    WalkUnchanged(b, c, p, w);
    SkipExact(c, p, w);
  }

  /** The bytes between a name's start and its end in the stream fix where the cursor lands. */
  lemma {:induction false} EndFixedByStream(b: Bytes, c: Bytes, p: nat, v: Walk, w: Walk)
    requires IsWalk(b, p, v) && IsWalk(c, p, w)
    requires Agree(b, c, p, v.End())
    ensures w.End() == v.End()
    decreases v
  {
    EndIsInStream(b, p, v);
    assert b[p] == c[p];
    if v.Label? {
      EndIsInStream(b, p + 1 + v.len, v.next);
      EndFixedByStream(b, c, p + 1 + v.len, v.next, w.next);
    }
  }

  lemma SkipEnd(b: Bytes, p: nat)
    requires Skip(b, p).Ok?
    ensures p < Skip(b, p).value.End() <= |b|
  {
    SkipExact(b, p, Skip(b, p).value);
    EndIsInStream(b, p, Skip(b, p).value);
  }

  lemma SkipEndStable(b: Bytes, c: Bytes, p: nat)
    requires Skip(b, p).Ok? && Skip(c, p).Ok?
    requires Agree(b, c, p, Skip(b, p).value.End())
    ensures Skip(c, p).value.End() == Skip(b, p).value.End()
  {
    SkipExact(b, p, Skip(b, p).value);
    SkipExact(c, p, Skip(c, p).value);
    EndFixedByStream(b, c, p, Skip(b, p).value, Skip(c, p).value);
  }

  // The imperative walker.

  /**
   * Where the skip leaves the stream cursor, whether it succeeds or not: after the first pointer
   * word or the root byte, or at the head of the first label that was not passed.
   */
  function CursorAfter(b: Bytes, p: nat, total: nat): nat
    decreases SatSub(|b|, p)
  {
    if p >= |b| then p
    else if IsPointer(b[p]) then if p + 1 < |b| then p + 2 else p
    else if IsReserved(b[p]) then p
    else if b[p] == 0 then p + 1
    else if total + b[p] > MAX_NAME_WIRE_LEN || p + 1 + b[p] > |b| then p
    else CursorAfter(b, p + 1 + b[p], total + b[p])
  }

  /**
   * The two-cursor loop: `reader.pos` follows the stream until the first pointer, `cur` follows
   * the chain. The loop body runs at most 16 + 255 + 1 times, on every buffer.
   */
  method SkipRr(reader: Reader) returns (r: Result<()>, ghost iterations: nat)
    modifies reader
    ensures r.Ok? <==> Skip(reader.buf, old(reader.pos)).Ok?
    ensures r.Ok? ==> reader.pos == Skip(reader.buf, old(reader.pos)).value.End()
    ensures reader.pos == CursorAfter(reader.buf, old(reader.pos), 0)
    ensures r.Err? ==> r.error == Skip(reader.buf, old(reader.pos)).error
    ensures iterations <= MAX_SKIP_HOPS + MAX_NAME_WIRE_LEN + 1
  {
    hide PointerTarget, IsPointer, IsReserved;
    var msg := reader.buf;
    var cur: nat := reader.pos;
    var fixedReader := false;
    var hops: nat, total: nat := 0, 0;
    ghost var whole, after := Skip(msg, cur), CursorAfter(msg, cur, 0);
    iterations := 0;
    while true
      invariant hops <= MAX_SKIP_HOPS && total <= MAX_NAME_WIRE_LEN
      invariant iterations <= hops + total
      invariant !fixedReader ==> reader.pos == cur
      invariant after == if fixedReader then reader.pos else CursorAfter(msg, cur, total)
      invariant var rest := Follow(msg, cur, hops, total);
                && (rest.Ok? <==> whole.Ok?)
                && (rest.Err? ==> rest.error == whole.error)
                && (rest.Ok? ==> whole.value.End() == if fixedReader then reader.pos else rest.value.End())
      decreases MAX_SKIP_HOPS - hops + MAX_NAME_WIRE_LEN - total
    {
      iterations := iterations + 1;
      if cur >= |msg| {
        return Err(UnexpectedEof(cur, 1, SatSub(|msg|, cur))), iterations;
      }
      var lenByte := msg[cur];
      cur := cur + 1;
      if IsPointer(lenByte) {
        if cur >= |msg| {
          return Err(UnexpectedEof(cur, 1, SatSub(|msg|, cur))), iterations;
        }
        var lowByte := msg[cur];
        cur := cur + 1;
        if !fixedReader {
          var _ := reader.ReadSlice(cur - reader.pos);
          fixedReader := true;
        }
        var target := PointerTarget(lenByte, lowByte);
        if target >= |msg| {
          return Err(InvalidPointerTarget(target, |msg|)), iterations;
        }
        var pointerStart := cur - 2;
        if target >= pointerStart {
          return Err(InvalidPointerTarget(target, |msg|)), iterations;
        }
        hops := hops + 1;
        if hops > MAX_SKIP_HOPS {
          return Err(NameSkipLimitExceeded), iterations;
        }
        cur := target;
        continue;
      }
      if IsReserved(lenByte) {
        return Err(LabelTooLong(lenByte)), iterations;
      }
      // The two top bits are clear here, so a further test against 63 never fires.
      var labelLen: nat := lenByte;
      if labelLen == 0 {
        if !fixedReader {
          var _ := reader.ReadSlice(cur - reader.pos);
        }
        return Ok(()), iterations;
      }
      total := total + labelLen;
      if total > MAX_NAME_WIRE_LEN {
        return Err(NameTooLong(total)), iterations;
      }
      cur := cur + labelLen;
      if cur > |msg| {
        return Err(UnexpectedEof(cur - labelLen, labelLen, SatSub(|msg|, cur - labelLen))), iterations;
      }
      if !fixedReader {
        var _ := reader.ReadSlice(1 + labelLen);
      }
    }
  }

  // Two facts about the code that its comments overlook: loops, and the length of accepted names.

  /** The label bytes from `cur` up to a pointer to `p`, when nothing but labels lies between. */
  function LapBytes(b: Bytes, cur: nat, p: nat): Option<nat>
    decreases SatSub(|b|, cur)
  {
    if cur >= |b| || IsReserved(b[cur]) || b[cur] == 0 then None
    else if IsPointer(b[cur]) then
      if cur + 1 < |b| && PointerTarget(b[cur], b[cur + 1]) == p then Some(0) else None
    else
      match LapBytes(b, cur + 1 + b[cur], p)
      case None => None
      case Some(n) => Some(b[cur] as int + n)
  }

  /** One or more labels from `p` on, and then a pointer back to `p`: backward, and yet a loop. */
  ghost predicate IsLoop(b: Bytes, p: nat, n: nat) {
    n > 0 && LapBytes(b, p, p) == Some(n)
  }

  /** The shortest loops: a label and a pointer back to it. */
  lemma OneLabelLoop(b: Bytes, p: nat)
    requires p < |b| && 1 <= b[p] <= MAX_LABEL_LEN && p + 3 + b[p] <= |b|
    requires IsPointer(b[p + 1 + b[p]]) && PointerTarget(b[p + 1 + b[p]], b[p + 2 + b[p]]) == p
    ensures IsLoop(b, p, b[p])
  {
    assert LapBytes(b, p + 1 + b[p], p) == Some(0);
  }

  /** One lap: it ends at the label cap, at the hop cap, or where it began with one hop more. */
  lemma {:induction false} OneLap(b: Bytes, cur: nat, p: nat, n: nat, hops: nat, total: nat)
    requires LapBytes(b, cur, p) == Some(n) && (p < cur || (p == cur && n > 0))
    requires hops <= MAX_SKIP_HOPS && total <= MAX_NAME_WIRE_LEN
    ensures total + n > MAX_NAME_WIRE_LEN ==>
              Follow(b, cur, hops, total).Err? && Follow(b, cur, hops, total).error.NameTooLong?
    ensures total + n <= MAX_NAME_WIRE_LEN && hops == MAX_SKIP_HOPS ==>
              Follow(b, cur, hops, total) == Err(NameSkipLimitExceeded)
    ensures total + n <= MAX_NAME_WIRE_LEN && hops < MAX_SKIP_HOPS && Follow(b, p, hops + 1, total + n).Err? ==>
              Follow(b, cur, hops, total) == Err(Follow(b, p, hops + 1, total + n).error)
    decreases SatSub(|b|, cur)
  {
    if !IsPointer(b[cur]) && total + b[cur] <= MAX_NAME_WIRE_LEN {
      OneLap(b, cur + 1 + b[cur], p, n - b[cur], hops, total + b[cur]);
    }
  }

  lemma LapsLeft(hops: nat, n: nat)
    requires hops <= MAX_SKIP_HOPS
    ensures (MAX_SKIP_HOPS + 1 - hops) * n == n + (MAX_SKIP_HOPS - hops) * n && (MAX_SKIP_HOPS - hops) * n >= 0
  {
  }

  /**
   * Every loop is refused. The hop cap ends it if and only if its label bytes over all the laps
   * still allowed stay within the label cap; otherwise the label cap does.
   */
  lemma {:induction false} LoopIsRefused(b: Bytes, p: nat, n: nat, hops: nat, total: nat)
    requires IsLoop(b, p, n) && hops <= MAX_SKIP_HOPS && total <= MAX_NAME_WIRE_LEN
    ensures Follow(b, p, hops, total).Err?
    ensures Follow(b, p, hops, total).error.NameSkipLimitExceeded? || Follow(b, p, hops, total).error.NameTooLong?
    ensures Follow(b, p, hops, total).error.NameSkipLimitExceeded? <==>
            total + (MAX_SKIP_HOPS + 1 - hops) * n <= MAX_NAME_WIRE_LEN
    decreases MAX_SKIP_HOPS - hops
  {
    OneLap(b, p, p, n, hops, total);
    LapsLeft(hops, n);
    if total + n <= MAX_NAME_WIRE_LEN && hops < MAX_SKIP_HOPS {
      LoopIsRefused(b, p, n, hops + 1, total + n);
    }
  }

  /** From a fresh start, the hop cap ends the loops of up to 15 label bytes and the label cap the others. */
  lemma LoopErrorExact(b: Bytes, p: nat, n: nat)
    requires IsLoop(b, p, n)
    ensures Skip(b, p).Err?
    ensures Skip(b, p).error.NameSkipLimitExceeded? <==> n <= 15
    ensures Skip(b, p).error.NameTooLong? <==> n >= 16
  {
    LoopIsRefused(b, p, n, 0, 0);
  }

  /** Without any cap: no finite walk starts inside a loop, so the caps are what ends it. */
  lemma {:induction false} LoopHasNoWalk(b: Bytes, cur: nat, p: nat, n: nat, w: Walk)
    requires IsLoop(b, p, n) && LapBytes(b, cur, p).Some?
    ensures !IsWalk(b, cur, w)
    decreases w
  {
    if IsWalk(b, cur, w) {
      match w
      case Label(_, len, next) => LoopHasNoWalk(b, cur + 1 + len, p, n, next);
      case Jump(_, target, next) => LoopHasNoWalk(b, p, p, n, next);
    }
  }

  /** `n` one-byte labels and a root byte: 2n + 1 bytes on the wire but only n label bytes. */
  function OneByteLabels(n: nat): Bytes {
    if n == 0 then [0] else [1, 97] + OneByteLabels(n - 1)
  }

  function LabelRun(p: nat, n: nat): Walk
    decreases n
  {
    if n == 0 then Root(p) else Label(p, 1, LabelRun(p + 2, n - 1))
  }

  lemma {:induction false} OneByteLabelsWalk(b: Bytes, p: nat, n: nat)
    requires At(b, p, OneByteLabels(n))
    ensures IsWalk(b, p, LabelRun(p, n))
    ensures LabelRun(p, n).Hops() == 0 && LabelRun(p, n).LabelBytes() == n && LabelRun(p, n).WireLength() == 2 * n + 1
    ensures |OneByteLabels(n)| == 2 * n + 1
    decreases n
  {
    assert b[p] == b[p..p + |OneByteLabels(n)|][0];
    if n > 0 {
      AtConcat(b, p, [1, 97], OneByteLabels(n - 1));
      OneByteLabelsWalk(b, p + 2, n - 1);
    }
  }

  lemma {:induction false} WireLengthExact(b: Bytes, p: nat, w: Walk)
    requires IsWalk(b, p, w)
    ensures w.WireLength() == 1 + w.LabelBytes() + w.LabelCount() && w.LabelCount() <= w.LabelBytes()
    ensures w.Hops() == 0 ==> w.WireLength() == w.End() - p
    decreases w
  {
    match w
    case Root(_) =>
    case Label(_, len, next) => WireLengthExact(b, p + 1 + len, next);
    case Jump(_, target, next) => WireLengthExact(b, target, next);
  }

  /**
   * The cap counts label bytes only, so what it bounds is a wire form of 511 bytes; an accepted
   * name keeps to 255 if and only if its label bytes and its labels are at most 254 together.
   * For a name without pointers the wire form is what lies in the stream.
   */
  lemma SkipBoundsWireLength(b: Bytes, p: nat)
    requires Skip(b, p).Ok?
    ensures var w := Skip(b, p).value;
            && w.WireLength() <= 2 * MAX_NAME_WIRE_LEN + 1
            && (w.WireLength() <= MAX_NAME_WIRE_LEN <==> w.LabelBytes() + w.LabelCount() <= MAX_NAME_WIRE_LEN - 1)
            && (w.Hops() == 0 ==> w.WireLength() == w.End() - p)
  {
    SkipExact(b, p, Skip(b, p).value);
    WireLengthExact(b, p, Skip(b, p).value);
  }

  /** The bound is attained, by 255 one-byte labels. */
  lemma SkipAcceptsOverlongName()
    ensures |OneByteLabels(255)| == 2 * MAX_NAME_WIRE_LEN + 1
    ensures Skip(OneByteLabels(255), 0).Ok?
    ensures Skip(OneByteLabels(255), 0).value.WireLength() == 2 * MAX_NAME_WIRE_LEN + 1
  {
    hide OneByteLabels, LabelRun;
    var b := OneByteLabels(255);
    assert b[0..|b|] == b;
    OneByteLabelsWalk(b, 0, 255);
    SkipExact(b, 0, LabelRun(0, 255));
  }
}
