/** Laws of names: round trips, and agreement of the two name walkers. */
module NameLaws {
  import opened Wire
  import opened NameSkip
  import opened Names

  // Labels that pass validation.

  lemma {:induction false} NoBadByte(l: Text)
    ensures FirstBadByte(l).Ok? <==> forall i :: 0 <= i < |l| ==> LabelByte(l[i])
    decreases |l|
  {
    if l != [] {
      NoBadByte(l[1..]);
      assert l == [l[0]] + l[1..];
    }
  }

  /** Letters, digits, hyphen and underscore. */
  ghost predicate NameChar(c: char) {
    '0' <= c <= '9' || 'a' <= c <= 'z' || 'A' <= c <= 'Z' || c == '-' || c == '_'
  }

  /** The two byte tables, in terms of characters. */
  lemma ByteTables(c: byte)
    ensures LabelByte(c) <==> NameChar(c as char)
    ensures Lower(c) as char == if 'A' <= c as char <= 'Z' then (c - 'A' as int + 'a' as int) as char else c as char
    ensures DOT as char == '.'
  {
  }

  ghost predicate HyphenAtEnd(l: Text) {
    l != [] && (l[0] as char == '-' || l[|l| - 1] as char == '-')
  }

  lemma {:induction false} BadByteExact(l: Text, e: Error)
    ensures FirstBadByte(l) == Err(e) <==> exists i :: FirstBad(l, i, e)
    decreases |l|
  {
    if l != [] {
      BadByteExact(l[1..], e);
      ByteTables(l[0]);
      if i :| FirstBad(l[1..], i, e) {
        if LabelByte(l[0]) {
          assert FirstBad(l, i + 1, e);
        }
      }
      if i :| FirstBad(l, i, e) {
        if i > 0 {
          assert FirstBad(l[1..], i - 1, e);
        }
      }
      if !LabelByte(l[0]) && e == InvalidLabelByte(l[0]) {
        assert FirstBad(l, 0, e);
      }
    }
  }

  /** `e` reports the byte at `i`, the first one that no label may contain. */
  ghost predicate FirstBad(l: Text, i: int, e: Error) {
    && 0 <= i < |l| && !NameChar(l[i] as char) && e == InvalidLabelByte(l[i])
    && forall j :: 0 <= j < i ==> NameChar(l[j] as char)
  }

  /** What validation accepts, and what it reports: a hyphen at either end before any other byte. */
  lemma ValidationExact(l: Text, e: Error)
    ensures ValidateLabel(l).Ok? <==> !HyphenAtEnd(l) && forall i :: 0 <= i < |l| ==> NameChar(l[i] as char)
    ensures ValidateLabel(l) == Err(e) <==>
              if HyphenAtEnd(l) then e == InvalidLabelByte('-' as int) else exists i :: FirstBad(l, i, e)
  {
    NoBadByte(l);
    BadByteExact(l, e);
  }

  /** A good label: 1 to 63 digits, small letters, hyphens and underscores, no hyphen at either end. */
  lemma GoodLabelExact(l: Text)
    ensures GoodLabel(l) <==>
              && 1 <= |l| <= 63 && !HyphenAtEnd(l)
              && forall i :: 0 <= i < |l| ==> NameChar(l[i] as char) && !('A' <= l[i] as char <= 'Z')
  {
  }

  lemma ValidLabelLowers(l: Text)
    requires 1 <= |l| <= MAX_LABEL_LEN && ValidateLabel(l).Ok?
    ensures GoodLabel(Lowercase(l))
  {
    NoBadByte(l);
  }

  lemma ValidateExact(l: Text)
    ensures 1 <= |l| <= MAX_LABEL_LEN && ValidateLabel(l).Ok? <==> GoodLabel(Lowercase(l))
  {
    NoBadByte(l);
    if GoodLabel(Lowercase(l)) {
      assert |Lowercase(l)| == |l|;
      assert forall i :: 0 <= i < |l| ==> Lowercase(l)[i] == Lower(l[i]);
    } else if 1 <= |l| <= MAX_LABEL_LEN && ValidateLabel(l).Ok? {
      ValidLabelLowers(l);
    }
  }

  lemma GoodLabelValid(l: Text)
    requires GoodLabel(l)
    ensures ValidateLabel(l).Ok? && Lowercase(l) == l
  {
    NoBadByte(l);
  }

  lemma LowercaseConcat(s: Text, t: Text)
    ensures Lowercase(s + t) == Lowercase(s) + Lowercase(t)
  {
  }

  // Wire round trips.

  /** One accepted step of the reader, from its result. */
  lemma ReadStep(b: Bytes, p: nat, wireLen: nat)
    requires ReadLabels(b, p, wireLen).Ok?
    ensures p < |b| && b[p] <= MAX_LABEL_LEN
    ensures b[p] == 0 ==> ReadLabels(b, p, wireLen) == Ok(WireName([], p + 1))
    ensures b[p] != 0 ==> IsReadStep(b, p, wireLen)
    ensures b[p] != 0 ==>
              var rest := ReadLabels(b, p + 1 + b[p], wireLen + 1 + b[p]);
              && rest.Ok?
              && ReadLabels(b, p, wireLen) ==
                   Ok(WireName([Lowercase(b[p + 1..p + 1 + b[p]])] + rest.value.labels, rest.value.end))
  {
  }

  ghost predicate IsReadStep(b: Bytes, p: nat, wireLen: nat) {
    && p < |b| && 1 <= b[p] <= MAX_LABEL_LEN
    && wireLen + 1 + b[p] <= MAX_NAME_WIRE_LEN
    && p + 1 + b[p] <= |b|
    && ValidateLabel(b[p + 1..p + 1 + b[p]]).Ok?
  }

  lemma ReadRoot(b: Bytes, p: nat, wireLen: nat)
    requires p < |b| && b[p] == 0
    ensures ReadLabels(b, p, wireLen) == Ok(WireName([], p + 1))
  {
  }

  /** The same step, towards the result. */
  lemma ReadStepBack(b: Bytes, p: nat, wireLen: nat)
    requires IsReadStep(b, p, wireLen) && ReadLabels(b, p + 1 + b[p], wireLen + 1 + b[p]).Ok?
    ensures var rest := ReadLabels(b, p + 1 + b[p], wireLen + 1 + b[p]).value;
            ReadLabels(b, p, wireLen) == Ok(WireName([Lowercase(b[p + 1..p + 1 + b[p]])] + rest.labels, rest.end))
  {
  }

  /** What `read_question` accepts is a valid name, and the cursor ends where the name does. */
  lemma {:induction false} ReadIsGood(b: Bytes, p: nat, wireLen: nat)
    requires ReadLabels(b, p, wireLen).Ok?
    ensures var w := ReadLabels(b, p, wireLen).value;
            && (forall k :: 0 <= k < |w.labels| ==> GoodLabel(w.labels[k]))
            && (w.labels == [] || wireLen + Cost(w.labels) <= MAX_NAME_WIRE_LEN)
            && w.end == p + 1 + Cost(w.labels) <= |b|
    decreases SatSub(|b|, p)
  {
    hide ReadLabels, ValidateLabel, GoodLabel, Lowercase;
    ReadStep(b, p, wireLen);
    if b[p] != 0 {
      var c: nat := b[p];
      var l := b[p + 1..p + 1 + c];
      ValidLabelLowers(l);
      LowercaseLength(l);
      ReadIsGood(b, p + 1 + c, wireLen + 1 + c);
      var w, rest := ReadLabels(b, p, wireLen).value, ReadLabels(b, p + 1 + c, wireLen + 1 + c).value;
      assert w.labels[1..] == rest.labels;
      assert rest.labels == [] ==> Cost(rest.labels) == 0;
    }
  }

  lemma LowercaseLength(l: Text)
    ensures |Lowercase(l)| == |l|
  {
  }

  lemma LengthByteLowers(c: byte)
    requires c <= MAX_LABEL_LEN
    ensures Lowercase([c]) == [c]
  {
  }

  lemma {:induction false} EncodeLength(ls: seq<Text>)
    ensures |Encode(ls)| == 1 + Cost(ls)
    decreases |ls|
  {
    if ls != [] {
      EncodeLength(ls[1..]);
    }
  }

  /** The bytes at `p` are `s`, letter case aside. */
  /** Names in terms of their encoding: good labels and at most 255 bytes, the root byte included. */
  lemma GoodLabelsExact(ls: seq<Text>)
    ensures GoodLabels(ls) <==> (forall k :: 0 <= k < |ls| ==> GoodLabel(ls[k])) && |Encode(ls)| <= 255
  {
    EncodeLength(ls);
  }

  ghost predicate Spells(b: Bytes, p: nat, s: Bytes) {
    p + |s| <= |b| && forall i :: 0 <= i < |s| ==> Lower(b[p + i]) == s[i]
  }

  lemma SpellsConcat(b: Bytes, p: nat, s: Bytes, t: Bytes)
    requires Spells(b, p, s + t)
    ensures Spells(b, p, s) && Spells(b, p + |s|, t)
  {
    assert forall i :: 0 <= i < |s| ==> (s + t)[i] == s[i];
    forall i | 0 <= i < |t| ensures Lower(b[p + |s| + i]) == t[i] {
      assert (s + t)[|s| + i] == t[i];
    }
  }

  lemma SpellsLower(b: Bytes, p: nat, s: Bytes)
    ensures Spells(b, p, s) <==> p + |s| <= |b| && Lowercase(b[p..p + |s|]) == s
  {
    if p + |s| <= |b| {
      var w := b[p..p + |s|];
      assert forall i :: 0 <= i < |s| ==> Lowercase(w)[i] == Lower(b[p + i]);
    }
  }

  /** Wire bytes that spell a valid name in any letter case are read as that name. */
  lemma {:induction false} SpellingReads(b: Bytes, p: nat, ls: seq<Text>, wireLen: nat)
    requires Spells(b, p, Encode(ls))
    requires (forall k :: 0 <= k < |ls| ==> GoodLabel(ls[k])) && wireLen + Cost(ls) <= MAX_NAME_WIRE_LEN
    ensures ReadLabels(b, p, wireLen) == Ok(WireName(ls, p + |Encode(ls)|))
    decreases |ls|
  {
    hide ReadLabels, ValidateLabel, Lowercase, GoodLabel;
    if ls == [] {
      assert Lower(b[p + 0]) == Encode(ls)[0];
      ReadRoot(b, p, wireLen);
    } else {
      var l, rest := ls[0], ls[1..];
      GoodLabelLength(l);
      SpellsConcat(b, p, [|l|] + l, Encode(rest));
      SpellsConcat(b, p, [|l|], l);
      assert Lower(b[p + 0]) == [|l|][0];
      SpellsLower(b, p + 1, l);
      ValidateExact(b[p + 1..p + 1 + |l|]);
      SpellingReads(b, p + 1 + |l|, rest, wireLen + 1 + |l|);
      ReadStepBack(b, p, wireLen);
      assert ls == [l] + rest;
    }
  }

  lemma GoodLabelLength(l: Text)
    requires GoodLabel(l)
    ensures 1 <= |l| <= MAX_LABEL_LEN
  {
  }

  lemma {:induction false} EncodeIsLower(ls: seq<Text>)
    requires forall k :: 0 <= k < |ls| ==> GoodLabel(ls[k])
    ensures Lowercase(Encode(ls)) == Encode(ls)
    decreases |ls|
  {
    if ls != [] {
      var l := ls[0];
      EncodeIsLower(ls[1..]);
      GoodLabelValid(l);
      LowercaseConcat([|l|] + l, Encode(ls[1..]));
      LowercaseConcat([|l|], l);
    }
  }

  /** A written name is read back whole from any message, in at most 255 bytes. */
  lemma WriteThenRead(b: Bytes, p: nat, n: Text)
    requires IsName(n) && At(b, p, Encode(Labels(n)))
    ensures ReadLabels(b, p, 1) == Ok(WireName(Labels(n), p + |Encode(Labels(n))|))
    ensures Canonical(Labels(n)) == n && |Encode(Labels(n))| <= MAX_NAME_WIRE_LEN
  {
    hide ReadLabels, Encode, Labels, Lowercase, GoodLabel, Dotted;
    EncodeIsLower(Labels(n));
    SpellsLower(b, p, Encode(Labels(n)));
    SpellingReads(b, p, Labels(n), 1);
    EncodeLength(Labels(n));
  }

  /**
   * `read_question` accepts exactly the bytes that, letter case aside, are the wire form of a
   * valid name, and returns that name.
   */
  lemma ReadExact(b: Bytes, p: nat, w: WireName)
    ensures ReadLabels(b, p, 1) == Ok(w) <==>
              GoodLabels(w.labels) && w.end == p + |Encode(w.labels)| && Spells(b, p, Encode(w.labels))
  {
    hide ReadLabels, Lowercase, GoodLabel;
    EncodeLength(w.labels);
    SpellsLower(b, p, Encode(w.labels));
    if ReadLabels(b, p, 1) == Ok(w) {
      ReadIsGood(b, p, 1);
      assert w.labels == [] ==> Cost(w.labels) == 0;
      ReadThenWrite(b, p, 1);
    }
    if GoodLabels(w.labels) && w.end == p + |Encode(w.labels)| && Spells(b, p, Encode(w.labels)) {
      SpellingReads(b, p, w.labels, 1);
    }
  }

  lemma EncodeNil()
    ensures Encode([]) == [0]
  {
  }

  lemma EncodeRead(c: byte, l: Text, ls: seq<Text>)
    requires c == |l|
    ensures Encode([Lowercase(l)] + ls) == [c] + Lowercase(l) + Encode(ls)
  {
    hide Lowercase;
    LowercaseLength(l);
    assert ([Lowercase(l)] + ls)[1..] == ls;
  }

  lemma LowercaseRead(c: byte, l: Text, t: Text)
    requires c <= MAX_LABEL_LEN
    ensures Lowercase([c] + l + t) == [c] + Lowercase(l) + Lowercase(t)
  {
    hide Lowercase;
    LengthByteLowers(c);
    LowercaseConcat([c] + l, t);
    LowercaseConcat([c], l);
  }

  /** Whatever is read, writing it gives the consumed bytes in lower case. */
  lemma {:induction false} ReadThenWrite(b: Bytes, p: nat, wireLen: nat)
    requires ReadLabels(b, p, wireLen).Ok?
    ensures var w := ReadLabels(b, p, wireLen).value;
            p <= w.end <= |b| && Encode(w.labels) == Lowercase(b[p..w.end])
    decreases SatSub(|b|, p)
  {
    hide ReadLabels, GoodLabel, Lowercase, Encode, Cost;
    ReadStep(b, p, wireLen);
    ReadIsGood(b, p, wireLen);
    var w := ReadLabels(b, p, wireLen).value;
    if b[p] == 0 {
      assert b[p..p + 1] == [0];
      LengthByteLowers(0);
      EncodeNil();
    } else {
      var c: nat := b[p];
      var l := b[p + 1..p + 1 + c];
      ReadThenWrite(b, p + 1 + c, wireLen + 1 + c);
      var rest := ReadLabels(b, p + 1 + c, wireLen + 1 + c).value;
      assert b[p..w.end] == [b[p]] + l + b[p + 1 + c..w.end];
      LowercaseRead(b[p], l, b[p + 1 + c..w.end]);
      EncodeRead(b[p], l, rest.labels);
    }
  }

  /** Only the bytes of the name matter to `read_question`. */
  lemma {:induction false} ReadLocal(b: Bytes, c: Bytes, p: nat, wireLen: nat)
    requires ReadLabels(b, p, wireLen).Ok? && Agree(b, c, p, ReadLabels(b, p, wireLen).value.end)
    ensures ReadLabels(c, p, wireLen) == ReadLabels(b, p, wireLen)
    decreases SatSub(|b|, p)
  {
    hide ReadLabels, ValidateLabel, Lowercase;
    ReadStep(b, p, wireLen);
    ReadIsGood(b, p, wireLen);
    assert b[p] == c[p];
    if b[p] == 0 {
      ReadRoot(c, p, wireLen);
    } else {
      var n: nat := b[p];
      ReadIsGood(b, p + 1 + n, wireLen + 1 + n);
      assert b[p + 1..p + 1 + n] == c[p + 1..p + 1 + n];
      ReadLocal(b, c, p + 1 + n, wireLen + 1 + n);
      ReadStepBack(c, p, wireLen);
    }
  }

  // The two walkers.

  /** The pointer-free walk over the labels of a name that starts at `p`. */
  function PlainWalk(p: nat, ls: seq<Text>): Walk
    decreases |ls|
  {
    if ls == [] then Root(p) else Label(p, |ls[0]|, PlainWalk(p + 1 + |ls[0]|, ls[1..]))
  }

  lemma {:induction false} ReadIsPlainWalk(b: Bytes, p: nat, wireLen: nat)
    requires ReadLabels(b, p, wireLen).Ok?
    ensures var r := ReadLabels(b, p, wireLen).value; var w := PlainWalk(p, r.labels);
            IsWalk(b, p, w) && w.End() == r.end && w.Hops() == 0 && w.LabelBytes() <= Cost(r.labels)
    decreases SatSub(|b|, p)
  {
    hide ReadLabels, ValidateLabel, GoodLabel, Lowercase;
    ReadStep(b, p, wireLen);
    if b[p] != 0 {
      var c: nat := b[p];
      LowercaseLength(b[p + 1..p + 1 + c]);
      ReadIsPlainWalk(b, p + 1 + c, wireLen + 1 + c);
      var w, rest := ReadLabels(b, p, wireLen).value, ReadLabels(b, p + 1 + c, wireLen + 1 + c).value;
      assert w.labels[1..] == rest.labels;
    }
  }

  /**
   * The two walkers agree: where `read_question` accepts a name, `skip_rr` accepts it too and
   * stops at the same byte, even when it got there through as many as 16 pointers.
   */
  lemma WalkersAgree(b: Bytes, p: nat, hops: nat)
    requires ReadLabels(b, p, 1).Ok? && hops <= MAX_SKIP_HOPS
    ensures var r := ReadLabels(b, p, 1).value;
            Follow(b, p, hops, 0) == Ok(PlainWalk(p, r.labels)) && PlainWalk(p, r.labels).End() == r.end
  {
    var r := ReadLabels(b, p, 1).value;
    ReadIsGood(b, p, 1);
    ReadIsPlainWalk(b, p, 1);
    assert r.labels == [] ==> Cost(r.labels) == 0;
    WalkIsFollowed(b, p, PlainWalk(p, r.labels), hops, 0);
  }

  /** The walk follows no pointer, and the content of each of its labels is valid. */
  ghost predicate SoundLabels(b: Bytes, w: Walk)
    decreases w
  {
    match w
    case Root(_) => true
    case Label(at, len, next) =>
      at + 1 + len <= |b| && ValidateLabel(b[at + 1..at + 1 + len]).Ok? && SoundLabels(b, next)
    case Jump(_, _, _) => false
  }

  lemma {:induction false} PlainIsSound(b: Bytes, p: nat, wireLen: nat)
    requires ReadLabels(b, p, wireLen).Ok?
    ensures var labels := ReadLabels(b, p, wireLen).value.labels;
            SoundLabels(b, PlainWalk(p, labels)) && PlainWalk(p, labels).WireLength() == 1 + Cost(labels)
    decreases SatSub(|b|, p)
  {
    hide ReadLabels, ValidateLabel, Lowercase;
    ReadStep(b, p, wireLen);
    if b[p] != 0 {
      var c: nat := b[p];
      LowercaseLength(b[p + 1..p + 1 + c]);
      PlainIsSound(b, p + 1 + c, wireLen + 1 + c);
      var labels, rest := ReadLabels(b, p, wireLen).value.labels,
          ReadLabels(b, p + 1 + c, wireLen + 1 + c).value.labels;
      assert labels[1..] == rest;
    }
  }

  lemma {:induction false} SoundWalkReads(b: Bytes, p: nat, w: Walk, wireLen: nat)
    requires IsWalk(b, p, w) && SoundLabels(b, w) && wireLen + w.WireLength() <= MAX_NAME_WIRE_LEN + 1
    ensures ReadLabels(b, p, wireLen).Ok?
    decreases w
  {
    hide ValidateLabel, Lowercase;
    if w.Label? {
      SoundWalkReads(b, p + 1 + w.len, w.next, wireLen + 1 + w.len);
      assert w.next.WireLength() >= 1 by {
        WireLengthExact(b, p + 1 + w.len, w.next);
      }
    }
  }

  /**
   * What the question reader accepts, in terms of the skipping walker: exactly the names that are
   * skipped without a pointer, whose labels are valid, and whose wire form has at most 255 bytes.
   */
  lemma ReadExactBySkip(b: Bytes, p: nat)
    ensures ReadLabels(b, p, 1).Ok? <==>
            Skip(b, p).Ok? && SoundLabels(b, Skip(b, p).value) && Skip(b, p).value.WireLength() <= MAX_NAME_WIRE_LEN
  {
    hide ReadLabels, SoundLabels, PlainWalk;
    if ReadLabels(b, p, 1).Ok? {
      WalkersAgree(b, p, 0);
      PlainIsSound(b, p, 1);
      ReadIsGood(b, p, 1);
      var labels := ReadLabels(b, p, 1).value.labels;
      assert labels == [] ==> Cost(labels) == 0;
    }
    if Skip(b, p).Ok? && SoundLabels(b, Skip(b, p).value) && Skip(b, p).value.WireLength() <= MAX_NAME_WIRE_LEN {
      SkipExact(b, p, Skip(b, p).value);
      SoundWalkReads(b, p, Skip(b, p).value, 1);
    }
  }
}
