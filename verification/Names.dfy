/** Domain names: the text form, the uncompressed wire form, and the conversions between them. */
module Names {
  import opened Wire
  import opened Cursor
  import opened NameSkip

  /** The UTF-8 bytes of a string; every name the code accepts is ASCII. */
  type Text = Bytes

  const DOT: byte := 46
  const HYPHEN: byte := 45
  const UNDERSCORE: byte := 95

  function Lower(c: byte): byte {
    if 65 <= c <= 90 then c + 32 else c
  }

  function Lowercase(s: Text): Text {
    seq(|s|, i requires 0 <= i < |s| => Lower(s[i]))
  }

  predicate LabelByte(c: byte) {
    48 <= c <= 57 || 65 <= c <= 90 || 97 <= c <= 122 || c == HYPHEN || c == UNDERSCORE
  }

  function FirstBadByte(l: Text): Result<()> {
    if l == [] then Ok(())
    else if !LabelByte(l[0]) then Err(InvalidLabelByte(l[0]))
    else FirstBadByte(l[1..])
  }

  function ValidateLabel(l: Text): Result<()> {
    if l != [] && (l[0] == HYPHEN || l[|l| - 1] == HYPHEN) then Err(InvalidLabelByte(HYPHEN))
    else FirstBadByte(l)
  }

  /** `[..]` of a label that passes validation and is already lowercase. */
  predicate GoodLabel(l: Text) {
    && 1 <= |l| <= MAX_LABEL_LEN
    && l[0] != HYPHEN && l[|l| - 1] != HYPHEN
    && forall i :: 0 <= i < |l| ==> LabelByte(l[i]) && Lower(l[i]) == l[i]
  }

  /** Wire bytes of the labels alone: one length byte each, plus their contents. */
  function Cost(ls: seq<Text>): nat {
    if ls == [] then 0 else 1 + |ls[0]| + Cost(ls[1..])
  }

  predicate GoodLabels(ls: seq<Text>) {
    (forall k :: 0 <= k < |ls| ==> GoodLabel(ls[k])) && 1 + Cost(ls) <= MAX_NAME_WIRE_LEN
  }

  function Dotted(ls: seq<Text>): Text {
    if ls == [] then [] else ls[0] + [DOT] + Dotted(ls[1..])
  }

  /** The normalized text of a label list: every label followed by a dot, or a lone dot. */
  function Canonical(ls: seq<Text>): Text {
    if ls == [] then [DOT] else Dotted(ls)
  }

  // `str::split('.')`, and the labels of a text.

  function FirstDot(s: Text): (d: nat)
    ensures d <= |s| && (forall i :: 0 <= i < d ==> s[i] != DOT) && (d < |s| ==> s[d] == DOT)
  {
    if s == [] || s[0] == DOT then 0 else 1 + FirstDot(s[1..])
  }

  function Split(s: Text): seq<Text>
    decreases |s|
  {
    var d := FirstDot(s);
    if d == |s| then [s] else [s[..d]] + Split(s[d + 1..])
  }

  function NonEmpty(parts: seq<Text>): seq<Text> {
    if parts == [] then []
    else if parts[0] == [] then NonEmpty(parts[1..])
    else [parts[0]] + NonEmpty(parts[1..])
  }

  function Labels(t: Text): seq<Text> {
    NonEmpty(Split(t))
  }

  predicate IsName(t: Text) {
    GoodLabels(Labels(t)) && t == Canonical(Labels(t))
  }

  lemma RootIsName()
    ensures Labels([DOT]) == [] && IsName([DOT])
  {
    assert [DOT][..0] == [] && [DOT][1..] == [];
    var parts: seq<Text> := [[], []];
    assert Split([DOT]) == parts;
    assert parts[1..] == [[]];
  }

  lemma SplitDot(l: Text, t: Text)
    requires DOT !in l
    ensures FirstDot(l + [DOT] + t) == |l|
    ensures Split(l + [DOT] + t) == [l] + Split(t)
  {
    var s := l + [DOT] + t;
    assert s[|l|] == DOT && forall i :: 0 <= i < |l| ==> s[i] == l[i];
    assert s[..|l|] == l && s[|l| + 1..] == t;
  }

  lemma SplitNone(l: Text)
    requires DOT !in l
    ensures Split(l) == [l]
  {
  }

  ghost predicate NoDots(ls: seq<Text>) {
    forall k :: 0 <= k < |ls| ==> DOT !in ls[k] && ls[k] != []
  }

  lemma GoodLabelNoDots(ls: seq<Text>)
    requires forall k :: 0 <= k < |ls| ==> GoodLabel(ls[k])
    ensures NoDots(ls)
  {
    forall k | 0 <= k < |ls| ensures DOT !in ls[k] && ls[k] != [] {
      assert forall i :: 0 <= i < |ls[k]| ==> LabelByte(ls[k][i]);
    }
  }

  lemma {:induction false} SplitDotted(ls: seq<Text>)
    requires NoDots(ls)
    ensures Split(Dotted(ls)) == ls + [[]]
    ensures NonEmpty(Split(Dotted(ls))) == ls
    decreases |ls|
  {
    hide Split, FirstDot;
    if ls == [] {
      SplitNone([]);
      assert ls + [[]] == [[]];
    } else {
      SplitDotted(ls[1..]);
      SplitDot(ls[0], Dotted(ls[1..]));
      assert ls + [[]] == [ls[0]] + (ls[1..] + [[]]);
      assert ls == [ls[0]] + ls[1..];
    }
  }

  /** A label list and its normalized text determine each other. */
  lemma CanonicalLabels(ls: seq<Text>)
    requires NoDots(ls)
    ensures Labels(Canonical(ls)) == ls
  {
    if ls == [] {
      RootIsName();
    } else {
      SplitDotted(ls);
    }
  }

  lemma CanonicalIsName(ls: seq<Text>)
    requires GoodLabels(ls)
    ensures IsName(Canonical(ls)) && Labels(Canonical(ls)) == ls
  {
    GoodLabelNoDots(ls);
    CanonicalLabels(ls);
  }

  lemma {:induction false} DottedAppend(ls: seq<Text>, l: Text)
    ensures Dotted(ls + [l]) == Dotted(ls) + l + [DOT]
    decreases |ls|
  {
    if ls != [] {
      DottedAppend(ls[1..], l);
      assert (ls + [l])[1..] == ls[1..] + [l];
    } else {
      assert ([] + [l])[1..] == [];
    }
  }

  // Reading a question name.

  datatype WireName = WireName(labels: seq<Text>, end: nat)

  /** The loop of `read_question` from `p`, with `wireLen` bytes of the 255 already used. */
  function ReadLabels(b: Bytes, p: nat, wireLen: nat): Result<WireName>
    decreases SatSub(|b|, p)
  {
    var c :- GetU8(b, p);
    if IsPointer(c) then Err(CompressionPointerInQuestion)
    else if c == 0 then Ok(WireName([], p + 1))
    else if c > MAX_LABEL_LEN then Err(LabelTooLong(c))
    else if wireLen + 1 + c > MAX_NAME_WIRE_LEN then Err(NameTooLong(wireLen + 1 + c))
    else
      var l :- GetSlice(b, p + 1, c);
      var _ :- ValidateLabel(l);
      var rest :- ReadLabels(b, p + 1 + c, wireLen + 1 + c);
      Ok(WireName([Lowercase(l)] + rest.labels, rest.end))
  }

  method ReadQuestionName(reader: Reader) returns (r: Result<Text>)
    modifies reader
    ensures var spec := ReadLabels(reader.buf, old(reader.pos), 1);
            if spec.Ok? then r == Ok(Canonical(spec.value.labels)) && reader.pos == spec.value.end
            else r == Err(spec.error)
  {
    hide ValidateLabel, Lowercase, Dotted;
    var normalized: Text := [];
    var wireLen: nat := 1;
    ghost var whole := ReadLabels(reader.buf, reader.pos, 1);
    ghost var done: seq<Text> := [];
    assert normalized == Dotted(done) by {
      DottedNil();
    }
    while true
      invariant normalized == Dotted(done)
      invariant var rest := ReadLabels(reader.buf, reader.pos, wireLen);
                && (whole.Ok? <==> rest.Ok?)
                && (whole.Err? ==> whole.error == rest.error)
                && (whole.Ok? ==> whole.value == WireName(done + rest.value.labels, rest.value.end))
      decreases SatSub(|reader.buf|, reader.pos)
    {
      var lenByte :- reader.ReadU8();
      if IsPointer(lenByte) {
        return Err(CompressionPointerInQuestion);
      }
      var labelLen: nat := lenByte;
      if labelLen == 0 {
        break;
      }
      if labelLen > MAX_LABEL_LEN {
        return Err(LabelTooLong(labelLen));
      }
      wireLen := wireLen + 1 + labelLen;
      if wireLen > MAX_NAME_WIRE_LEN {
        return Err(NameTooLong(wireLen));
      }
      var bytes :- reader.ReadSlice(labelLen);
      var _ :- ValidateLabel(bytes);
      DottedAppend(done, Lowercase(bytes));
      normalized := normalized + Lowercase(bytes) + [DOT];
      done := done + [Lowercase(bytes)];
    }
    assert done + [] == done;
    DottedNonEmpty(done);
    if normalized == [] {
      normalized := [DOT];
    }
    return Ok(normalized);
  }

  lemma DottedNil()
    ensures Dotted([]) == []
  {
  }

  lemma DottedNonEmpty(ls: seq<Text>)
    ensures Dotted(ls) == [] <==> ls == []
  {
  }

  // Writing a name.

  function Encode(ls: seq<Text>): Bytes {
    if ls == [] then [0] else [|ls[0]| % 256] + ls[0] + Encode(ls[1..])
  }

  /** The labels' wire form without the root byte. */
  function EncodeLabels(ls: seq<Text>): Bytes {
    if ls == [] then [] else [|ls[0]| % 256] + ls[0] + EncodeLabels(ls[1..])
  }

  lemma {:induction false} EncodeSplits(ls: seq<Text>)
    ensures Encode(ls) == EncodeLabels(ls) + [0]
    decreases |ls|
  {
    if ls != [] {
      EncodeSplits(ls[1..]);
    }
  }

  method WriteName(name: Text, writer: Writer)
    modifies writer
    ensures writer.buf == old(writer.buf) + Encode(Labels(name))
  {
    var parts := Split(name);
    ghost var start := writer.buf;
    assert parts[0..] == parts;
    for i := 0 to |parts|
      invariant writer.buf + EncodeLabels(NonEmpty(parts[i..])) == start + EncodeLabels(NonEmpty(parts))
    {
      var part := parts[i];
      assert parts[i..][0] == part && parts[i..][1..] == parts[i + 1..];
      if part == [] {
        continue;
      }
      writer.WriteU8(|part| % 256);
      writer.WriteSlice(part);
    }
    assert writer.buf == start + EncodeLabels(Labels(name));
    writer.WriteU8(0);
    EncodeSplits(Labels(name));
  }
}
