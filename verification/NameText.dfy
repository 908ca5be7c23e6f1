/** `Name::from_str`: parsing and normalizing the text form. */
module NameText {
  import opened Wire
  import opened NameSkip
  import opened Names
  import opened NameLaws

  function StripDot(s: Text): Text {
    if s != [] && s[|s| - 1] == DOT then s[..|s| - 1] else s
  }

  /** The label loop of `from_str`, with `wireLen` wire bytes already used. */
  function CheckLabels(parts: seq<Text>, wireLen: nat): Result<seq<Text>> {
    if parts == [] then Ok([])
    else if parts[0] == [] then Err(EmptyLabel)
    else if |parts[0]| > MAX_LABEL_LEN then Err(LabelTooLong(|parts[0]|))
    else
      var _ :- ValidateLabel(parts[0]);
      var used := wireLen + 1 + |parts[0]|;
      if used > MAX_NAME_WIRE_LEN then Err(NameTooLong(used)) else
      var rest :- CheckLabels(parts[1..], used);
      Ok([Lowercase(parts[0])] + rest)
  }

  function FromStr(s: Text): Result<Text> {
    if s == [DOT] || s == [] then Ok([DOT]) else
    var ls :- CheckLabels(Split(StripDot(s)), 1);
    Ok(Dotted(ls))
  }

  method ParseName(s: Text) returns (r: Result<Text>)
    ensures r == FromStr(s)
  {
    hide ValidateLabel, Lowercase, Split, Dotted, StripDot;
    DottedNil();
    if s == [DOT] || s == [] {
      return Ok([DOT]);
    }
    var parts := Split(StripDot(s));
    var normalized: Text := [];
    var wireLen: nat := 1;
    ghost var whole := CheckLabels(parts, 1);
    ghost var done: seq<Text> := [];
    assert parts[0..] == parts;
    for i := 0 to |parts|
      invariant normalized == Dotted(done)
      invariant var rest := CheckLabels(parts[i..], wireLen);
                && (whole.Ok? <==> rest.Ok?)
                && (whole.Err? ==> whole.error == rest.error)
                && (whole.Ok? ==> whole.value == done + rest.value)
    {
      var part := parts[i];
      assert parts[i..][0] == part && parts[i..][1..] == parts[i + 1..];
      if part == [] {
        return Err(EmptyLabel);
      }
      if |part| > MAX_LABEL_LEN {
        return Err(LabelTooLong(|part|));
      }
      var _ :- ValidateLabel(part);
      wireLen := wireLen + 1 + |part|;
      if wireLen > MAX_NAME_WIRE_LEN {
        return Err(NameTooLong(wireLen));
      }
      DottedAppend(done, Lowercase(part));
      normalized := normalized + Lowercase(part) + [DOT];
      done := done + [Lowercase(part)];
    }
    assert done + [] == done;
    return Ok(normalized);
  }

  function LowerAll(parts: seq<Text>): seq<Text> {
    seq(|parts|, i requires 0 <= i < |parts| => Lowercase(parts[i]))
  }

  /** `from_str` accepts exactly the dot-separated parts that lower to valid labels within 255 bytes. */
  lemma {:induction false} CheckExact(parts: seq<Text>, wireLen: nat)
    requires wireLen <= MAX_NAME_WIRE_LEN
    ensures CheckLabels(parts, wireLen).Ok? <==>
              (forall k :: 0 <= k < |parts| ==> GoodLabel(Lowercase(parts[k]))) &&
                  wireLen + Cost(parts) <= MAX_NAME_WIRE_LEN
    ensures CheckLabels(parts, wireLen).Ok? ==>
              CheckLabels(parts, wireLen).value == LowerAll(parts) && Cost(LowerAll(parts)) == Cost(parts)
    decreases |parts|
  {
    hide ValidateLabel, GoodLabel, Lowercase;
    if parts != [] {
      var l, rest := parts[0], parts[1..];
      ValidateExact(l);
      LowercaseLength(l);
      if 1 <= |l| <= MAX_LABEL_LEN && ValidateLabel(l).Ok? && wireLen + 1 + |l| <= MAX_NAME_WIRE_LEN {
        CheckExact(rest, wireLen + 1 + |l|);
        assert parts == [l] + rest;
        assert LowerAll(parts) == [Lowercase(l)] + LowerAll(rest);
        assert LowerAll(parts)[1..] == LowerAll(rest);
      }
    }
  }

  lemma {:induction false} SplitNonEmpty(s: Text)
    ensures |Split(s)| >= 1
    decreases |s|
  {
  }

  /** Every accepted string becomes a valid name in normal form. */
  lemma FromStrIsName(s: Text)
    requires FromStr(s).Ok?
    ensures IsName(FromStr(s).value)
  {
    RootIsName();
    if s != [DOT] && s != [] {
      var parts := Split(StripDot(s));
      SplitNonEmpty(StripDot(s));
      CheckExact(parts, 1);
      CanonicalIsName(LowerAll(parts));
    }
  }

  // Text round trip.

  function Join(ls: seq<Text>): Text
    requires ls != []
  {
    if |ls| == 1 then ls[0] else ls[0] + [DOT] + Join(ls[1..])
  }

  lemma {:induction false} SplitJoin(ls: seq<Text>)
    requires ls != [] && NoDots(ls)
    ensures Split(Join(ls)) == ls
    ensures Dotted(ls) == Join(ls) + [DOT]
    ensures Join(ls) != [] && Join(ls)[|Join(ls)| - 1] != DOT
    decreases |ls|
  {
    hide Split;
    if |ls| == 1 {
      SplitNone(ls[0]);
      assert ls == [ls[0]] && ls[1..] == [];
    } else {
      SplitJoin(ls[1..]);
      SplitDot(ls[0], Join(ls[1..]));
      assert ls == [ls[0]] + ls[1..];
    }
  }

  /** Joined labels, with or without the final dot, parse to the same normalized name. */
  lemma FromStrOfLabels(ls: seq<Text>)
    requires GoodLabels(ls) && ls != []
    ensures FromStr(Join(ls)) == Ok(Canonical(ls))
    ensures FromStr(Dotted(ls)) == Ok(Canonical(ls))
  {
    hide Split, Lowercase, GoodLabel;
    GoodLabelNoDots(ls);
    SplitJoin(ls);
    var j := Join(ls);
    forall k | 0 <= k < |ls| ensures Lowercase(ls[k]) == ls[k] {
      GoodLabelValid(ls[k]);
    }
    assert LowerAll(ls) == ls;
    CheckExact(ls, 1);
    assert StripDot(j) == j;
    assert StripDot(j + [DOT]) == j;
    assert j + [DOT] != [DOT] && j != [DOT];
  }

  /** Displaying a name and parsing the result gives the same name. */
  lemma DisplayRoundTrip(n: Text)
    requires IsName(n)
    ensures FromStr(n) == Ok(n)
  {
    if Labels(n) != [] {
      FromStrOfLabels(Labels(n));
    }
  }

  // `from_str` on every text, as a list of parts joined with dots.

  ghost predicate DotFree(ls: seq<Text>) {
    forall k :: 0 <= k < |ls| ==> DOT !in ls[k]
  }

  lemma {:induction false} SplitJoinAny(ls: seq<Text>)
    requires ls != [] && DotFree(ls)
    ensures Split(Join(ls)) == ls
    ensures ls[|ls| - 1] != [] ==> Join(ls) != [] && Join(ls)[|Join(ls)| - 1] != DOT
    decreases |ls|
  {
    hide Split;
    if |ls| == 1 {
      SplitNone(ls[0]);
    } else {
      SplitJoinAny(ls[1..]);
      SplitDot(ls[0], Join(ls[1..]));
      assert ls == [ls[0]] + ls[1..];
    }
  }

  /**
   * A text is accepted, with or without a final dot, if and only if its parts in lower case are
   * good labels that fit the wire; the name is those labels in lower case. Upper case is no bar.
   */
  lemma FromStrExact(ls: seq<Text>)
    requires ls != [] && DotFree(ls) && Join(ls) != []
    ensures var r := FromStr(Join(ls) + [DOT]);
            (r.Ok? <==> GoodLabels(LowerAll(ls))) && (r.Ok? ==> r.value == Canonical(LowerAll(ls)))
    ensures ls[|ls| - 1] != [] ==> FromStr(Join(ls)) == FromStr(Join(ls) + [DOT])
  {
    hide GoodLabel, GoodLabels, Split, Lowercase, LowerAll, CheckLabels, Join, Cost, Dotted;
    var s := Join(ls) + [DOT];
    SplitJoinAny(ls);
    CheckExact(ls, 1);
    LowersAreGood(ls);
    assert StripDot(s) == Join(ls);
    assert |LowerAll(ls)| == |ls| by {
      LowerAllLength(ls);
    }
  }

  lemma LowerAllLength(ls: seq<Text>)
    ensures |LowerAll(ls)| == |ls|
  {
  }

  lemma LowersAreGood(ls: seq<Text>)
    ensures GoodLabels(LowerAll(ls)) <==>
              (forall k :: 0 <= k < |ls| ==> GoodLabel(Lowercase(ls[k]))) && 1 + Cost(ls) <= MAX_NAME_WIRE_LEN
  {
    hide GoodLabel, Lowercase, Cost;
    CostLowers(ls);
    assert forall k :: 0 <= k < |ls| ==> LowerAll(ls)[k] == Lowercase(ls[k]);
  }

  lemma {:induction false} CostLowers(ls: seq<Text>)
    ensures Cost(LowerAll(ls)) == Cost(ls)
    decreases |ls|
  {
    if ls != [] {
      CostLowers(ls[1..]);
      assert LowerAll(ls)[1..] == LowerAll(ls[1..]);
      LowercaseLength(ls[0]);
    }
  }

  lemma FromStrOfRoot()
    ensures FromStr([]) == Ok([DOT]) && FromStr([DOT]) == Ok([DOT])
  {
  }

  /** What is wrong with a part, after `used` bytes of the wire form. */
  ghost function PartFault(l: Text, used: nat): Option<Error> {
    if l == [] then Some(EmptyLabel)
    else if |l| > 63 then Some(LabelTooLong(|l|))
    else if ValidateLabel(l).Err? then Some(ValidateLabel(l).error)
    else if used + 1 + |l| > 255 then Some(NameTooLong(used + 1 + |l|))
    else None
  }

  /** `e` is the fault of the part at `k`, and the parts before it have none. */
  ghost predicate FirstFault(parts: seq<Text>, wireLen: nat, k: int, e: Error) {
    && 0 <= k < |parts| && PartFault(parts[k], wireLen + Cost(parts[..k])) == Some(e)
    && forall j :: 0 <= j < k ==> NoFault(parts, wireLen, j)
  }

  ghost predicate NoFault(parts: seq<Text>, wireLen: nat, j: int)
    requires 0 <= j < |parts|
  {
    PartFault(parts[j], wireLen + Cost(parts[..j])).None?
  }

  /** The error of the label loop is that of the first faulty part. */
  lemma {:induction false} CheckFailsExact(parts: seq<Text>, wireLen: nat, e: Error)
    ensures CheckLabels(parts, wireLen) == Err(e) <==> exists k :: FirstFault(parts, wireLen, k, e)
    decreases |parts|
  {
    hide PartFault, FirstFault;
    if parts != [] {
      var used := wireLen + 1 + |parts[0]|;
      CheckStep(parts, wireLen, e);
      if PartFault(parts[0], wireLen).None? {
        CheckFailsExact(parts[1..], used, e);
        forall k ensures FirstFault(parts[1..], used, k, e) <==> k >= 0 && FirstFault(parts, wireLen, k + 1, e) {
          FaultShifts(parts, wireLen, k, e);
        }
        FaultAtHead(parts, wireLen, e);
        if k :| FirstFault(parts, wireLen, k, e) {
          assert FirstFault(parts[1..], used, k - 1, e);
        }
      } else {
        FaultAtHead(parts, wireLen, e);
      }
    } else {
      assert forall k :: !FirstFault(parts, wireLen, k, e) by {
        NoParts(wireLen, e);
      }
    }
  }

  lemma NoParts(wireLen: nat, e: Error)
    ensures forall k :: !FirstFault([], wireLen, k, e)
  {
  }

  lemma CheckStep(parts: seq<Text>, wireLen: nat, e: Error)
    requires parts != []
    ensures PartFault(parts[0], wireLen).Some? ==>
              CheckLabels(parts, wireLen) == Err(PartFault(parts[0], wireLen).value)
    ensures PartFault(parts[0], wireLen).None? ==>
              (CheckLabels(parts, wireLen) == Err(e) <==> CheckLabels(parts[1..], wireLen + 1 + |parts[0]|) == Err(e))
  {
    hide ValidateLabel, Lowercase;
  }

  lemma FaultAtHead(parts: seq<Text>, wireLen: nat, e: Error)
    requires parts != []
    ensures FirstFault(parts, wireLen, 0, e) <==> PartFault(parts[0], wireLen) == Some(e)
    ensures PartFault(parts[0], wireLen).Some? ==> forall k :: FirstFault(parts, wireLen, k, e) ==> k == 0
    ensures forall k :: FirstFault(parts, wireLen, k, e) ==> k >= 0
  {
    hide PartFault;
    assert parts[..0] == [];
    assert NoFault(parts, wireLen, 0) <==> PartFault(parts[0], wireLen).None?;
  }

  lemma FaultShifts(parts: seq<Text>, wireLen: nat, k: int, e: Error)
    requires parts != [] && PartFault(parts[0], wireLen).None?
    ensures FirstFault(parts[1..], wireLen + 1 + |parts[0]|, k, e) <==> k >= 0 && FirstFault(parts, wireLen, k + 1, e)
  {
    hide PartFault, Cost;
    var rest, used := parts[1..], wireLen + 1 + |parts[0]|;
    forall j | 0 <= j < |rest|
      ensures used + Cost(rest[..j]) == wireLen + Cost(parts[..j + 1]) && rest[j] == parts[j + 1]
      ensures NoFault(rest, used, j) <==> NoFault(parts, wireLen, j + 1)
    {
      CostShifts(parts, j);
    }
    assert NoFault(parts, wireLen, 0) by {
      CostNil();
      assert parts[..0] == [];
    }
    if k >= 0 && FirstFault(parts, wireLen, k + 1, e) {
      forall j | 0 <= j < k ensures NoFault(rest, used, j) {
        assert NoFault(parts, wireLen, j + 1);
      }
    }
    if FirstFault(rest, used, k, e) {
      forall j | 0 <= j < k + 1 ensures NoFault(parts, wireLen, j) {
        if j > 0 {
          assert NoFault(rest, used, j - 1);
        }
      }
    }
  }

  lemma CostNil()
    ensures Cost([]) == 0
  {
  }

  lemma CostShifts(parts: seq<Text>, j: nat)
    requires j < |parts| - 1
    ensures Cost(parts[..j + 1]) == 1 + |parts[0]| + Cost(parts[1..][..j])
  {
    assert parts[..j + 1][1..] == parts[1..][..j];
  }
}
