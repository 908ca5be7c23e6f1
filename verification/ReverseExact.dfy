/** Which names `reverse_addr` maps to an address: exactly one for IPv6, the plain numerals for IPv4. */
module ReverseExact {
  import opened Wire
  import opened Names
  import opened NameText
  import opened Reverse
  import opened Headers

  /** The bytes that occur in a valid name's text. */
  predicate NameByte(c: byte) {
    c == DOT || (LabelByte(c) && Lower(c) == c)
  }

  ghost predicate NameBytes(s: Text) {
    forall i :: 0 <= i < |s| ==> NameByte(s[i])
  }

  lemma {:induction false} DottedBytes(ls: seq<Text>)
    requires forall k :: 0 <= k < |ls| ==> GoodLabel(ls[k])
    ensures NameBytes(Dotted(ls))
    decreases |ls|
  {
    if ls != [] {
      DottedBytes(ls[1..]);
      assert GoodLabel(ls[0]);
    }
  }

  lemma {:induction false} SplitBytes(s: Text)
    requires NameBytes(s)
    ensures forall k :: 0 <= k < |Split(s)| ==> NameBytes(Split(s)[k])
    decreases |s|
  {
    hide NameByte;
    var d := FirstDot(s);
    if d < |s| {
      SplitBytes(s[d + 1..]);
      assert Split(s) == [s[..d]] + Split(s[d + 1..]);
    }
  }

  lemma JoinCons(l: Text, ls: seq<Text>)
    requires ls != []
    ensures Join([l] + ls) == l + [DOT] + Join(ls)
  {
    assert ([l] + ls)[1..] == ls;
  }

  lemma {:induction false} JoinSplit(s: Text)
    ensures Split(s) != [] && Join(Split(s)) == s
    decreases |s|
  {
    hide FirstDot;
    var d := FirstDot(s);
    if d < |s| {
      JoinSplit(s[d + 1..]);
      JoinCons(s[..d], Split(s[d + 1..]));
      assert s == s[..d] + [DOT] + s[d + 1..];
    } else {
      assert s[..d] == s;
    }
  }

  /** The part of a reverse name before its zone. */
  function HostText(n: Text, suffix: Text): Text
    requires |n| > |suffix|
  {
    n[..|n| - 1 - |suffix|]
  }

  lemma HostParts(n: Text, suffix: Text)
    requires IsName(n) && |n| > |suffix| && EndsWith(n[..|n| - 1], suffix)
    ensures var t := HostText(n, suffix);
            && n == t + suffix + [DOT] && Split(t) != [] && Join(Split(t)) == t
            && forall k :: 0 <= k < |Split(t)| ==> NameBytes(Split(t)[k])
  {
    hide Split, IsName, Join, NameByte;
    var t := HostText(n, suffix);
    NameEndsInDot(n);
    assert n[..|n| - 1] == t + suffix;
    assert NameBytes(t);
    SplitBytes(t);
    JoinSplit(t);
  }

  lemma NameEndsInDot(n: Text)
    requires IsName(n)
    ensures n != [] && n[|n| - 1] == DOT && NameBytes(n)
  {
    hide Split;
    DottedBytes(Labels(n));
    if Labels(n) != [] {
      GoodLabelNoDots(Labels(n));
      SplitJoin(Labels(n));
    }
  }

  lemma NibbleSpelling(part: Text)
    requires IsNibble(part) && NameBytes(part)
    ensures part == [Hex(Nibble(part))]
  {
  }

  lemma OctetSpelled(hi: Text, lo: Text, x: byte)
    requires IsNibble(hi) && IsNibble(lo) && NameBytes(hi) && NameBytes(lo)
    requires Pack(Nibble(hi), Nibble(lo)) == x
    ensures hi == [Hex(x / 16)] && lo == [Hex(x % 16)]
  {
    hide Pack, Hex, NameBytes;
    NibbleSpelling(hi);
    NibbleSpelling(lo);
    PackSplits(Nibble(hi), Nibble(lo));
  }

  lemma PackSplits(h: byte, l: byte)
    requires h < 16 && l < 16
    ensures Pack(h, l) / 16 == h && Pack(h, l) % 16 == l
  {
  }

  lemma NibblesSpelled(parts: seq<Text>, o: seq<byte>)
    requires |o| == 16 && Octets16(parts) == Some(V6(o))
    requires forall k :: 0 <= k < |parts| ==> NameBytes(parts[k])
    ensures parts == NibbleLabels(o)
  {
    hide Hex, IsNibble, Nibble, NibbleLabels, NameBytes, Pack;
    NibbleLabelsAt(o);
    forall k | 0 <= k < 32 ensures parts[k] == NibbleLabels(o)[k] {
      var i := 15 - k / 2;
      assert o[i] == Pack(Nibble(parts[31 - 2 * i]), Nibble(parts[30 - 2 * i]));
      OctetSpelled(parts[31 - 2 * i], parts[30 - 2 * i], o[i]);
      assert 2 * (16 - 1 - i) == 30 - 2 * i;
    }
  }

  /** For IPv6 the reverse name is unique: `reverse_addr` and `reverse_query` are inverse both ways. */
  lemma ReverseAddr6Exact(n: Text, o: seq<byte>)
    requires IsName(n) && |o| == 16
    ensures ReverseAddr(n) == Some(V6(o)) <==> n == Dotted(ReverseLabels(V6(o)))
  {
    hide IsName, Split, Octets16, Octets4, Dotted, ReverseLabels, HostLabels, Join;
    if ReverseAddr(n) == Some(V6(o)) {
      V4OrV6(n);
      HostParts(n, IP6_SUFFIX);
      NibblesSpelled(Split(HostText(n, IP6_SUFFIX)), o);
      HostOfV6(o);
      ReverseText(V6(o));
    }
    if n == Dotted(ReverseLabels(V6(o))) {
      ReverseRoundTrip(V6(o));
    }
  }

  lemma HostOfV6(o: seq<byte>)
    requires |o| == 16
    ensures HostLabels(V6(o)) == NibbleLabels(o)
  {
  }

  /** Which zone a recognized name lies in, and where its address comes from. */
  lemma V4OrV6(n: Text)
    requires ReverseAddr(n).Some?
    ensures ReverseAddr(n).value.V4? ==>
              |n| > |IN_ADDR_SUFFIX| && EndsWith(n[..|n| - 1], IN_ADDR_SUFFIX) &&
              Octets4(Split(HostText(n, IN_ADDR_SUFFIX))) == ReverseAddr(n)
    ensures ReverseAddr(n).value.V6? ==>
              |n| > |IP6_SUFFIX| && EndsWith(n[..|n| - 1], IP6_SUFFIX) &&
              Octets16(Split(HostText(n, IP6_SUFFIX))) == ReverseAddr(n)
  {
    hide Split;
    var body := n[..|n| - 1];
    if EndsWith(body, IN_ADDR_SUFFIX) {
      assert body[..|body| - |IN_ADDR_SUFFIX|] == HostText(n, IN_ADDR_SUFFIX);
    } else {
      assert body[..|body| - |IP6_SUFFIX|] == HostText(n, IP6_SUFFIX);
    }
  }

  // Decimal numerals.

  /** A numeral without a redundant leading zero. */
  predicate Plain(s: Text) {
    |s| > 1 ==> s[0] != 48
  }

  function DigitValue(c: byte): int {
    c as int - 48
  }

  /** A plain numeral has at most three digits, and its value is what they say. */
  lemma NumeralShape(s: Text, v: byte)
    requires ParseU8(s) == Some(v) && s != [] && s[0] != 43 && Plain(s)
    ensures 1 <= |s| <= 3 && forall i :: 0 <= i < |s| ==> 0 <= DigitValue(s[i]) <= 9
    ensures |s| == 1 ==> v == DigitValue(s[0])
    ensures |s| == 2 ==> v == DigitValue(s[0]) * 10 + DigitValue(s[1])
    ensures |s| == 3 ==> v == (DigitValue(s[0]) * 10 + DigitValue(s[1])) * 10 + DigitValue(s[2])
  {
    var d0: nat := s[0] - 48;
    var t1 := s[1..];
    assert ParseDigits(t1, d0) == Some(v);
    if |s| > 1 {
      var d1: nat := t1[0] - 48;
      var t2 := t1[1..];
      assert t1[0] == s[1] && ParseDigits(t2, d0 * 10 + d1) == Some(v);
      if |s| > 2 {
        var d2: nat := t2[0] - 48;
        var t3 := t2[1..];
        assert t2[0] == s[2] && ParseDigits(t3, (d0 * 10 + d1) * 10 + d2) == Some(v);
      }
    }
  }

  lemma NumeralUnique(s: Text, v: byte)
    requires ParseU8(s) == Some(v) && NameBytes(s)
    ensures Plain(s) <==> s == Dec(v)
  {
    hide ParseU8;
    assert s != [] && s[0] != 43 by {
      EmptyIsNoNumeral();
      assert s != [] ==> NameByte(s[0]);
    }
    if Plain(s) {
      NumeralShape(s, v);
      if |s| == 2 {
        DecOfDigits(0, DigitValue(s[0]), DigitValue(s[1]), v);
      } else if |s| == 3 {
        DecOfDigits(DigitValue(s[0]), DigitValue(s[1]), DigitValue(s[2]), v);
      }
    }
  }

  lemma DecOfDigits(a: int, b: int, c: int, v: byte)
    requires 0 <= a <= 9 && 0 <= b <= 9 && 0 <= c <= 9 && v == (a * 10 + b) * 10 + c
    ensures v / 100 == a && v / 10 == a * 10 + b && v / 10 % 10 == b && v % 10 == c
  {
  }

  lemma EmptyIsNoNumeral()
    ensures ParseU8([]).None?
  {
  }

  lemma OctetsSpelled(parts: seq<Text>, o: seq<byte>)
    requires |o| == 4 && Octets4(parts) == Some(V4(o))
    requires forall k :: 0 <= k < |parts| ==> NameBytes(parts[k])
    ensures (forall k :: 0 <= k < |parts| ==> Plain(parts[k])) <==> parts == HostLabels(V4(o))
  {
    hide ParseU8, Dec, Plain, NameBytes;
    assert o == [o[0], o[1], o[2], o[3]];
    forall k | 0 <= k < 4 ensures Plain(parts[k]) <==> parts[k] == Dec(o[3 - k]) {
      NumeralUnique(parts[k], o[3 - k]);
    }
    if forall k :: 0 <= k < |parts| ==> Plain(parts[k]) {
      assert parts == [parts[0], parts[1], parts[2], parts[3]];
    }
  }

  /**
   * For IPv4 several names map to one address ("010" and "10" are the same octet); a recognized
   * name is the one `reverse_query` builds if and only if no octet label has a leading zero.
   */
  lemma ReverseAddr4Exact(n: Text, o: seq<byte>)
    requires IsName(n) && |o| == 4 && ReverseAddr(n) == Some(V4(o))
    ensures |n| > |IN_ADDR_SUFFIX|
    ensures n == Dotted(ReverseLabels(V4(o))) <==>
              forall k :: 0 <= k < |Split(HostText(n, IN_ADDR_SUFFIX))| ==> Plain(Split(HostText(n, IN_ADDR_SUFFIX))[k])
  {
    hide IsName, Split, Octets16, Octets4, Dotted, ReverseLabels, HostLabels, Join, Plain;
    V4OrV6(n);
    HostParts(n, IN_ADDR_SUFFIX);
    var t := HostText(n, IN_ADDR_SUFFIX);
    OctetsSpelled(Split(t), o);
    ReverseText(V4(o));
    var canonical := Join(HostLabels(V4(o)));
    if n == Dotted(ReverseLabels(V4(o))) {
      assert t == canonical by {
        assert t == (t + IN_ADDR_SUFFIX + [DOT])[..|n| - 1 - |IN_ADDR_SUFFIX|];
        assert canonical == (canonical + IN_ADDR_SUFFIX + [DOT])[..|n| - 1 - |IN_ADDR_SUFFIX|];
      }
    }
  }

  // Every numeral and every IPv4 name that is recognized.

  ghost predicate AllDigits(s: Text) {
    forall i :: 0 <= i < |s| ==> '0' <= s[i] as char <= '9'
  }

  /** The value of a digit string, read from its last digit. */
  ghost function DecimalValue(s: Text): int {
    if s == [] then 0 else DecimalValue(s[..|s| - 1]) * 10 + (s[|s| - 1] - '0' as int)
  }

  lemma {:induction false} DecimalNatural(s: Text)
    requires AllDigits(s)
    ensures DecimalValue(s) >= 0
    decreases |s|
  {
    if s != [] {
      DecimalNatural(s[..|s| - 1]);
    }
  }

  lemma {:induction false} ParseSnoc(s: Text, d: byte, acc: nat)
    requires acc < 256
    ensures ParseDigits(s + [d], acc) ==
            match ParseDigits(s, acc)
            case None => None
            case Some(v) =>
              var next := v as int * 10 + (d - 48);
              if '0' <= d as char <= '9' && next <= 255 then Some(next) else None
    decreases |s|
  {
    if s == [] {
      assert [] + [d] == [d] && [d][1..] == [];
    } else {
      assert (s + [d])[0] == s[0] && (s + [d])[1..] == s[1..] + [d];
      if 48 <= s[0] <= 57 && acc * 10 + (s[0] - 48) <= 255 {
        ParseSnoc(s[1..], d, acc * 10 + (s[0] - 48));
      }
    }
  }

  lemma {:induction false} DigitsExact(s: Text, v: byte)
    ensures ParseDigits(s, 0) == Some(v) <==> AllDigits(s) && DecimalValue(s) == v
    decreases |s|
  {
    if s == [] {
      NoDigitsLeft(0);
    } else {
      var init, d := s[..|s| - 1], s[|s| - 1];
      assert s == init + [d];
      ParseSnoc(init, d, 0);
      assert AllDigits(s) <==> AllDigits(init) && '0' <= d as char <= '9';
      if ParseDigits(init, 0).Some? {
        DigitsExact(init, ParseDigits(init, 0).value);
      } else if AllDigits(init) {
        DecimalNatural(init);
        if DecimalValue(init) < 256 {
          DigitsExact(init, DecimalValue(init));
        }
      }
    }
  }

  /** An octet is any digit string of value at most 255, leading zeros and one plus sign allowed. */
  lemma NumeralExact(s: Text, v: byte)
    ensures ParseU8(s) == Some(v) <==>
              var digits := if s != [] && s[0] as char == '+' then s[1..] else s;
              digits != [] && AllDigits(digits) && DecimalValue(digits) == v
  {
    DigitsExact(if s != [] && s[0] == 43 then s[1..] else s, v);
  }

  /** Four octets, the last one first, in the zone `in-addr.arpa`: leading zeros are no bar. */
  lemma ReverseAddr4Names(parts: seq<Text>, o: seq<byte>)
    requires |parts| == 4 && |o| == 4 && forall k :: 0 <= k < 4 ==> ParseU8(parts[k]) == Some(o[3 - k])
    ensures ReverseAddr(Join(parts) + IN_ADDR_SUFFIX + [DOT]) == Some(V4(o))
  {
    hide ParseU8, Split, Join;
    forall k | 0 <= k < 4 ensures DOT !in parts[k] {
      NumeralExact(parts[k], o[3 - k]);
      assert forall i :: 0 <= i < |parts[k]| ==> parts[k][i] as char != '.' by {
        assert forall i :: 1 <= i < |parts[k]| ==> parts[k][1..][i - 1] == parts[k][i];
      }
    }
    SplitJoinAny(parts);
    var body := Join(parts) + IN_ADDR_SUFFIX;
    assert (body + [DOT])[..|body|] == body;
    assert body[|body| - |IN_ADDR_SUFFIX|..] == IN_ADDR_SUFFIX && body[..|body| - |IN_ADDR_SUFFIX|] == Join(parts);
    assert [o[0], o[1], o[2], o[3]] == o;
  }

  ghost function Ascii(s: string): Text
    requires forall i :: 0 <= i < |s| ==> s[i] < 128 as char
  {
    seq(|s|, i requires 0 <= i < |s| => s[i] as int)
  }

  /** The texts and the digits, in characters. */
  lemma ZoneTexts()
    ensures IN_ADDR_SUFFIX == Ascii(".in-addr.arpa") && IP6_SUFFIX == Ascii(".ip6.arpa")
  {
  }

  lemma HexDigits(n: nibble, c: byte)
    ensures Hex(n) as char == "0123456789abcdef"[n]
    ensures HexValue(c) == Some(n) <==> c as char == "0123456789abcdef"[n] || c as char == "0123456789ABCDEF"[n]
  {
  }

  /** The header of the PTR datagram byte by byte: id 0, RD alone, one question. */
  lemma PtrDatagramBytes(name: Text)
    ensures |PtrDatagram(name)| >= 12 && PtrDatagram(name)[..12] == [0, 0, 1, 0, 0, 1, 0, 0, 0, 0, 0, 0]
  {
    var h := NewHeader(0).(qdcount := 1).WithFlag(FLAG_RD, true);
    assert FlagsWord(h.flags) == 0x0100;
    assert h.Wire() == [0, 0, 1, 0, 0, 1, 0, 0, 0, 0, 0, 0];
    assert PtrDatagram(name)[..12] == h.Wire();
  }
}
