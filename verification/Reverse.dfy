/** Reverse-DNS names (section 3.5 of RFC 1035, section 2.5 of RFC 3596) and the PTR query. */
module Reverse {
  import opened Wire
  import opened Cursor
  import opened Headers
  import opened NameSkip
  import opened Names
  import opened NameLaws
  import opened NameText
  import opened Messages

  datatype IpAddr = V4(octets: seq<byte>) | V6(octets: seq<byte>) {
    ghost predicate Valid() {
      |octets| == if V4? then 4 else 16
    }
  }

  /** "in-addr", "ip6" and "arpa". */
  const IN_ADDR: Text := [105, 110, 45, 97, 100, 100, 114]
  const IP6: Text := [105, 112, 54]
  const ARPA: Text := [97, 114, 112, 97]

  const IN_ADDR_SUFFIX: Text := [DOT] + IN_ADDR + [DOT] + ARPA
  const IP6_SUFFIX: Text := [DOT] + IP6 + [DOT] + ARPA

  // Numerals.

  function Dec(x: byte): Text {
    if x < 10 then [48 + x]
    else if x < 100 then [48 + x / 10, 48 + x % 10]
    else [48 + x / 100, 48 + x / 10 % 10, 48 + x % 10]
  }

  function ParseDigits(s: Text, acc: nat): Option<byte>
    requires acc < 256
    decreases |s|
  {
    if s == [] then Some(acc)
    else if !(48 <= s[0] <= 57) || acc * 10 + (s[0] - 48) > 255 then None
    else ParseDigits(s[1..], acc * 10 + (s[0] - 48))
  }

  /** `u8::from_str`: a leading plus sign and leading zeros are accepted. */
  function ParseU8(s: Text): Option<byte> {
    var body := if s != [] && s[0] == 43 then s[1..] else s;
    if body == [] then None else ParseDigits(body, 0)
  }

  type nibble = x: int | 0 <= x < 16

  function Hex(n: nibble): byte {
    if n < 10 then 48 + n else 87 + n
  }

  /** `char::to_digit(16)`. */
  function HexValue(c: byte): Option<nibble> {
    if 48 <= c <= 57 then Some(c - 48)
    else if 97 <= c <= 102 then Some(c - 87)
    else if 65 <= c <= 70 then Some(c - 55)
    else None
  }

  lemma DecRoundTrip(x: byte)
    ensures ParseU8(Dec(x)) == Some(x)
    ensures GoodLabel(Dec(x)) && |Dec(x)| <= 3
  {
    hide ParseDigits, GoodLabel;
    DecIsGood(x);
    NoDigitsLeft(x);
    var units: Text := [48 + x % 10];
    ParseDigit(x / 10, x % 10, []);
    assert units + [] == units;
    if 10 <= x < 100 {
      ParseDigit(0, x / 10, units);
      assert Dec(x) == [48 + x / 10] + units;
    } else if 100 <= x {
      var tens := [48 + x / 10 % 10] + units;
      ParseDigit(x / 100, x / 10 % 10, units);
      ParseDigit(0, x / 100, tens);
      assert Dec(x) == [48 + x / 100] + tens;
    }
  }

  lemma DecIsGood(x: byte)
    ensures GoodLabel(Dec(x)) && |Dec(x)| <= 3
  {
  }

  lemma NoDigitsLeft(x: byte)
    ensures ParseDigits([], x) == Some(x)
  {
  }

  lemma ParseDigit(acc: nat, d: byte, rest: Text)
    requires acc < 256 && d < 10 && acc * 10 + d < 256
    ensures ParseDigits([48 + d] + rest, acc) == ParseDigits(rest, acc * 10 + d)
  {
    assert ([48 + d] + rest)[1..] == rest;
  }

  // Reading reverse names.

  predicate EndsWith(s: Text, suffix: Text) {
    |suffix| <= |s| && s[|s| - |suffix|..] == suffix
  }

  function Octets4(parts: seq<Text>): Option<IpAddr> {
    if |parts| == 4 && (forall k :: 0 <= k < 4 ==> ParseU8(parts[k]).Some?)
    then Some(V4([ParseU8(parts[3]).value, ParseU8(parts[2]).value, ParseU8(parts[1]).value, ParseU8(parts[0]).value]))
    else None
  }

  method ParseInAddrArpa(octets: Text) returns (r: Option<IpAddr>)
    ensures r == Octets4(Split(octets))
  {
    hide ParseU8, Split;
    var parts := Split(octets);
    var addr := new byte[4](_ => 0);
    var count: nat := 0;
    while count < |parts|
      invariant count <= |parts| && count <= 4
      invariant forall k :: 0 <= k < count ==> ParseU8(parts[k]) == Some(addr[3 - k])
    {
      if count >= 4 {
        return None;
      }
      var value := ParseU8(parts[count]);
      if value.None? {
        return None;
      }
      addr[3 - count] := value.value;
      count := count + 1;
    }
    if count != 4 {
      return None;
    }
    assert forall k :: 0 <= k < 4 ==> ParseU8(parts[k]) == Some(addr[3 - k]);
    assert addr[..] == [addr[0], addr[1], addr[2], addr[3]];
    return Some(V4(addr[..]));
  }

  predicate IsNibble(part: Text) {
    |part| == 1 && HexValue(part[0]).Some?
  }

  function Nibble(part: Text): nibble
    requires IsNibble(part)
  {
    HexValue(part[0]).value
  }

  /** `(hi << 4) | lo`. */
  function Pack(hi: nibble, lo: nibble): byte {
    hi as int * 16 + lo
  }

  function Octets16(parts: seq<Text>): Option<IpAddr> {
    if |parts| == 32 && (forall k :: 0 <= k < 32 ==> IsNibble(parts[k]))
    then Some(V6(seq(16, i requires 0 <= i < 16 => Pack(Nibble(parts[31 - 2 * i]), Nibble(parts[30 - 2 * i])))))
    else None
  }

  ghost predicate AllNibbles(parts: seq<Text>) {
    |parts| == 32 && forall k :: 0 <= k < 32 ==> IsNibble(parts[k])
  }

  /** The digit loop: 32 one-digit labels, stored most significant first. */
  method ReadNibbles(parts: seq<Text>) returns (r: Option<seq<nibble>>)
    ensures r.Some? <==> AllNibbles(parts)
    ensures r.Some? ==> |r.value| == 32 && forall k :: 0 <= k < 32 ==> r.value[31 - k] == Nibble(parts[k])
  {
    var digits := new nibble[32](_ => 0);
    var count: nat := 0;
    while count < |parts|
      invariant count <= |parts| && count <= 32
      invariant forall k :: 0 <= k < count ==> IsNibble(parts[k]) && digits[31 - k] == Nibble(parts[k])
    {
      if count >= 32 {
        return None;
      }
      if !IsNibble(parts[count]) {
        return None;
      }
      digits[31 - count] := Nibble(parts[count]);
      count := count + 1;
    }
    if count != 32 {
      return None;
    }
    return Some(digits[..]);
  }

  method ParseIp6Arpa(nibbles: Text) returns (r: Option<IpAddr>)
    ensures r == Octets16(Split(nibbles))
  {
    hide Split, IsNibble, Nibble, Pack;
    var parts := Split(nibbles);
    var digits := ReadNibbles(parts);
    if digits.None? {
      return None;
    }
    var ds := digits.value;
    var addr := new byte[16](_ => 0);
    for i := 0 to 16
      invariant forall k :: 0 <= k < i ==> addr[k] == Pack(ds[2 * k], ds[2 * k + 1])
    {
      addr[i] := Pack(ds[2 * i], ds[2 * i + 1]);
    }
    forall i | 0 <= i < 16 ensures addr[i] == Pack(Nibble(parts[31 - 2 * i]), Nibble(parts[30 - 2 * i])) {
      assert ds[31 - (31 - 2 * i)] == Nibble(parts[31 - 2 * i]);
      assert ds[31 - (30 - 2 * i)] == Nibble(parts[30 - 2 * i]);
    }
    assert addr[..] == Octets16(parts).value.octets;
    return Some(V6(addr[..]));
  }

  function ReverseAddr(name: Text): Option<IpAddr> {
    if name == [] || name[|name| - 1] != DOT then None else
    var body := name[..|name| - 1];
    if EndsWith(body, IN_ADDR_SUFFIX) then Octets4(Split(body[..|body| - |IN_ADDR_SUFFIX|]))
    else if EndsWith(body, IP6_SUFFIX) then Octets16(Split(body[..|body| - |IP6_SUFFIX|]))
    else None
  }

  method ReverseAddress(name: Text) returns (r: Option<IpAddr>)
    ensures r == ReverseAddr(name)
  {
    hide Octets4, Octets16, Split;
    if name == [] || name[|name| - 1] != DOT {
      return None;
    }
    var body := name[..|name| - 1];
    if EndsWith(body, IN_ADDR_SUFFIX) {
      r := ParseInAddrArpa(body[..|body| - |IN_ADDR_SUFFIX|]);
    } else if EndsWith(body, IP6_SUFFIX) {
      r := ParseIp6Arpa(body[..|body| - |IP6_SUFFIX|]);
    } else {
      r := None;
    }
  }

  // Building reverse names.

  /** The nibbles of an address, least significant first, one label each. */
  function NibbleLabels(octets: seq<byte>): seq<Text> {
    if octets == [] then [] else
    var last := octets[|octets| - 1];
    [[Hex(last % 16)], [Hex(last / 16)]] + NibbleLabels(octets[..|octets| - 1])
  }

  function HostLabels(ip: IpAddr): seq<Text>
    requires ip.Valid()
  {
    match ip
    case V4(o) => [Dec(o[3]), Dec(o[2]), Dec(o[1]), Dec(o[0])]
    case V6(o) => NibbleLabels(o)
  }

  function ZoneLabels(ip: IpAddr): seq<Text> {
    if ip.V4? then [IN_ADDR, ARPA] else [IP6, ARPA]
  }

  function ReverseLabels(ip: IpAddr): seq<Text>
    requires ip.Valid()
  {
    HostLabels(ip) + ZoneLabels(ip)
  }

  method ReverseQuery(ip: IpAddr) returns (name: Text)
    requires ip.Valid()
    ensures FromStr(Join(ReverseLabels(ip))) == Ok(name)
  {
    hide Dec, FromStr;
    var text: Text;
    if ip.V4? {
      var o := ip.octets;
      text := Dec(o[3]) + [DOT] + Dec(o[2]) + [DOT] + Dec(o[1]) + [DOT] + Dec(o[0]) + IN_ADDR_SUFFIX;
      JoinHost4(o);
    } else {
      text := NibbleText(ip.octets);
      text := text + IP6 + [DOT] + ARPA;
      JoinAppend(HostLabels(ip), ZoneLabels(ip));
      TwoLabels(IP6, ARPA);
    }
    assert text == Join(ReverseLabels(ip));
    ReverseIsName(ip);
    var r := ParseName(text);
    name := r.value;
  }

  lemma NibbleLabelsLast(octets: seq<byte>, i: nat)
    requires i < |octets|
    ensures NibbleLabels(octets[..i + 1]) ==
              [[Hex(octets[i] % 16)]] + [[Hex(octets[i] / 16)]] + NibbleLabels(octets[..i])
  {
    assert octets[..i + 1][..i] == octets[..i];
  }

  lemma NibbleLabelsNil()
    ensures NibbleLabels([]) == []
  {
  }

  method NibbleText(octets: seq<byte>) returns (s: Text)
    ensures s == Dotted(NibbleLabels(octets))
  {
    hide Hex, Dotted, NibbleLabels;
    DottedNil();
    s := [];
    ghost var done: seq<Text> := [];
    var i := |octets|;
    assert octets[..i] == octets;
    while i > 0
      invariant 0 <= i <= |octets|
      invariant s == Dotted(done)
      invariant done + NibbleLabels(octets[..i]) == NibbleLabels(octets)
    {
      i := i - 1;
      var lo, hi := octets[i] % 16, octets[i] / 16;
      NibbleLabelsLast(octets, i);
      DottedAppend(done, [Hex(lo)]);
      DottedAppend(done + [[Hex(lo)]], [Hex(hi)]);
      s := s + [Hex(lo)] + [DOT] + [Hex(hi)] + [DOT];
      done := done + [[Hex(lo)]] + [[Hex(hi)]];
    }
    NibbleLabelsNil();
    assert octets[..0] == [] && done + [] == done;
  }

  // Laws.

  /** Labels joined after other labels. */
  lemma {:induction false} JoinAppend(x: seq<Text>, y: seq<Text>)
    requires y != []
    ensures Join(x + y) == Dotted(x) + Join(y)
    decreases |x|
  {
    if x == [] {
      assert x + y == y;
    } else {
      JoinAppend(x[1..], y);
      assert (x + y)[1..] == x[1..] + y;
    }
  }

  lemma TwoLabels(a: Text, b: Text)
    ensures Dotted([a, b]) == a + [DOT] + b + [DOT] && Join([a, b]) == a + [DOT] + b
    ensures Cost([a, b]) == 2 + |a| + |b|
  {
    var ls: seq<Text> := [a, b];
    var tail: seq<Text> := [b];
    assert ls[1..] == tail && tail[1..] == [];
    assert Dotted(tail) == b + [DOT] + [] && Cost(tail) == 1 + |b|;
  }

  lemma FourLabels(a: Text, b: Text, c: Text, d: Text)
    ensures Dotted([a, b, c, d]) == a + [DOT] + b + [DOT] + c + [DOT] + d + [DOT]
    ensures Cost([a, b, c, d]) == 4 + |a| + |b| + |c| + |d|
  {
    var ls: seq<Text> := [a, b, c, d];
    var tail: seq<Text> := [b, c, d];
    assert ls[1..] == tail && tail[1..] == [c, d];
    TwoLabels(c, d);
  }

  lemma JoinHost4(o: seq<byte>)
    requires |o| == 4
    ensures Join(ReverseLabels(V4(o))) ==
              Dec(o[3]) + [DOT] + Dec(o[2]) + [DOT] + Dec(o[1]) + [DOT] + Dec(o[0]) + IN_ADDR_SUFFIX
  {
    hide Dec;
    var host, zone := HostLabels(V4(o)), ZoneLabels(V4(o));
    JoinAppend(host, zone);
    FourLabels(Dec(o[3]), Dec(o[2]), Dec(o[1]), Dec(o[0]));
    TwoLabels(IN_ADDR, ARPA);
  }

  lemma HexRoundTrip(n: nibble)
    ensures HexValue(Hex(n)) == Some(n) && GoodLabel([Hex(n)])
  {
  }

  lemma {:induction false} NibbleLabelsAt(o: seq<byte>)
    ensures |NibbleLabels(o)| == 2 * |o|
    ensures forall i :: 0 <= i < |o| ==>
              NibbleLabels(o)[2 * (|o| - 1 - i)] == [Hex(o[i] % 16)] &&
                  NibbleLabels(o)[2 * (|o| - 1 - i) + 1] == [Hex(o[i] / 16)]
    ensures forall k :: 0 <= k < |NibbleLabels(o)| ==> GoodLabel(NibbleLabels(o)[k])
    ensures Cost(NibbleLabels(o)) == 4 * |o|
  {
    if o != [] {
      var init, last := o[..|o| - 1], o[|o| - 1];
      NibbleLabelsAt(init);
      HexRoundTrip(last % 16);
      HexRoundTrip(last / 16);
      var ls := NibbleLabels(o);
      assert ls[1..][1..] == NibbleLabels(init);
      forall i | 0 <= i < |o| - 1
        ensures ls[2 * (|o| - 1 - i)] == [Hex(o[i] % 16)] && ls[2 * (|o| - 1 - i) + 1] == [Hex(o[i] / 16)]
      {
        assert o[i] == init[i];
        assert ls[2 * (|o| - 1 - i)] == NibbleLabels(init)[2 * (|init| - 1 - i)];
        assert ls[2 * (|o| - 1 - i) + 1] == NibbleLabels(init)[2 * (|init| - 1 - i) + 1];
      }
    }
  }

  lemma ZoneIsGood()
    ensures GoodLabel(IN_ADDR) && GoodLabel(IP6) && GoodLabel(ARPA)
  {
  }

  lemma {:induction false} CostConcat(x: seq<Text>, y: seq<Text>)
    ensures Cost(x + y) == Cost(x) + Cost(y)
    decreases |x|
  {
    if x == [] {
      assert x + y == y;
    } else {
      CostConcat(x[1..], y);
      assert (x + y)[1..] == x[1..] + y;
    }
  }

  lemma HostIsGood(ip: IpAddr)
    requires ip.Valid()
    ensures forall k :: 0 <= k < |HostLabels(ip)| ==> GoodLabel(HostLabels(ip)[k])
    ensures Cost(HostLabels(ip)) <= 64 && HostLabels(ip) != []
  {
    hide Dec, GoodLabel;
    if ip.V4? {
      var o := ip.octets;
      DecRoundTrip(o[0]);
      DecRoundTrip(o[1]);
      DecRoundTrip(o[2]);
      DecRoundTrip(o[3]);
      FourLabels(Dec(o[3]), Dec(o[2]), Dec(o[1]), Dec(o[0]));
    } else {
      NibbleLabelsAt(ip.octets);
    }
  }

  /** Every address has a reverse name that passes validation. */
  lemma ReverseIsName(ip: IpAddr)
    requires ip.Valid()
    ensures GoodLabels(ReverseLabels(ip)) && ReverseLabels(ip) != []
    ensures FromStr(Join(ReverseLabels(ip))) == Ok(Dotted(ReverseLabels(ip)))
    ensures IsName(Dotted(ReverseLabels(ip)))
  {
    hide GoodLabel, HostLabels, FromStr, Dotted, IsName;
    HostIsGood(ip);
    ZoneIsGood();
    var zone := ZoneLabels(ip);
    CostConcat(HostLabels(ip), zone);
    TwoLabels(zone[0], ARPA);
    FromStrOfLabels(ReverseLabels(ip));
    CanonicalIsName(ReverseLabels(ip));
  }

  lemma HostOctets4(o: seq<byte>)
    requires |o| == 4
    ensures Octets4(HostLabels(V4(o))) == Some(V4(o))
  {
    hide Dec, ParseU8;
    DecRoundTrip(o[0]);
    DecRoundTrip(o[1]);
    DecRoundTrip(o[2]);
    DecRoundTrip(o[3]);
    assert o == [o[0], o[1], o[2], o[3]];
  }

  lemma OctetNibbles(x: byte)
    ensures var hi, lo := [Hex(x / 16)], [Hex(x % 16)];
            IsNibble(hi) && IsNibble(lo) && Pack(Nibble(hi), Nibble(lo)) == x
  {
    HexRoundTrip(x / 16);
    HexRoundTrip(x % 16);
  }

  lemma HostOctets16(o: seq<byte>)
    requires |o| == 16
    ensures Octets16(HostLabels(V6(o))) == Some(V6(o))
  {
    hide IsNibble, Nibble, Pack, NibbleLabels;
    var parts := NibbleLabels(o);
    assert |parts| == 32 by {
      NibbleLabelsAt(o);
    }
    forall k | 0 <= k < 32 ensures IsNibble(parts[k]) {
      HostOctet(o, 15 - k / 2);
    }
    forall i | 0 <= i < 16 ensures Pack(Nibble(parts[31 - 2 * i]), Nibble(parts[30 - 2 * i])) == o[i] {
      HostOctet(o, i);
    }
    assert Octets16(parts).value.octets == o;
  }

  /** The two labels of octet `i`. */
  lemma HostOctet(o: seq<byte>, i: nat)
    requires |o| == 16 && i < 16
    ensures var parts := NibbleLabels(o);
            && |parts| == 32 && IsNibble(parts[30 - 2 * i]) && IsNibble(parts[31 - 2 * i])
            && Pack(Nibble(parts[31 - 2 * i]), Nibble(parts[30 - 2 * i])) == o[i]
  {
    hide Hex, IsNibble, Nibble, Pack, NibbleLabels;
    NibbleLabelsAt(o);
    OctetNibbles(o[i]);
    assert 2 * (16 - 1 - i) == 30 - 2 * i;
  }

  function SuffixOf(ip: IpAddr): Text {
    if ip.V4? then IN_ADDR_SUFFIX else IP6_SUFFIX
  }

  lemma ReverseText(ip: IpAddr)
    requires ip.Valid()
    ensures HostLabels(ip) != [] && Split(Join(HostLabels(ip))) == HostLabels(ip)
    ensures Dotted(ReverseLabels(ip)) == Join(HostLabels(ip)) + SuffixOf(ip) + [DOT]
  {
    hide HostLabels, ZoneLabels, SuffixOf, Split, Join, Dotted, GoodLabel, GoodLabels, Cost, Canonical, FromStr;
    var host, zone := HostLabels(ip), ZoneLabels(ip);
    ReverseIsName(ip);
    HostIsGood(ip);
    ZoneText(ip);
    assert forall k :: 0 <= k < |ReverseLabels(ip)| ==> GoodLabel(ReverseLabels(ip)[k]) by {
      GoodEach(ReverseLabels(ip));
    }
    GoodLabelNoDots(host);
    GoodLabelNoDots(ReverseLabels(ip));
    SplitJoin(host);
    SplitJoin(ReverseLabels(ip));
    JoinAppend(host, zone);
    assert Join(ReverseLabels(ip)) == Join(host) + [DOT] + Join(zone) == Join(host) + ([DOT] + Join(zone));
  }

  lemma ZoneText(ip: IpAddr)
    ensures ZoneLabels(ip) != [] && [DOT] + Join(ZoneLabels(ip)) == SuffixOf(ip)
  {
    TwoLabels(ZoneLabels(ip)[0], ARPA);
  }

  lemma GoodEach(ls: seq<Text>)
    requires GoodLabels(ls)
    ensures forall k :: 0 <= k < |ls| ==> GoodLabel(ls[k])
  {
  }

  lemma ZonesDiffer(s: Text)
    requires EndsWith(s, IP6_SUFFIX)
    ensures !EndsWith(s, IN_ADDR_SUFFIX)
  {
    assert s[|s| - 6] == IP6_SUFFIX[3];
    assert IN_ADDR_SUFFIX[7] == 114;
  }

  /** `reverse_addr` undoes `reverse_query` for every IPv4 and IPv6 address. */
  lemma ReverseRoundTrip(ip: IpAddr)
    requires ip.Valid()
    ensures IsName(Dotted(ReverseLabels(ip)))
    ensures ReverseAddr(Dotted(ReverseLabels(ip))) == Some(ip)
  {
    hide HostLabels, ReverseLabels, Octets4, Octets16, Split, IsName, Join, Dotted;
    ReverseIsName(ip);
    ReverseText(ip);
    var name, host := Dotted(ReverseLabels(ip)), Join(HostLabels(ip));
    var body := name[..|name| - 1];
    var suffix := SuffixOf(ip);
    assert body == host + suffix;
    assert body[..|body| - |suffix|] == host && body[|body| - |suffix|..] == suffix;
    if ip.V4? {
      HostOctets4(ip.octets);
    } else {
      ZonesDiffer(body);
      HostOctets16(ip.octets);
    }
  }

  // The internal PTR query.

  function PtrDatagram(name: Text): Bytes {
    NewHeader(0).(qdcount := 1).WithFlag(FLAG_RD, true).Wire() + Question(name, Ptr, In).Wire()
  }

  method PtrQueryDatagram(name: Text) returns (r: Bytes)
    ensures r == PtrDatagram(name)
  {
    hide Header.Wire, Header.WithFlag, Be16, Labels, Encode;
    var w := new Writer();
    NewHeader(0).(qdcount := 1).WithFlag(FLAG_RD, true).Write(w);
    WriteName(name, w);
    w.WriteU16(Ptr.Code());
    w.WriteU16(1);
    return w.buf;
  }

  lemma PtrFlags()
    ensures var h := NewHeader(0).(qdcount := 1).WithFlag(FLAG_RD, true); !h.Qr() && h.Opcode() == 0 && h.Rd()
  {
  }

  /** The datagram built for any name parses to a PTR question for that name, with nothing after it. */
  lemma PtrDatagramParses(name: Text)
    requires IsName(name)
    ensures var b := PtrDatagram(name);
            && Parse(b).Accepted?
            && Parse(b).query.question == Question(name, Ptr, In)
            && Parse(b).query.questionEnd == |b|
  {
    hide Header.Wire, IsName, GetAsked, GetHeader;
    var h, q := NewHeader(0).(qdcount := 1).WithFlag(FLAG_RD, true), Question(name, Ptr, In);
    var b := PtrDatagram(name);
    PtrFlags();
    assert b[0..|h.Wire()|] == h.Wire();
    HeaderRoundTrip(h, b, 0);
    WireLength(h);
    assert b[HEADER_LEN..] == q.Wire();
    QuestionRoundTrip(b, HEADER_LEN, q);
    NameLength(name);
  }

  lemma NameLength(name: Text)
    requires IsName(name)
    ensures |Question(name, Ptr, In).Wire()| <= MAX_NAME_WIRE_LEN + 4
  {
    EncodeLength(Labels(name));
  }

  /** PTR end to end: the query sent for an address asks for the name that maps back to it. */
  lemma PtrEndToEnd(ip: IpAddr)
    requires ip.Valid()
    ensures FromStr(Join(ReverseLabels(ip))).Ok?
    ensures var n := FromStr(Join(ReverseLabels(ip))).value;
            && ReverseAddr(n) == Some(ip)
            && Parse(PtrDatagram(n)).Accepted?
            && Parse(PtrDatagram(n)).query.question == Question(n, Ptr, In)
  {
    hide FromStr, Join, ReverseLabels, ReverseAddr, Parse, PtrDatagram, IsName;
    ReverseIsName(ip);
    ReverseRoundTrip(ip);
    PtrDatagramParses(Dotted(ReverseLabels(ip)));
  }
}
