/** `EdnsInfo`: finding the OPT record of a query and its COOKIE option (RFC 6891, RFC 7873). */
module Edns {
  import opened Wire
  import opened Cursor
  import opened Headers
  import opened Records
  import opened Messages

  const EDNS_OPTION_COOKIE: u16 := 10
  const EDNS_CLIENT_COOKIE_LEN: nat := 8
  const EDNS_COOKIE_MAX_LEN: nat := 40

  datatype EdnsInfo = EdnsInfo(udpPayloadSize: u16, cookie: Option<Bytes>) {
    predicate Valid() {
      cookie.Some? ==> ValidCookieLen(|cookie.value|)
    }
  }

  predicate ValidCookieLen(n: nat) {
    n == EDNS_CLIENT_COOKIE_LEN || 2 * EDNS_CLIENT_COOKIE_LEN <= n <= EDNS_COOKIE_MAX_LEN
  }

  // OPT RDATA as a list of options.

  datatype EdnsOption = EdnsOption(code: u16, data: Bytes) {
    function Wire(): Bytes {
      Be16(code) + Be16(|data| % 0x1_0000) + data
    }
  }

  function OptionsWire(opts: seq<EdnsOption>): Bytes {
    if opts == [] then [] else opts[0].Wire() + OptionsWire(opts[1..])
  }

  /** A complete option starts at the head of `data`. */
  predicate HasOption(data: Bytes) {
    |data| >= 4 && 4 + U16At(data, 2) <= |data|
  }

  function HeadOption(data: Bytes): EdnsOption
    requires HasOption(data)
  {
    EdnsOption(U16At(data, 0), data[4..4 + U16At(data, 2)])
  }

  function AfterOption(data: Bytes): Bytes
    requires HasOption(data)
  {
    data[4 + U16At(data, 2)..]
  }

  /** The longest run of complete options at the head of the RDATA. */
  function Options(data: Bytes): seq<EdnsOption>
    decreases |data|
  {
    if HasOption(data) then [HeadOption(data)] + Options(AfterOption(data)) else []
  }

  function FirstCookie(opts: seq<EdnsOption>): Option<Bytes> {
    if opts == [] then None
    else if opts[0].code == EDNS_OPTION_COOKIE then
      if ValidCookieLen(|opts[0].data|) then Some(opts[0].data) else None
    else FirstCookie(opts[1..])
  }

  /** The option walk computes the first COOKIE of the declarative option list, or nothing. */
  method ExtractCookie(data: Bytes) returns (cookie: Option<Bytes>)
    ensures cookie == FirstCookie(Options(data))
  {
    var pos: nat := 0;
    assert data[0..] == data;
    while pos + 4 <= |data|
      invariant pos <= |data|
      invariant FirstCookie(Options(data[pos..])) == FirstCookie(Options(data))
      decreases |data| - pos
    {
      ghost var tail := data[pos..];
      var code := U16At(data, pos);
      var length: nat := U16At(data, pos + 2);
      assert U16At(tail, 0) == code && U16At(tail, 2) == length;
      pos := pos + 4;
      var end := pos + length;
      if end > |data| {
        return None;
      }
      assert HeadOption(tail) == EdnsOption(code, data[pos..end]);
      assert AfterOption(tail) == data[end..];
      assert Options(tail)[1..] == Options(data[end..]);
      if code == EDNS_OPTION_COOKIE {
        return if ValidCookieLen(length) then Some(data[pos..end]) else None;
      }
      pos := end;
    }
    return None;
  }

  lemma HeadAndRest(data: Bytes)
    requires HasOption(data)
    ensures var n := |HeadOption(data).Wire()|;
            n <= |data| && data[..n] == HeadOption(data).Wire() && AfterOption(data) == data[n..] &&
                |AfterOption(data)| < |data|
  {
    hide U16At;
    var head := HeadOption(data);
    FieldBytes(data, 0);
    FieldBytes(data, 2);
    assert data[..4 + |head.data|] == data[..2] + data[2..4] + head.data;
    assert data[0..2] == data[..2];
  }

  /** The option list is a parse: written back it is the head of the RDATA, and no option follows. */
  lemma {:induction false} OptionsExact(data: Bytes)
    ensures |OptionsWire(Options(data))| <= |data|
    ensures data[..|OptionsWire(Options(data))|] == OptionsWire(Options(data))
    ensures !HasOption(data[|OptionsWire(Options(data))|..])
    decreases |data|
  {
    hide HasOption, HeadOption, AfterOption, EdnsOption.Wire;
    if HasOption(data) {
      var head, rest := HeadOption(data), AfterOption(data);
      HeadAndRest(data);
      OptionsExact(rest);
      var n, w := |head.Wire()|, |OptionsWire(Options(rest))|;
      assert Options(data)[1..] == Options(rest);
      assert OptionsWire(Options(data)) == head.Wire() + OptionsWire(Options(rest));
      assert data[..n + w] == data[..n] + rest[..w];
      assert data[n + w..] == rest[w..];
    } else {
      assert data[0..] == data;
    }
  }

  /** Writing any options whose data fits a length field and parsing them back. */
  lemma {:induction false} OptionsRoundTrip(opts: seq<EdnsOption>)
    requires forall k :: 0 <= k < |opts| ==> |opts[k].data| < 0x1_0000
    ensures Options(OptionsWire(opts)) == opts
    decreases |opts|
  {
    if opts != [] {
      var o, rest := opts[0], OptionsWire(opts[1..]);
      OptionsRoundTrip(opts[1..]);
      OptionHead(o, rest);
      assert opts == [o] + opts[1..];
    }
  }

  lemma OptionHead(o: EdnsOption, rest: Bytes)
    requires |o.data| < 0x1_0000
    ensures var data := o.Wire() + rest; HasOption(data) && HeadOption(data) == o && AfterOption(data) == rest
  {
    var data := o.Wire() + rest;
    assert |data| == 4 + |o.data| + |rest|;
    hide Be16, U16At;
    assert data == Be16(o.code) + (Be16(|o.data|) + (o.data + rest));
    assert At(data, 0, data);
    AtThen16(data, 0, o.code, Be16(|o.data|) + (o.data + rest));
    AtThen16(data, 2, |o.data|, o.data + rest);
    AtConcat(data, 4, o.data, rest);
  }

  lemma {:induction false} CookieLength(opts: seq<EdnsOption>)
    ensures FirstCookie(opts).Some? ==> ValidCookieLen(|FirstCookie(opts).value|)
    decreases |opts|
  {
    if opts != [] {
      CookieLength(opts[1..]);
    }
  }

  // The record walk of `scan_inner`.

  function InfoOf(b: Bytes, rr: Rr): EdnsInfo
    requires rr.End() <= |b|
  {
    EdnsInfo(rr.rclass, FirstCookie(Options(b[rr.RdataAt()..rr.End()])))
  }

  function FindOpt(b: Bytes, p: nat, n: nat): Option<EdnsInfo>
    decreases n
  {
    if n == 0 then None else
    match GetRr(b, p)
    case Err(_) => None
    case Ok(rr) => if rr.rtype == OPT_TYPE then Some(InfoOf(b, rr)) else FindOpt(b, rr.End(), n - 1)
  }

  function EdnsScan(b: Bytes): Option<EdnsInfo> {
    match GetHeader(b, 0)
    case Err(_) => None
    case Ok(h) =>
      match GetQuestions(b, HEADER_LEN, h.qdcount)
      case Err(_) => None
      case Ok(p) =>
        match GetRrs(b, p, h.ancount + h.nscount)
        case Err(_) => None
        case Ok(rrs) => FindOpt(b, RrsEnd(p, rrs), h.arcount)
  }

  /** Passes over `n` records. */
  method SkipRecords(reader: Reader, n: nat) returns (ok: bool)
    modifies reader
    ensures ok <==> GetRrs(reader.buf, old(reader.pos), n).Ok?
    ensures ok ==> reader.pos == RrsEnd(old(reader.pos), GetRrs(reader.buf, old(reader.pos), n).value)
  {
    hide GetRr;
    for i := 0 to n
      invariant var whole, rest := GetRrs(reader.buf, old(reader.pos), n), GetRrs(reader.buf, reader.pos, n - i);
                && (whole.Ok? <==> rest.Ok?)
                && (whole.Ok? ==> RrsEnd(old(reader.pos), whole.value) == RrsEnd(reader.pos, rest.value))
    {
      var f := ReadRr(reader);
      if f.Err? {
        return false;
      }
    }
    return true;
  }

  method FindOptRecord(reader: Reader, n: nat) returns (r: Option<EdnsInfo>)
    modifies reader
    ensures r == FindOpt(reader.buf, old(reader.pos), n)
  {
    hide GetRr, Options, FirstCookie;
    for i := 0 to n
      invariant FindOpt(reader.buf, reader.pos, n - i) == FindOpt(reader.buf, old(reader.pos), n)
    {
      var f := ReadRr(reader);
      if f.Err? {
        return None;
      }
      if f.value.rtype == OPT_TYPE {
        var cookie := ExtractCookie(f.value.rdata);
        return Some(EdnsInfo(f.value.rclass, cookie));
      }
    }
    return None;
  }

  method ScanEdns(query: Query) returns (r: Option<EdnsInfo>)
    ensures r == EdnsScan(query.raw)
  {
    hide GetRrs, GetQuestions, FindOpt;
    var reader := new Reader(query.raw);
    var h := ReadHeader(reader);
    if h.Err? {
      return None;
    }
    var q := SkipQuestions(reader, h.value.qdcount);
    if q.Err? {
      return None;
    }
    var ok := SkipRecords(reader, h.value.ancount + h.value.nscount);
    if !ok {
      return None;
    }
    r := FindOptRecord(reader, h.value.arcount);
  }

  // Laws of the scan.

  lemma {:induction false} FindOptValid(b: Bytes, p: nat, n: nat)
    ensures FindOpt(b, p, n).Some? ==> FindOpt(b, p, n).value.Valid()
    decreases n
  {
    hide GetRr, IsRr, Options, FirstCookie;
    if n > 0 && GetRr(b, p).Ok? {
      var rr := GetRr(b, p).value;
      RrOwner(b, p);
      RrLayout(b, rr);
      CookieLength(Options(b[rr.RdataAt()..rr.End()]));
      FindOptValid(b, rr.End(), n - 1);
    }
  }

  /** On every message, a cookie the scan yields has 8 or 16 to 40 bytes, so `write_opt` cannot fail. */
  lemma EdnsScanValid(b: Bytes)
    ensures EdnsScan(b).Some? ==> EdnsScan(b).value.Valid()
  {
    hide GetQuestions, GetRrs, FindOpt;
    match GetHeader(b, 0)
    case Err(_) =>
    case Ok(h) =>
      match GetQuestions(b, HEADER_LEN, h.qdcount)
      case Err(_) =>
      case Ok(p) =>
        match GetRrs(b, p, h.ancount + h.nscount)
        case Err(_) =>
        case Ok(rrs) => FindOptValid(b, RrsEnd(p, rrs), h.arcount);
  }

  /** The first OPT of a record list. */
  function FirstOpt(b: Bytes, rrs: seq<Rr>): Option<EdnsInfo>
    requires forall k :: 0 <= k < |rrs| ==> rrs[k].End() <= |b|
  {
    if rrs == [] then None
    else if rrs[0].rtype == OPT_TYPE then Some(InfoOf(b, rrs[0]))
    else FirstOpt(b, rrs[1..])
  }

  lemma TilesInside(b: Bytes, p: nat, rrs: seq<Rr>)
    requires Tiles(b, p, rrs)
    ensures forall k :: 0 <= k < |rrs| ==> rrs[k].End() <= |b|
  {
    hide IsRr;
    forall k | 0 <= k < |rrs| ensures rrs[k].End() <= |b| {
      RrLayout(b, rrs[k]);
    }
  }

  lemma {:induction false} FindOptIsFirst(b: Bytes, p: nat, rrs: seq<Rr>)
    requires Tiles(b, p, rrs)
    ensures forall k :: 0 <= k < |rrs| ==> rrs[k].End() <= |b|
    ensures FindOpt(b, p, |rrs|) == FirstOpt(b, rrs)
    decreases |rrs|
  {
    hide GetRr, IsRr, Options, FirstCookie;
    TilesInside(b, p, rrs);
    if rrs != [] {
      TilesTail(b, p, rrs);
      RrExact(b, p, rrs[0]);
      FindOptIsFirst(b, rrs[0].End(), rrs[1..]);
    }
  }

  /**
   * The EDNS scan and the TTL scan see the same records: when the whole message parses, the
   * former returns the first OPT of the additional section found by the latter.
   */
  lemma EdnsScanMatchesRecords(b: Bytes)
    requires GetMessage(b).Ok?
    ensures var m := GetMessage(b).value; var cut := m.header.ancount + m.header.nscount;
            && cut <= |m.rrs|
            && (forall k :: 0 <= k < |m.rrs| ==> m.rrs[k].End() <= |b|)
            && EdnsScan(b) == FirstOpt(b, m.rrs[cut..])
  {
    hide GetMessage, GetRr, GetRrs, GetQuestions, Tiles, IsRr, FindOpt, FirstOpt, HeaderAt;
    var m := GetMessage(b).value;
    var cut := m.header.ancount + m.header.nscount;
    MessageExact(b);
    TilesInside(b, m.questionEnd, m.rrs);
    var x, y := m.rrs[..cut], m.rrs[cut..];
    assert m.rrs == x + y;
    RrsExact(b, m.questionEnd, RrCount(m.header), m.rrs);
    RrsConcat(b, m.questionEnd, cut, m.header.arcount, x, y);
    RrsExact(b, RrsEnd(m.questionEnd, x), m.header.arcount, y);
    FindOptIsFirst(b, RrsEnd(m.questionEnd, x), y);
  }

  // What the scan finds, on every message.

  /** `k` is the first COOKIE option, and its data is 8 or 16 to 40 bytes long. */
  ghost predicate IsFirstCookie(opts: seq<EdnsOption>, k: int, cookie: Bytes) {
    && 0 <= k < |opts| && opts[k].code == 10 && opts[k].data == cookie && (|cookie| == 8 || 16 <= |cookie| <= 40)
    && forall j :: 0 <= j < k ==> opts[j].code != 10
  }

  lemma {:induction false} FirstCookieExact(opts: seq<EdnsOption>, cookie: Bytes)
    ensures FirstCookie(opts) == Some(cookie) <==> exists k :: IsFirstCookie(opts, k, cookie)
    decreases |opts|
  {
    if opts != [] {
      FirstCookieExact(opts[1..], cookie);
      if k :| IsFirstCookie(opts[1..], k, cookie) {
        if opts[0].code != 10 {
          assert IsFirstCookie(opts, k + 1, cookie);
        }
      }
      if k :| IsFirstCookie(opts, k, cookie) {
        if k > 0 {
          assert IsFirstCookie(opts[1..], k - 1, cookie);
        }
      }
      if opts[0].code == 10 && FirstCookie(opts) == Some(cookie) {
        assert IsFirstCookie(opts, 0, cookie);
      }
    }
  }

  /** Records from `p` on, at most `n` of them, of which the last is the first OPT. */
  ghost predicate EndsInOpt(b: Bytes, p: nat, n: nat, rrs: seq<Rr>) {
    && 1 <= |rrs| <= n && Tiles(b, p, rrs) && rrs[|rrs| - 1].rtype == 41
    && forall k :: 0 <= k < |rrs| - 1 ==> rrs[k].rtype != 41
  }

  lemma {:induction false} FoundOpt(b: Bytes, p: nat, n: nat) returns (rrs: seq<Rr>)
    requires FindOpt(b, p, n).Some?
    ensures EndsInOpt(b, p, n, rrs)
    decreases n
  {
    hide GetRr, IsRr, Tiles, Options, FirstCookie;
    var rr := GetRr(b, p).value;
    RrOwner(b, p);
    if rr.rtype == OPT_TYPE {
      rrs := [rr];
      OneTile(b, p, rr);
    } else {
      var rest := FoundOpt(b, rr.End(), n - 1);
      rrs := [rr] + rest;
      assert rrs[1..] == rest;
      TilesTail(b, p, rrs);
    }
  }

  lemma OneTile(b: Bytes, p: nat, rr: Rr)
    requires IsRr(b, rr) && rr.owner == p
    ensures Tiles(b, p, [rr])
  {
  }

  lemma {:induction false} OptIsFound(b: Bytes, p: nat, n: nat, rrs: seq<Rr>)
    requires EndsInOpt(b, p, n, rrs)
    ensures var opt := rrs[|rrs| - 1];
            && opt.End() <= |b|
            && FindOpt(b, p, n) == Some(EdnsInfo(opt.rclass, FirstCookie(Options(b[opt.name.End() + 10..opt.End()]))))
    decreases n
  {
    hide GetRr, IsRr, Tiles, Options, FirstCookie;
    TilesTail(b, p, rrs);
    RrExact(b, p, rrs[0]);
    TilesInside(b, p, rrs);
    if |rrs| > 1 {
      var rest := rrs[1..];
      assert rest[|rest| - 1] == rrs[|rrs| - 1];
      OptIsFound(b, rrs[0].End(), n - 1, rest);
    }
  }

  /** The records `x` fill the answer and authority sections, and `y` the additional one up to its first OPT. */
  ghost predicate ReachesOpt(b: Bytes, p: nat, x: seq<Rr>, y: seq<Rr>) {
    && 12 <= |b| && GetQuestions(b, 12, U16At(b, 4)) == Ok(p)
    && |x| == U16At(b, 6) + U16At(b, 8) && Tiles(b, p, x) && EndsInOpt(b, RrsEnd(p, x), U16At(b, 10), y)
  }

  /** The payload size of the OPT record and the first COOKIE among its options. */
  ghost predicate Reports(b: Bytes, opt: Rr, info: Option<EdnsInfo>) {
    && opt.End() <= |b|
    && info == Some(EdnsInfo(opt.rclass, FirstCookie(Options(b[opt.name.End() + 10..opt.End()]))))
  }

  /**
   * The EDNS scan on every message, whatever follows the OPT: it finds something if and only if
   * the questions and the records up to a first OPT of the additional section can be read; and
   * then it is what that OPT says.
   */
  lemma EdnsScanExact(b: Bytes)
    ensures EdnsScan(b).Some? <==> exists p, x, y :: ReachesOpt(b, p, x, y)
    ensures forall p, x, y: seq<Rr> :: ReachesOpt(b, p, x, y) ==> y != [] && Reports(b, y[|y| - 1], EdnsScan(b))
  {
    hide GetQuestions, GetRrs, Tiles, FindOpt, Options, FirstCookie, U16At, EndsInOpt;
    if EdnsScan(b).Some? {
      var p := GetQuestions(b, 12, U16At(b, 4)).value;
      var x := GetRrs(b, p, U16At(b, 6) + U16At(b, 8)).value;
      RrsExact(b, p, U16At(b, 6) + U16At(b, 8), x);
      var y := FoundOpt(b, RrsEnd(p, x), U16At(b, 10));
      assert ReachesOpt(b, p, x, y);
    }
    forall p, x, y: seq<Rr> | ReachesOpt(b, p, x, y)
      ensures EdnsScan(b).Some? && y != [] && Reports(b, y[|y| - 1], EdnsScan(b))
    {
      RrsExact(b, p, |x|, x);
      OptInRange(b, RrsEnd(p, x), U16At(b, 10), y);
      OptIsFound(b, RrsEnd(p, x), U16At(b, 10), y);
    }
  }

  lemma OptInRange(b: Bytes, p: nat, n: nat, rrs: seq<Rr>)
    requires EndsInOpt(b, p, n, rrs)
    ensures 1 <= |rrs|
  {
  }
}
