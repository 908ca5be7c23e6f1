/** `Response`: the responses the server writes itself. */
module Synth {
  import opened Wire
  import opened Cursor
  import opened Headers
  import opened Names
  import opened Records
  import opened Messages
  import opened Edns

  const SERVER_UDP_PAYLOAD_SIZE: u16 := 1232
  const CLASS_IN: u16 := 1
  const OWNER_PTR: Bytes := [0xC0, 0x0C]

  /**
   * TYPE, CLASS, TTL, RDLENGTH and RDATA. RDLENGTH is a `u16` cast, so RDATA of 65536 bytes or
   * more would be written with a wrapped length.
   */
  function RrBody(rtype: u16, rclass: u16, ttl: u32, rdata: Bytes): Bytes {
    Be16(rtype) + (Be16(rclass) + (Be32(ttl) + (Be16(|rdata| % 0x1_0000) + rdata)))
  }

  datatype AnswerRr = AnswerRr(rtype: u16, ttl: u32, rdata: Bytes) {
    function Wire(): Bytes {
      OWNER_PTR + RrBody(rtype, CLASS_IN, ttl, rdata)
    }
  }

  function AnswersWire(answers: seq<AnswerRr>): Bytes {
    if answers == [] then [] else answers[0].Wire() + AnswersWire(answers[1..])
  }

  function OptRdata(e: EdnsInfo): Bytes
    requires e.Valid()
  {
    match e.cookie
    case None => []
    case Some(cookie) => Be16(EDNS_OPTION_COOKIE) + Be16(|cookie|) + cookie
  }

  lemma OptRdataLength(e: EdnsInfo)
    requires e.Valid()
    ensures |OptRdata(e)| == if e.cookie.Some? then 4 + |e.cookie.value| else 0
  {
  }

  function OptWire(e: EdnsInfo): Bytes
    requires e.Valid()
  {
    [0] + RrBody(OPT_TYPE, SERVER_UDP_PAYLOAD_SIZE, 0, OptRdata(e))
  }

  function MaybeOptWire(e: Option<EdnsInfo>): Bytes
    requires e.Some? ==> e.value.Valid()
  {
    if e.Some? then OptWire(e.value) else []
  }

  function OptCount(e: Option<EdnsInfo>): u16 {
    if e.Some? then 1 else 0
  }

  /** The header of `build`; `ancount` is the `u16` cast of the number of answers. */
  function BuildHeader(q: Header, rcode: Rcode, aa: bool, answers: nat, e: Option<EdnsInfo>): Header {
    var h := NewHeader(q.id).WithFlag(FLAG_QR, true).WithFlag(FLAG_RD, q.Rd()).WithFlag(FLAG_RA, true).WithRcode(rcode)
             .(qdcount := 1, ancount := answers % 0x1_0000, arcount := OptCount(e));
    if aa then h.WithFlag(FLAG_AA, true) else h
  }

  function TcHeader(q: Header, e: Option<EdnsInfo>): Header {
    NewHeader(q.id).WithFlag(FLAG_QR, true).WithFlag(FLAG_TC, true).WithFlag(FLAG_RD, q.Rd()).WithFlag(FLAG_RA, true)
    .WithRcode(NoError).(qdcount := 1, arcount := OptCount(e))
  }

  /** Every response with a question: header, the client's question bytes, answers, optional OPT. */
  function Layout(h: Header, questionWire: Bytes, answers: seq<AnswerRr>, e: Option<EdnsInfo>): Bytes
    requires e.Some? ==> e.value.Valid()
  {
    h.Wire() + (questionWire + (AnswersWire(answers) + MaybeOptWire(e)))
  }

  predicate Answerable(q: Query, e: Option<EdnsInfo>) {
    HEADER_LEN <= q.questionEnd <= |q.raw| && (e.Some? ==> e.value.Valid())
  }

  // What each kind of response answers.

  datatype BlockMode = BlockNxDomain | BlockAddress(v4: Bytes, v6: Bytes)

  datatype LocalRecord = LocalRecord(rtype: u16, rdata: Bytes)

  datatype Reply =
    | Block(mode: BlockMode, blockTtl: u32)
    | Local(records: seq<LocalRecord>, localTtl: u32)
    | LocalNodata
    | LocalPtr(target: Text, ptrTtl: u32)
    | ErrorResponse(rcode: Rcode)
    | Truncated

  function LocalAnswers(records: seq<LocalRecord>, ttl: u32): seq<AnswerRr> {
    seq(|records|, i requires 0 <= i < |records| => AnswerRr(records[i].rtype, ttl, records[i].rdata))
  }

  function BlockAnswers(mode: BlockMode, qtype: Qtype, ttl: u32): seq<AnswerRr> {
    match mode
    case BlockNxDomain => []
    case BlockAddress(v4, v6) =>
      match qtype
      case A => [AnswerRr(1, ttl, v4)]
      case Aaaa => [AnswerRr(28, ttl, v6)]
      case _ => []
  }

  function Answers(q: Query, reply: Reply): seq<AnswerRr> {
    match reply
    case Block(mode, ttl) => BlockAnswers(mode, q.question.qtype, ttl)
    case Local(records, ttl) => LocalAnswers(records, ttl)
    case LocalPtr(target, ttl) => [AnswerRr(12, ttl, Encode(Labels(target)))]
    case _ => []
  }

  function ReplyHeader(q: Query, reply: Reply, e: Option<EdnsInfo>): Header {
    match reply
    case Block(mode, _) =>
      BuildHeader(q.header, if mode.BlockNxDomain? then NxDomain else NoError, false, |Answers(q, reply)|, e)
    case ErrorResponse(rcode) => BuildHeader(q.header, rcode, false, 0, e)
    case Truncated => TcHeader(q.header, e)
    case _ => BuildHeader(q.header, NoError, true, |Answers(q, reply)|, e)
  }

  function Respond(q: Query, reply: Reply, e: Option<EdnsInfo>): Bytes
    requires Answerable(q, e)
  {
    Layout(ReplyHeader(q, reply, e), q.QuestionWire(), Answers(q, reply), e)
  }

  /** FORMERR and NOTIMP are built from the id alone: a bare header. */
  function BareReply(id: u16, rcode: Rcode): Bytes {
    NewHeader(id).WithFlag(FLAG_QR, true).WithRcode(rcode).Wire()
  }

  // The writers.

  method WriteAnswerRr(w: Writer, rr: AnswerRr)
    modifies w
    ensures w.buf == old(w.buf) + rr.Wire()
  {
    w.WriteSlice(OWNER_PTR);
    w.WriteU16(rr.rtype);
    w.WriteU16(CLASS_IN);
    w.WriteU32(rr.ttl);
    w.WriteU16(|rr.rdata| % 0x1_0000);
    w.WriteSlice(rr.rdata);
  }

  lemma OptParts(e: EdnsInfo)
    requires e.Valid()
    ensures OptWire(e) ==
              [0] + Be16(OPT_TYPE) + Be16(SERVER_UDP_PAYLOAD_SIZE) + Be32(0) + Be16(|OptRdata(e)|) + OptRdata(e)
    ensures e.cookie.None? ==> OptRdata(e) == []
    ensures e.cookie.Some? ==>
              |OptRdata(e)| == 4 + |e.cookie.value| <= 44 &&
              OptRdata(e) == Be16(EDNS_OPTION_COOKIE) + Be16(|e.cookie.value|) + e.cookie.value
  {
    hide Be16, Be32;
    OptRdataLength(e);
  }

  method WriteOpt(w: Writer, e: EdnsInfo)
    requires e.Valid()
    modifies w
    ensures w.buf == old(w.buf) + OptWire(e)
  {
    hide Be16, Be32, OptWire, OptRdata;
    OptParts(e);
    w.WriteU8(0);
    w.WriteU16(OPT_TYPE);
    w.WriteU16(SERVER_UDP_PAYLOAD_SIZE);
    w.WriteU32(0);
    ghost var head := [0] + Be16(OPT_TYPE) + Be16(SERVER_UDP_PAYLOAD_SIZE) + Be32(0);
    assert w.buf == old(w.buf) + head;
    match e.cookie
    case Some(cookie) =>
      // A validated cookie has at most 40 bytes, so both conversions to u16 succeed.
      w.WriteU16(4 + |cookie|);
      w.WriteU16(EDNS_OPTION_COOKIE);
      w.WriteU16(|cookie|);
      w.WriteSlice(cookie);
    case None =>
      w.WriteU16(0);
  }

  method WriteAnswers(w: Writer, answers: seq<AnswerRr>)
    modifies w
    ensures w.buf == old(w.buf) + AnswersWire(answers)
  {
    hide AnswerRr.Wire;
    assert answers[0..] == answers;
    for i := 0 to |answers|
      invariant w.buf + AnswersWire(answers[i..]) == old(w.buf) + AnswersWire(answers)
    {
      assert answers[i..][0] == answers[i] && answers[i..][1..] == answers[i + 1..];
      WriteAnswerRr(w, answers[i]);
    }
    assert answers[|answers|..] == [];
  }

  method WriteLayout(h: Header, q: Query, answers: seq<AnswerRr>, e: Option<EdnsInfo>) returns (r: Bytes)
    requires Answerable(q, e)
    ensures r == Layout(h, q.QuestionWire(), answers, e)
  {
    hide Header.Wire, AnswersWire, OptWire;
    var w := new Writer();
    h.Write(w);
    w.WriteSlice(q.QuestionWire());
    WriteAnswers(w, answers);
    if e.Some? {
      WriteOpt(w, e.value);
    }
    return w.buf;
  }

  method WriteReply(q: Query, reply: Reply, e: Option<EdnsInfo>) returns (r: Bytes)
    requires Answerable(q, e)
    ensures r == Respond(q, reply, e)
  {
    hide BuildHeader, TcHeader, Layout, BlockAnswers, LocalAnswers, Labels, Encode, Be16, Be32;
    match reply {
      case Block(mode, ttl) =>
        var answers := BlockAnswers(mode, q.question.qtype, ttl);
        var rcode := if mode.BlockNxDomain? then NxDomain else NoError;
        r := WriteLayout(BuildHeader(q.header, rcode, false, |answers|, e), q, answers, e);
      case Local(records, ttl) =>
        var answers := LocalAnswers(records, ttl);
        r := WriteLayout(BuildHeader(q.header, NoError, true, |answers|, e), q, answers, e);
      case LocalNodata =>
        r := WriteLayout(BuildHeader(q.header, NoError, true, 0, e), q, [], e);
      case LocalPtr(target, ttl) =>
        var nameBuf := new Writer();
        WriteName(target, nameBuf);
        assert nameBuf.buf == Encode(Labels(target));
        r := WriteLayout(BuildHeader(q.header, NoError, true, 1, e), q, [AnswerRr(12, ttl, nameBuf.buf)], e);
      case ErrorResponse(rcode) =>
        r := WriteLayout(BuildHeader(q.header, rcode, false, 0, e), q, [], e);
      case Truncated =>
        r := WriteLayout(TcHeader(q.header, e), q, [], e);
    }
  }

  method WriteBareReply(id: u16, rcode: Rcode) returns (r: Bytes)
    ensures r == BareReply(id, rcode)
  {
    var w := new Writer();
    NewHeader(id).WithFlag(FLAG_QR, true).WithRcode(rcode).Write(w);
    return w.buf;
  }
}
