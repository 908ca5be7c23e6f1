/** What the readers make of the responses the server writes. */
module SynthLaws {
  import opened Wire
  import opened Headers
  import opened NameSkip
  import opened Names
  import opened NameLaws
  import opened Records
  import opened TtlScan
  import opened Messages
  import opened Edns
  import opened Synth

  // Flags.

  /** Every bit of a `build` header: QR and RA set, RD copied, AA and RCODE as asked, the rest zero. */
  lemma BuildFlags(q: Header, rcode: Rcode, aa: bool, answers: nat, e: Option<EdnsInfo>)
    ensures var h := BuildHeader(q, rcode, aa, answers, e);
            && h.Qr() && h.Opcode() == 0 && h.Rd() == q.Rd() && h.RcodeBits() == rcode.Bits()
            && h.flags & FLAG_RA != 0 && h.flags & FLAG_TC == 0 && (h.flags & FLAG_AA != 0) == aa
            && h.id == q.id && h.qdcount == 1 && h.ancount == answers % 0x1_0000 && h.nscount == 0 &&
                 h.arcount == OptCount(e)
  {
    var bits := rcode.Bits();
    assert bits & 0xFFF0 == 0;
  }

  lemma TcFlags(q: Header, e: Option<EdnsInfo>)
    ensures var h := TcHeader(q, e);
            && h.Qr() && h.Opcode() == 0 && h.Rd() == q.Rd() && h.RcodeBits() == 0
            && h.flags & FLAG_RA != 0 && h.flags & FLAG_TC != 0 && h.flags & FLAG_AA == 0
            && h.id == q.id && h.qdcount == 1 && h.ancount == 0 && h.nscount == 0 && h.arcount == OptCount(e)
  {
  }

  lemma BareFlags(id: u16, rcode: Rcode)
    ensures NewHeader(id).WithFlag(FLAG_QR, true).WithRcode(rcode).Qr()
  {
    var bits := rcode.Bits();
    assert bits & 0xFFF0 == 0;
  }

  /** The response code each kind of reply announces. */
  function CodeOf(reply: Reply): Rcode {
    match reply
    case Block(BlockNxDomain, _) => NxDomain
    case ErrorResponse(rcode) => rcode
    case _ => NoError
  }

  /** Id, counts and every flag of a response: AA on local answers only, TC on truncation only. */
  lemma ReplyHeaderShape(q: Query, reply: Reply, e: Option<EdnsInfo>)
    ensures var h := ReplyHeader(q, reply, e);
            && h.id == q.header.id && h.Qr() && h.Rd() == q.header.Rd()
            && h.qdcount == 1 && h.nscount == 0
            && h.ancount == |Answers(q, reply)| % 0x1_0000 && h.arcount == OptCount(e)
            && h.Opcode() == 0 && h.RcodeBits() == CodeOf(reply).Bits() && h.flags & FLAG_RA != 0
            && (h.flags & FLAG_AA != 0) == (reply.Local? || reply.LocalNodata? || reply.LocalPtr?)
            && (h.flags & FLAG_TC != 0) == reply.Truncated?
  {
    hide BuildHeader, TcHeader, Header.Qr, Header.Rd, Header.Opcode, Header.RcodeBits;
    TcFlags(q.header, e);
    BuildFlags(q.header, NoError, true, |Answers(q, reply)|, e);
    if reply.ErrorResponse? {
      BuildFlags(q.header, reply.rcode, false, 0, e);
    } else if reply.Block? {
      BuildFlags(q.header, NxDomain, false, |Answers(q, reply)|, e);
      BuildFlags(q.header, NoError, false, |Answers(q, reply)|, e);
    }
  }

  // No reply to a reply.

  lemma ReplyIsDropped(b: Bytes, h: Header)
    requires At(b, 0, h.Wire()) && h.Qr()
    ensures Parse(b).Rejected? && Parse(b).error.Action() == Drop
    ensures U16At(b, 0) == h.id
  {
    HeaderRoundTrip(h, b, 0);
  }

  /** Any response carries the request's id and, fed back to the parser, is dropped without an answer. */
  lemma NoReplyToReply(q: Query, reply: Reply, e: Option<EdnsInfo>)
    requires Answerable(q, e)
    ensures var b := Respond(q, reply, e);
            && |b| >= HEADER_LEN && U16At(b, 0) == q.header.id
            && Parse(b).Rejected? && Parse(b).error.Action() == Drop
  {
    hide Parse, Header.Wire, ReplyHeader;
    var b, h := Respond(q, reply, e), ReplyHeader(q, reply, e);
    ReplyHeaderShape(q, reply, e);
    WireLength(h);
    assert b[0..|h.Wire()|] == h.Wire();
    ReplyIsDropped(b, h);
  }

  /**
   * What a listener sends for a rejected datagram: nothing, or a bare reply that carries the
   * datagram's id and is itself dropped, so two servers cannot exchange errors.
   */
  lemma NoReplyToErrorReply(raw: Bytes, rcode: Rcode)
    requires Parse(raw).Rejected? && Parse(raw).error.Action() != Drop
    ensures var b := BareReply(Parse(raw).error.id.value, rcode);
            && |b| == HEADER_LEN && |raw| >= HEADER_LEN && U16At(b, 0) == U16At(raw, 0)
            && Parse(b).Rejected? && Parse(b).error.Action() == Drop
  {
    hide Header.Wire;
    RejectionId(raw);
    var id := Parse(raw).error.id.value;
    var h := NewHeader(id).WithFlag(FLAG_QR, true).WithRcode(rcode);
    BareFlags(id, rcode);
    WireLength(h);
    var b := BareReply(id, rcode);
    assert b[0..|b|] == b;
    ReplyIsDropped(b, h);
  }

  // Scanning back.

  /** The record that an answer written at `p` must be read back as. */
  function AnswerAt(p: nat, a: AnswerRr, question: seq<Text>): Rr
    requires |a.rdata| < 0x1_0000
  {
    Rr(p, Jump(p, HEADER_LEN, PlainWalk(HEADER_LEN, question)), a.rtype, CLASS_IN, a.ttl, |a.rdata|)
  }

  ghost predicate Fits(answers: seq<AnswerRr>) {
    forall k :: 0 <= k < |answers| ==> |answers[k].rdata| < 0x1_0000
  }

  function AnswersAt(p: nat, answers: seq<AnswerRr>, question: seq<Text>): seq<Rr>
    requires Fits(answers)
    decreases |answers|
  {
    if answers == [] then [] else
    [AnswerAt(p, answers[0], question)] + AnswersAt(p + 12 + |answers[0].rdata|, answers[1..], question)
  }

  function OptAt(p: nat, e: EdnsInfo): Rr
    requires e.Valid()
  {
    Rr(p, Root(p), OPT_TYPE, SERVER_UDP_PAYLOAD_SIZE, 0, |OptRdata(e)|)
  }

  /** A record is its owner followed by its body. */
  lemma FieldsParse(b: Bytes, p: nat, w: Walk, rtype: u16, rclass: u16, ttl: u32, rdata: Bytes)
    requires Skip(b, p) == Ok(w) && At(b, w.End(), RrBody(rtype, rclass, ttl, rdata))
    ensures GetRr(b, p) == Ok(Rr(p, w, rtype, rclass, ttl, |rdata| % 0x1_0000))
    ensures w.End() + 10 + |rdata| <= |b| && b[w.End() + 10..w.End() + 10 + |rdata|] == rdata
  {
    hide Skip, Be16, Be32, U16At, U32At;
    var f := w.End();
    var n: u16 := |rdata| % 0x1_0000;
    AtThen16(b, f, rtype, Be16(rclass) + (Be32(ttl) + (Be16(n) + rdata)));
    AtThen16(b, f + 2, rclass, Be32(ttl) + (Be16(n) + rdata));
    AtThen32(b, f + 4, ttl, Be16(n) + rdata);
    AtThen16(b, f + 8, n, rdata);
  }

  lemma OwnerPointer(b: Bytes, p: nat)
    requires At(b, p, OWNER_PTR) && p > HEADER_LEN && ReadLabels(b, HEADER_LEN, 1).Ok?
    ensures Skip(b, p) == Ok(Jump(p, HEADER_LEN, PlainWalk(HEADER_LEN, ReadLabels(b, HEADER_LEN, 1).value.labels)))
  {
    hide ReadLabels, PlainWalk;
    assert b[p] == b[p..p + 2][0] && b[p + 1] == b[p..p + 2][1];
    WalkersAgree(b, HEADER_LEN, 1);
  }

  lemma AnswerOwner(b: Bytes, p: nat, a: AnswerRr) returns (w: Walk)
    requires ReadLabels(b, HEADER_LEN, 1).Ok? && p > HEADER_LEN && At(b, p, a.Wire())
    ensures w == Jump(p, HEADER_LEN, PlainWalk(HEADER_LEN, ReadLabels(b, HEADER_LEN, 1).value.labels))
    ensures Skip(b, p) == Ok(w) && At(b, p + 2, RrBody(a.rtype, CLASS_IN, a.ttl, a.rdata))
  {
    hide ReadLabels, Skip, RrBody, PlainWalk, At;
    AtConcat(b, p, OWNER_PTR, RrBody(a.rtype, CLASS_IN, a.ttl, a.rdata));
    OwnerPointer(b, p);
    w := Skip(b, p).value;
  }

  lemma AnswerParses(b: Bytes, p: nat, a: AnswerRr)
    requires ReadLabels(b, HEADER_LEN, 1).Ok? && p > HEADER_LEN
    requires At(b, p, a.Wire()) && |a.rdata| < 0x1_0000
    ensures GetRr(b, p) == Ok(AnswerAt(p, a, ReadLabels(b, HEADER_LEN, 1).value.labels))
    ensures p + 12 + |a.rdata| <= |b| && b[p + 12..p + 12 + |a.rdata|] == a.rdata
  {
    hide ReadLabels, Skip, GetRr, RrBody, PlainWalk, At, AnswerRr.Wire;
    var w := AnswerOwner(b, p, a);
    FieldsParse(b, p, w, a.rtype, CLASS_IN, a.ttl, a.rdata);
  }

  /** An answer is read back to its last byte if and only if its RDATA is shorter than 65536 bytes. */
  lemma RdataFitsExact(b: Bytes, p: nat, a: AnswerRr)
    requires ReadLabels(b, HEADER_LEN, 1).Ok? && p > HEADER_LEN && At(b, p, a.Wire())
    ensures GetRr(b, p).Ok? && GetRr(b, p).value.rdlength == |a.rdata| % 0x1_0000
    ensures GetRr(b, p).value.End() == p + |a.Wire()| <==> |a.rdata| < 0x1_0000
  {
    hide ReadLabels, Skip, GetRr, RrBody, PlainWalk, At, AnswerRr.Wire;
    var w := AnswerOwner(b, p, a);
    FieldsParse(b, p, w, a.rtype, CLASS_IN, a.ttl, a.rdata);
    AnswerLength(a);
  }

  lemma {:induction false} AnswersParse(b: Bytes, p: nat, answers: seq<AnswerRr>)
    requires ReadLabels(b, HEADER_LEN, 1).Ok? && p > HEADER_LEN
    requires At(b, p, AnswersWire(answers)) && Fits(answers)
    ensures var rrs := AnswersAt(p, answers, ReadLabels(b, HEADER_LEN, 1).value.labels);
            GetRrs(b, p, |answers|) == Ok(rrs) && |rrs| == |answers| && RrsEnd(p, rrs) == p + |AnswersWire(answers)|
    decreases |answers|
  {
    hide ReadLabels, GetRr, AnswerRr.Wire;
    if answers != [] {
      var a, rest := answers[0], answers[1..];
      AtConcat(b, p, a.Wire(), AnswersWire(rest));
      AnswerLength(a);
      AnswerParses(b, p, a);
      AnswersParse(b, p + 12 + |a.rdata|, rest);
      var labels := ReadLabels(b, HEADER_LEN, 1).value.labels;
      var rrs, tail := AnswersAt(p, answers, labels), AnswersAt(p + 12 + |a.rdata|, rest, labels);
      assert rrs == [AnswerAt(p, a, labels)] + tail;
      assert RrsEnd(p, rrs) == RrsEnd(p + 12 + |a.rdata|, tail);
    }
  }

  lemma RrBodyLength(rtype: u16, rclass: u16, ttl: u32, rdata: Bytes)
    ensures |RrBody(rtype, rclass, ttl, rdata)| == 10 + |rdata|
  {
  }

  lemma AnswerLength(a: AnswerRr)
    ensures |a.Wire()| == 12 + |a.rdata|
  {
  }

  lemma OptParses(b: Bytes, p: nat, e: EdnsInfo)
    requires e.Valid() && At(b, p, OptWire(e))
    ensures GetRr(b, p) == Ok(OptAt(p, e))
    ensures OptAt(p, e).End() == p + |OptWire(e)| <= |b|
    ensures b[p + 11..p + |OptWire(e)|] == OptRdata(e)
  {
    hide GetRr, OptRdata, RrBody;
    OptRdataLength(e);
    RrBodyLength(OPT_TYPE, SERVER_UDP_PAYLOAD_SIZE, 0, OptRdata(e));
    AtConcat(b, p, [0], RrBody(OPT_TYPE, SERVER_UDP_PAYLOAD_SIZE, 0, OptRdata(e)));
    assert b[p] == b[p..p + 1][0];
    assert Skip(b, p) == Ok(Root(p));
    FieldsParse(b, p, Root(p), OPT_TYPE, SERVER_UDP_PAYLOAD_SIZE, 0, OptRdata(e));
  }

  /** The records that a response must be read back as. */
  function ExpectedRrs(q: Query, answers: seq<AnswerRr>, e: Option<EdnsInfo>): seq<Rr>
    requires Fits(answers) && (e.Some? ==> e.value.Valid())
  {
    AnswersAt(q.questionEnd, answers, Labels(q.question.name)) +
    if e.Some? then [OptAt(q.questionEnd + |AnswersWire(answers)|, e.value)] else []
  }

  /** The question bytes copied into a response are the question there too. */
  lemma QuestionCopied(q: Query, b: Bytes)
    requires Parse(q.raw) == Accepted(q)
    requires HEADER_LEN <= q.questionEnd <= |q.raw| && At(b, HEADER_LEN, q.QuestionWire())
    ensures GetQuestions(b, HEADER_LEN, 1) == Ok(q.questionEnd)
    ensures ReadLabels(b, HEADER_LEN, 1).Ok? && ReadLabels(b, HEADER_LEN, 1).value.labels == Labels(q.question.name)
    ensures HEADER_LEN < q.questionEnd <= |b|
  {
    hide ReadLabels, Parse, GetQuestion, GetAsked, IsName, Labels;
    AcceptedShape(q.raw);
    CopyAgrees(q, b);
    AskedLocal(q.raw, b, HEADER_LEN);
    AskedLabels(q.raw, HEADER_LEN);
    AskedIsSkipped(b, HEADER_LEN);
    assert GetQuestions(b, q.questionEnd, 0) == Ok(q.questionEnd);
  }

  lemma CopyAgrees(q: Query, b: Bytes)
    requires HEADER_LEN <= q.questionEnd <= |q.raw| && At(b, HEADER_LEN, q.QuestionWire())
    ensures Agree(q.raw, b, HEADER_LEN, q.questionEnd)
  {
    forall i | HEADER_LEN <= i < q.questionEnd ensures q.raw[i] == b[i] {
      assert b[i] == b[HEADER_LEN..HEADER_LEN + |q.QuestionWire()|][i - HEADER_LEN];
    }
  }

  /** Where the pieces of a response lie. */
  lemma LayoutPieces(h: Header, questionWire: Bytes, answers: seq<AnswerRr>, e: Option<EdnsInfo>)
    requires e.Some? ==> e.value.Valid()
    ensures var b := Layout(h, questionWire, answers, e); var p := HEADER_LEN + |questionWire|;
            && At(b, 0, h.Wire()) && At(b, HEADER_LEN, questionWire)
            && At(b, p, AnswersWire(answers)) && At(b, p + |AnswersWire(answers)|, MaybeOptWire(e))
            && |b| == p + |AnswersWire(answers)| + |MaybeOptWire(e)|
  {
    hide Header.Wire, AnswersWire, MaybeOptWire;
    WireLength(h);
    var b := Layout(h, questionWire, answers, e);
    assert b[0..|b|] == b;
    AtConcat(b, 0, h.Wire(), questionWire + (AnswersWire(answers) + MaybeOptWire(e)));
    AtConcat(b, HEADER_LEN, questionWire, AnswersWire(answers) + MaybeOptWire(e));
    AtConcat(b, HEADER_LEN + |questionWire|, AnswersWire(answers), MaybeOptWire(e));
  }

  /** The records of a response, given where its pieces lie. */
  lemma RecordsParse(q: Query, b: Bytes, answers: seq<AnswerRr>, e: Option<EdnsInfo>)
    requires Parse(q.raw) == Accepted(q) && Answerable(q, e) && Fits(answers)
    requires At(b, HEADER_LEN, q.QuestionWire()) && At(b, q.questionEnd, AnswersWire(answers))
    requires At(b, q.questionEnd + |AnswersWire(answers)|, MaybeOptWire(e))
    ensures var rrs := ExpectedRrs(q, answers, e);
            && GetRrs(b, q.questionEnd, |answers| + OptCount(e)) == Ok(rrs)
            && RrsEnd(q.questionEnd, rrs) == q.questionEnd + |AnswersWire(answers)| + |MaybeOptWire(e)|
  {
    hide Parse, ReadLabels, GetRr, OptRdata, OptWire, GetQuestions, AnswersWire, AnswersAt;
    QuestionCopied(q, b);
    AnswersParse(b, q.questionEnd, answers);
    var x := AnswersAt(q.questionEnd, answers, Labels(q.question.name));
    var p := q.questionEnd + |AnswersWire(answers)|;
    if e.Some? {
      var opt := OptAt(p, e.value);
      OptParses(b, p, e.value);
      assert GetRrs(b, opt.End(), 0) == Ok([]);
      assert [opt] + [] == [opt];
      RrsConcat(b, q.questionEnd, |answers|, 1, x, [opt]);
    } else {
      assert x + [] == x;
    }
  }

  /** Any response to an accepted query is a complete message of exactly the written records. */
  lemma LayoutParses(q: Query, h: Header, answers: seq<AnswerRr>, e: Option<EdnsInfo>)
    requires Parse(q.raw) == Accepted(q) && Answerable(q, e)
    requires h.qdcount == 1 && h.ancount == |answers| && h.nscount == 0 && h.arcount == OptCount(e) && Fits(answers)
    ensures var b := Layout(h, q.QuestionWire(), answers, e);
            && GetMessage(b) == Ok(Message(h, q.questionEnd, ExpectedRrs(q, answers, e)))
            && RrsEnd(q.questionEnd, ExpectedRrs(q, answers, e)) == |b|
            && (e.Some? ==> |OptWire(e.value)| <= |b| && b[|b| - |OptRdata(e.value)|..] == OptRdata(e.value))
  {
    hide Header.Wire, Parse, GetQuestions, GetRrs, OptRdata, OptWire, AnswersWire;
    hide ExpectedRrs, Layout, RrsEnd, GetHeader, ReadLabels, MaybeOptWire;
    var b := Layout(h, q.QuestionWire(), answers, e);
    LayoutPieces(h, q.QuestionWire(), answers, e);
    HeaderRoundTrip(h, b, 0);
    QuestionCopied(q, b);
    RecordsParse(q, b, answers, e);
    if e.Some? {
      OptTail(b, q.questionEnd + |AnswersWire(answers)|, e.value);
    }
  }

  lemma OptTail(b: Bytes, p: nat, e: EdnsInfo)
    requires e.Valid() && At(b, p, MaybeOptWire(Some(e))) && |b| == p + |MaybeOptWire(Some(e))|
    ensures |OptWire(e)| <= |b| && |OptRdata(e)| <= |b| && b[|b| - |OptRdata(e)|..] == OptRdata(e)
  {
    hide OptRdata, OptWire;
    OptParses(b, p, e);
  }

  /** The replies the server builds; local records must be fewer than 65536 and fit their length field. */
  ghost predicate Servable(reply: Reply) {
    match reply
    case Block(BlockAddress(v4, v6), _) => |v4| == 4 && |v6| == 16
    case Local(records, _) => |records| < 0x1_0000 && forall k :: 0 <= k < |records| ==> |records[k].rdata| < 0x1_0000
    case LocalPtr(target, _) => IsName(target)
    case _ => true
  }

  lemma ServableFits(q: Query, reply: Reply)
    requires Servable(reply)
    ensures Fits(Answers(q, reply)) && |Answers(q, reply)| < 0x1_0000
  {
    if reply.LocalPtr? {
      EncodeLength(Labels(reply.target));
    }
  }

  lemma ResponseParses(q: Query, reply: Reply, e: Option<EdnsInfo>)
    requires Parse(q.raw) == Accepted(q) && Answerable(q, e) && Servable(reply)
    ensures Fits(Answers(q, reply))
    ensures var b, rrs := Respond(q, reply, e), ExpectedRrs(q, Answers(q, reply), e);
            && GetMessage(b) == Ok(Message(ReplyHeader(q, reply, e), q.questionEnd, rrs))
            && RrsEnd(q.questionEnd, rrs) == |b|
            && (e.Some? ==> |OptWire(e.value)| <= |b| && b[|b| - |OptRdata(e.value)|..] == OptRdata(e.value))
  {
    hide Parse, Answers, ReplyHeader, GetMessage, ExpectedRrs, OptWire, OptRdata, Layout;
    ServableFits(q, reply);
    ReplyHeaderShape(q, reply, e);
    LayoutParses(q, ReplyHeader(q, reply, e), Answers(q, reply), e);
  }

  // Offsets of the written TTLs.

  lemma {:induction false} OffsetsAllReal(rrs: seq<Rr>)
    requires forall k :: 0 <= k < |rrs| ==> rrs[k].Real()
    ensures |Offsets(rrs)| == |rrs| && forall k :: 0 <= k < |rrs| ==> Offsets(rrs)[k] == rrs[k].TtlAt()
  {
    if rrs != [] {
      OffsetsAllReal(rrs[..|rrs| - 1]);
    }
  }

  lemma {:induction false} OffsetsCount(rrs: seq<Rr>)
    ensures |Offsets(rrs)| <= |rrs|
  {
    if rrs != [] {
      OffsetsCount(rrs[..|rrs| - 1]);
    }
  }

  /** The offset of the TTL that the `k`-th answer was written with. */
  function TtlOffset(q: Query, answers: seq<AnswerRr>, k: nat): nat
    requires k < |answers|
  {
    q.questionEnd + |AnswersWire(answers[..k])| + 6
  }

  lemma {:induction false} AnswersAtIndex(p: nat, answers: seq<AnswerRr>, question: seq<Text>, k: nat)
    requires Fits(answers) && k < |answers|
    ensures var rrs := AnswersAt(p, answers, question);
            && |rrs| == |answers|
            && rrs[k] == AnswerAt(p + |AnswersWire(answers[..k])|, answers[k], question)
    decreases |answers|
  {
    AnswersAtLength(p, answers, question);
    var a, rest := answers[0], answers[1..];
    if k == 0 {
      assert answers[..0] == [];
    } else {
      AnswerLength(a);
      AnswersAtIndex(p + 12 + |a.rdata|, rest, question, k - 1);
      assert answers[..k][0] == a && answers[..k][1..] == rest[..k - 1];
    }
  }

  lemma {:induction false} AnswersAtLength(p: nat, answers: seq<AnswerRr>, question: seq<Text>)
    requires Fits(answers)
    ensures |AnswersAt(p, answers, question)| == |answers|
    decreases |answers|
  {
    if answers != [] {
      AnswersAtLength(p + 12 + |answers[0].rdata|, answers[1..], question);
    }
  }

  ghost predicate NoOptAnswers(answers: seq<AnswerRr>) {
    forall k :: 0 <= k < |answers| ==> answers[k].rtype != OPT_TYPE
  }

  /**
   * A response scans back: one offset per answer, pointing at the TTL it was written with, none
   * for the OPT, and the walk ends at the last byte.
   */
  lemma ResponseScansBack(q: Query, reply: Reply, e: Option<EdnsInfo>)
    requires Parse(q.raw) == Accepted(q) && Answerable(q, e) && Servable(reply) && NoOptAnswers(Answers(q, reply))
    ensures var b, answers := Respond(q, reply, e), Answers(q, reply);
            && Scan(b).Ok? && GetMessage(b).value.End() == |b|
            && |Scan(b).value.offsets| == |answers|
            && forall k :: 0 <= k < |answers| ==>
                 var off := Scan(b).value.offsets[k];
                 off == TtlOffset(q, answers, k) && off + 4 <= |b| && U32At(b, off) == answers[k].ttl
  {
    hide Parse, Answers, ReplyHeader, GetMessage, OptWire, OptRdata;
    hide Respond, ExpectedRrs, Offsets, U32At, IsRr, TtlOffset;
    ResponseParses(q, reply, e);
    var b, answers := Respond(q, reply, e), Answers(q, reply);
    var rrs := ExpectedRrs(q, answers, e);
    ExpectedOffsets(q, answers, e);
    MessageExact(b);
    forall k | 0 <= k < |answers|
      ensures Offsets(rrs)[k] + 4 <= |b| && U32At(b, Offsets(rrs)[k]) == answers[k].ttl
    {
      RrLayout(b, rrs[k]);
    }
  }

  lemma ExpectedOffsets(q: Query, answers: seq<AnswerRr>, e: Option<EdnsInfo>)
    requires Fits(answers) && NoOptAnswers(answers) && (e.Some? ==> e.value.Valid())
    ensures var rrs := ExpectedRrs(q, answers, e);
            && |answers| <= |rrs| && |Offsets(rrs)| == |answers|
            && forall k :: 0 <= k < |answers| ==>
                 Offsets(rrs)[k] == rrs[k].TtlAt() == TtlOffset(q, answers, k) && rrs[k].ttl == answers[k].ttl
  {
    hide AnswersAt, AnswersWire, OptRdata;
    var rrs, labels := ExpectedRrs(q, answers, e), Labels(q.question.name);
    var x := AnswersAt(q.questionEnd, answers, labels);
    AnswersAtLength(q.questionEnd, answers, labels);
    forall k | 0 <= k < |answers|
      ensures x[k] == AnswerAt(q.questionEnd + |AnswersWire(answers[..k])|, answers[k], labels)
    {
      AnswersAtIndex(q.questionEnd, answers, labels, k);
    }
    OffsetsAllReal(x);
    if e.Some? {
      assert rrs[..|rrs| - 1] == x;
    } else {
      assert rrs == x;
    }
  }

  /** The TTL offsets of the answers written from `p` on, any answer of the OPT type left out. */
  function WrittenOffsets(p: nat, answers: seq<AnswerRr>): seq<nat>
    decreases |answers|
  {
    if answers == [] then [] else
    (if answers[0].rtype == OPT_TYPE then [] else [p + 6]) + WrittenOffsets(p + 12 + |answers[0].rdata|, answers[1..])
  }

  lemma {:induction false} OffsetsConcat(x: seq<Rr>, y: seq<Rr>)
    ensures Offsets(x + y) == Offsets(x) + Offsets(y)
    decreases |y|
  {
    hide Offsets, MinTtl;
    if y == [] {
      NoRecords([], 0);
      assert x + y == x;
    } else {
      var init, last := y[..|y| - 1], y[|y| - 1];
      OffsetsConcat(x, init);
      ScanSnoc(init, last);
      ScanSnoc(x + init, last);
      assert y == init + [last] && x + y == (x + init) + [last];
    }
  }

  lemma OffsetsOne(rr: Rr)
    ensures Offsets([rr]) == if rr.Real() then [rr.TtlAt()] else []
  {
    ScanSnoc([], rr);
    assert [rr] == [] + [rr];
  }

  lemma {:induction false} AnswerOffsets(p: nat, answers: seq<AnswerRr>, question: seq<Text>)
    requires Fits(answers)
    ensures Offsets(AnswersAt(p, answers, question)) == WrittenOffsets(p, answers)
    decreases |answers|
  {
    hide Offsets;
    if answers == [] {
      NoRecords([], 0);
    } else {
      var head, rest := AnswerAt(p, answers[0], question),
          AnswersAt(p + 12 + |answers[0].rdata|, answers[1..], question);
      AnswerOffsets(p + 12 + |answers[0].rdata|, answers[1..], question);
      OffsetsConcat([head], rest);
      OffsetsOne(head);
    }
  }

  /** `t` is the least TTL among the answers that are not of the OPT type, if there is any. */
  ghost predicate IsLeastTtl(answers: seq<AnswerRr>, t: Option<u32>) {
    match t
    case None => forall k :: 0 <= k < |answers| ==> answers[k].rtype == OPT_TYPE
    case Some(v) =>
      && (exists k :: 0 <= k < |answers| && answers[k].rtype != OPT_TYPE && answers[k].ttl == v)
      && (forall k :: 0 <= k < |answers| && answers[k].rtype != OPT_TYPE ==> v <= answers[k].ttl)
  }

  lemma AnswerMinTtl(q: Query, answers: seq<AnswerRr>, e: Option<EdnsInfo>)
    requires Fits(answers) && (e.Some? ==> e.value.Valid())
    ensures IsLeastTtl(answers, MinTtl(ExpectedRrs(q, answers, e)))
  {
    hide AnswersAt, AnswersWire, OptRdata, MinTtl;
    var rrs, labels := ExpectedRrs(q, answers, e), Labels(q.question.name);
    AnswersAtLength(q.questionEnd, answers, labels);
    forall k | 0 <= k < |answers| ensures rrs[k].rtype == answers[k].rtype && rrs[k].ttl == answers[k].ttl {
      AnswersAtIndex(q.questionEnd, answers, labels, k);
    }
    assert forall k :: |answers| <= k < |rrs| ==> !rrs[k].Real();
    MinTtlExact(rrs);
  }

  /**
   * What the scan of any servable response yields, whatever the types of its answers: the offsets
   * of the TTLs written for them and the least of those TTLs, answers of the OPT type left out.
   */
  lemma ResponseScanExact(q: Query, reply: Reply, e: Option<EdnsInfo>)
    requires Parse(q.raw) == Accepted(q) && Answerable(q, e) && Servable(reply)
    ensures var s, answers := Scan(Respond(q, reply, e)), Answers(q, reply);
            s.Ok? && s.value.offsets == WrittenOffsets(q.questionEnd, answers) && IsLeastTtl(answers, s.value.minTtl)
  {
    hide Parse, Answers, ReplyHeader, GetMessage, OptWire, OptRdata;
    hide Respond, AnswersAt, AnswersWire, Offsets, MinTtl, WrittenOffsets;
    ResponseParses(q, reply, e);
    var answers := Answers(q, reply);
    var x := AnswersAt(q.questionEnd, answers, Labels(q.question.name));
    AnswerMinTtl(q, answers, e);
    AnswerOffsets(q.questionEnd, answers, Labels(q.question.name));
    if e.Some? {
      var opt := OptAt(q.questionEnd + |AnswersWire(answers)|, e.value);
      OffsetsConcat(x, [opt]);
      OffsetsOne(opt);
    } else {
      assert x + [] == x;
    }
  }

  lemma {:induction false} WrittenOffsetsCount(p: nat, answers: seq<AnswerRr>)
    ensures |WrittenOffsets(p, answers)| <= |answers|
    ensures |WrittenOffsets(p, answers)| == |answers| <==> NoOptAnswers(answers)
    decreases |answers|
  {
    if answers != [] {
      WrittenOffsetsCount(p + 12 + |answers[0].rdata|, answers[1..]);
      assert NoOptAnswers(answers) <==> answers[0].rtype != OPT_TYPE && NoOptAnswers(answers[1..]) by {
        assert answers == [answers[0]] + answers[1..];
      }
    }
  }

  lemma {:induction false} AnswerPlaced(b: Bytes, p: nat, answers: seq<AnswerRr>, k: nat)
    requires At(b, p, AnswersWire(answers)) && k < |answers|
    ensures At(b, p + |AnswersWire(answers[..k])|, answers[k].Wire())
    decreases |answers|
  {
    hide AnswerRr.Wire;
    var a, rest := answers[0], answers[1..];
    AtConcat(b, p, a.Wire(), AnswersWire(rest));
    if k == 0 {
      assert answers[..0] == [];
    } else {
      AnswerPlaced(b, p + |a.Wire()|, rest, k - 1);
      assert answers[..k][0] == a && answers[..k][1..] == rest[..k - 1];
    }
  }

  /** The RDATA of every answer follows its TTL and length field byte for byte. */
  lemma ResponseCarriesRdata(q: Query, reply: Reply, e: Option<EdnsInfo>, k: nat)
    requires Answerable(q, e) && k < |Answers(q, reply)|
    ensures At(Respond(q, reply, e), TtlOffset(q, Answers(q, reply), k) + 6, Answers(q, reply)[k].rdata)
  {
    hide Answers, ReplyHeader, AnswersWire, Layout;
    var b, answers := Respond(q, reply, e), Answers(q, reply);
    LayoutPieces(ReplyHeader(q, reply, e), q.QuestionWire(), answers, e);
    AnswerPlaced(b, q.questionEnd, answers, k);
    var a := answers[k];
    var p := q.questionEnd + |AnswersWire(answers[..k])|;
    AtConcat(b, p, OWNER_PTR, RrBody(a.rtype, CLASS_IN, a.ttl, a.rdata));
    BodyTail(b, p + 2, a.rtype, CLASS_IN, a.ttl, a.rdata);
  }

  lemma BodyTail(b: Bytes, p: nat, rtype: u16, rclass: u16, ttl: u32, rdata: Bytes)
    requires At(b, p, RrBody(rtype, rclass, ttl, rdata))
    ensures At(b, p + 10, rdata)
  {
    var len := |rdata| % 0x1_0000;
    AtThen16(b, p, rtype, Be16(rclass) + (Be32(ttl) + (Be16(len) + rdata)));
    AtThen16(b, p + 2, rclass, Be32(ttl) + (Be16(len) + rdata));
    AtThen32(b, p + 4, ttl, Be16(len) + rdata);
    AtThen16(b, p + 8, len, rdata);
  }

  /** No scan of a response lists more offsets than its header counts announce. */
  lemma OffsetsBounded(q: Query, reply: Reply, e: Option<EdnsInfo>)
    requires Answerable(q, e) && Scan(Respond(q, reply, e)).Ok?
    ensures |Scan(Respond(q, reply, e)).value.offsets| <= |Answers(q, reply)| % 0x1_0000 + OptCount(e)
  {
    hide ReplyHeader, Respond, Answers, GetQuestions, GetRrs;
    var b := Respond(q, reply, e);
    RespondHeader(q, reply, e);
    ReplyHeaderShape(q, reply, e);
    MessageExact(b);
    OffsetsCount(GetMessage(b).value.rrs);
  }

  /**
   * With 65536 records or more the ANCOUNT cast wraps, and the scan no longer lists every answer;
   * with fewer it does, unless one of them is of the OPT type.
   */
  lemma LocalCountExact(q: Query, records: seq<LocalRecord>, ttl: u32, e: Option<EdnsInfo>)
    requires Parse(q.raw) == Accepted(q) && Answerable(q, e)
    requires forall k :: 0 <= k < |records| ==> |records[k].rdata| < 0x1_0000
    ensures var s := Scan(Respond(q, Local(records, ttl), e));
            s.Ok? && |s.value.offsets| == |records| <==>
            |records| < 0x1_0000 && forall k :: 0 <= k < |records| ==> records[k].rtype != OPT_TYPE
  {
    hide Parse, Respond, Scan, WrittenOffsets;
    if |records| < 0x1_0000 {
      var answers := LocalAnswers(records, ttl);
      ResponseScanExact(q, Local(records, ttl), e);
      WrittenOffsetsCount(q.questionEnd, answers);
      forall k | 0 <= k < |records| ensures answers[k].rtype == records[k].rtype {
      }
    } else if Scan(Respond(q, Local(records, ttl), e)).Ok? {
      OffsetsBounded(q, Local(records, ttl), e);
    }
  }

  lemma RespondHeader(q: Query, reply: Reply, e: Option<EdnsInfo>)
    requires Answerable(q, e)
    ensures GetHeader(Respond(q, reply, e), 0) == Ok(ReplyHeader(q, reply, e))
  {
    hide ReplyHeader, Header.Wire, Answers;
    var h := ReplyHeader(q, reply, e);
    LayoutPieces(h, q.QuestionWire(), Answers(q, reply), e);
    HeaderRoundTrip(h, Respond(q, reply, e), 0);
  }

  // Cookie reflection.

  lemma CookieRoundTrip(e: EdnsInfo)
    requires e.Valid()
    ensures FirstCookie(Options(OptRdata(e))) == e.cookie
  {
    hide Options;
    if e.cookie.Some? {
      var opts := [EdnsOption(EDNS_OPTION_COOKIE, e.cookie.value)];
      assert opts[1..] == [] && OptionsWire(opts) == OptRdata(e);
      OptionsRoundTrip(opts);
    } else {
      OptionsRoundTrip([]);
    }
  }

  /** A response carries an OPT exactly when asked to, with the server's size and the client's cookie. */
  lemma ResponseEchoesEdns(q: Query, reply: Reply, e: Option<EdnsInfo>)
    requires Parse(q.raw) == Accepted(q) && Answerable(q, e) && Servable(reply)
    ensures EdnsScan(Respond(q, reply, e)) ==
            if e.Some? then Some(EdnsInfo(SERVER_UDP_PAYLOAD_SIZE, e.value.cookie)) else None
  {
    hide Parse, Answers, ReplyHeader, GetMessage, OptWire, OptRdata;
    hide Respond, AnswersAt, AnswersWire, EdnsScan, Options, FirstCookie;
    hide Labels, Servable, Fits, Header.Qr, Header.Rd, Header.Opcode, Header.RcodeBits, CodeOf;
    var b, answers := Respond(q, reply, e), Answers(q, reply);
    ResponseParses(q, reply, e);
    ReplyHeaderShape(q, reply, e);
    ServableFits(q, reply);
    EdnsScanMatchesRecords(b);
    var rrs := ExpectedRrs(q, answers, e);
    AnswersAtLength(q.questionEnd, answers, Labels(q.question.name));
    if e.Some? {
      var opt := rrs[|rrs| - 1];
      assert rrs[|answers|..] == [opt];
      assert b[opt.RdataAt()..opt.End()] == b[|b| - |OptRdata(e.value)|..];
      CookieRoundTrip(e.value);
    } else {
      assert rrs[|answers|..] == [];
    }
  }

  /** End to end: whatever cookie the scan of an accepted query finds comes back in the response. */
  lemma CookieReflected(raw: Bytes, reply: Reply)
    requires Parse(raw).Accepted? && Servable(reply) && EdnsScan(raw).Some?
    ensures EdnsScan(raw).value.Valid() && Answerable(Parse(raw).query, EdnsScan(raw))
    ensures EdnsScan(Respond(Parse(raw).query, reply, EdnsScan(raw)))
         == Some(EdnsInfo(SERVER_UDP_PAYLOAD_SIZE, EdnsScan(raw).value.cookie))
  {
    hide Parse, Respond, EdnsScan;
    AcceptedShape(raw);
    EdnsScanValid(raw);
    ResponseEchoesEdns(Parse(raw).query, reply, EdnsScan(raw));
  }
}
