/** The replies in terms of their bytes: who is answered with what. */
module ReplyLaws {
  import opened Wire
  import opened Headers
  import opened Names
  import opened NameLaws
  import opened Records
  import opened Messages
  import opened Edns
  import opened Synth
  import opened SynthLaws

  /** Record `k` of the message: owned by the question's name, of class IN, with these fields and RDATA. */
  ghost predicate Carries(b: Bytes, k: nat, rtype: u16, ttl: u32, rdata: Bytes) {
    && GetMessage(b).Ok? && k < |GetMessage(b).value.rrs|
    && var rr := GetMessage(b).value.rrs[k];
       && rr.owner + 2 <= |b| && U16At(b, rr.owner) == 0xC00C && rr.rtype == rtype && rr.rclass == 1
       && rr.ttl == ttl && rr.rdlength == |rdata| && At(b, rr.owner + 12, rdata)
  }

  /** The message announces and has `n` answers, and no authority records. */
  ghost predicate HasAnswers(b: Bytes, n: nat) {
    GetMessage(b).Ok? && U16At(b, 6) == n && U16At(b, 8) == 0 && n <= |GetMessage(b).value.rrs|
  }

  lemma AnswerServed(q: Query, reply: Reply, e: Option<EdnsInfo>, k: nat)
    requires Parse(q.raw) == Accepted(q) && Answerable(q, e) && Servable(reply) && k < |Answers(q, reply)|
    ensures var a := Answers(q, reply)[k]; Carries(Respond(q, reply, e), k, a.rtype, a.ttl, a.rdata)
  {
    hide Parse, Answers, ReplyHeader, GetMessage, OptWire, OptRdata, Respond, AnswersAt, AnswersWire, U16At, PlainWalk;
    ResponseParses(q, reply, e);
    ResponseCarriesRdata(q, reply, e, k);
    var b, answers := Respond(q, reply, e), Answers(q, reply);
    AnswersAtIndex(q.questionEnd, answers, Labels(q.question.name), k);
    AnswerOwnerWord(q, reply, e, k);
  }

  lemma AnswerOwnerWord(q: Query, reply: Reply, e: Option<EdnsInfo>, k: nat)
    requires Answerable(q, e) && k < |Answers(q, reply)|
    ensures var p := q.questionEnd + |AnswersWire(Answers(q, reply)[..k])|; var b := Respond(q, reply, e);
            p + 2 <= |b| && U16At(b, p) == 0xC00C
  {
    hide Answers, ReplyHeader, AnswersWire, Layout, RrBody, At, U16At, MaybeOptWire, Header.Wire;
    var b, answers := Respond(q, reply, e), Answers(q, reply);
    LayoutPieces(ReplyHeader(q, reply, e), q.QuestionWire(), answers, e);
    AnswerPlaced(b, q.questionEnd, answers, k);
    OwnerWord(b, q.questionEnd + |AnswersWire(answers[..k])|, answers[k]);
  }

  lemma OwnerWord(b: Bytes, p: nat, a: AnswerRr)
    requires At(b, p, a.Wire())
    ensures p + 2 <= |b| && U16At(b, p) == 0xC00C
  {
    hide RrBody;
    AtConcat(b, p, OWNER_PTR, RrBody(a.rtype, CLASS_IN, a.ttl, a.rdata));
    assert OWNER_PTR == Be16(0xC00C);
    AtField16(b, p, 0xC00C);
  }

  lemma AnswersCounted(q: Query, reply: Reply, e: Option<EdnsInfo>)
    requires Parse(q.raw) == Accepted(q) && Answerable(q, e) && Servable(reply)
    ensures HasAnswers(Respond(q, reply, e), |Answers(q, reply)|)
    ensures |GetMessage(Respond(q, reply, e)).value.rrs| == |Answers(q, reply)| + if e.Some? then 1 else 0
  {
    hide Parse, Answers, ReplyHeader, GetMessage, OptWire, OptRdata, Respond, AnswersAt, AnswersWire, U16At;
    ResponseParses(q, reply, e);
    ServableFits(q, reply);
    ReplyHeaderShape(q, reply, e);
    MessageExact(Respond(q, reply, e));
    AnswersAtLength(q.questionEnd, Answers(q, reply), Labels(q.question.name));
  }

  /** The type asked for, as the client's bytes say. */
  lemma AskedType(q: Query)
    requires Parse(q.raw) == Accepted(q)
    ensures 17 <= q.questionEnd <= |q.raw|
    ensures var t := U16At(q.raw, q.questionEnd - 4);
            (q.question.qtype == A <==> t == 1) && (q.question.qtype == Aaaa <==> t == 28)
  {
    hide Parse, GetAsked, ReadLabels, IsName, U16At;
    AcceptedShape(q.raw);
    AskedExact(q.raw, HEADER_LEN);
  }

  /**
   * A blocked query in address mode is answered with the IPv4 address if it asks for type 1 and
   * with the IPv6 address if it asks for type 28; every other blocked query has no answer.
   */
  lemma BlockReply(q: Query, mode: BlockMode, ttl: u32, e: Option<EdnsInfo>)
    requires Parse(q.raw) == Accepted(q) && Answerable(q, e)
    requires mode.BlockAddress? ==> |mode.v4| == 4 && |mode.v6| == 16
    ensures 17 <= q.questionEnd <= |q.raw|
    ensures var b, t := Respond(q, Block(mode, ttl), e), U16At(q.raw, q.questionEnd - 4);
            if mode.BlockAddress? && t == 1 then HasAnswers(b, 1) && Carries(b, 0, 1, ttl, mode.v4)
            else if mode.BlockAddress? && t == 28 then HasAnswers(b, 1) && Carries(b, 0, 28, ttl, mode.v6)
            else HasAnswers(b, 0)
  {
    hide Parse, Respond, U16At, HasAnswers, Carries;
    var reply := Block(mode, ttl);
    AskedType(q);
    AnswersCounted(q, reply, e);
    if |Answers(q, reply)| > 0 {
      AnswerServed(q, reply, e, 0);
    }
  }

  /** A local reply carries every record it is given, in order, under the one TTL. */
  lemma LocalReply(q: Query, records: seq<LocalRecord>, ttl: u32, e: Option<EdnsInfo>)
    requires Parse(q.raw) == Accepted(q) && Answerable(q, e) && Servable(Local(records, ttl))
    ensures var b := Respond(q, Local(records, ttl), e);
            HasAnswers(b, |records|) &&
            forall k :: 0 <= k < |records| ==> Carries(b, k, records[k].rtype, ttl, records[k].rdata)
  {
    hide Parse, Respond, HasAnswers, Carries;
    var reply := Local(records, ttl);
    AnswersCounted(q, reply, e);
    forall k | 0 <= k < |records|
      ensures Carries(Respond(q, reply, e), k, records[k].rtype, ttl, records[k].rdata)
    {
      AnswerServed(q, reply, e, k);
    }
  }

  /** A PTR reply has one answer of type 12, and reading its RDATA gives the target name. */
  lemma PtrReply(q: Query, target: Text, ttl: u32, e: Option<EdnsInfo>)
    requires Parse(q.raw) == Accepted(q) && Answerable(q, e) && IsName(target)
    ensures var b := Respond(q, LocalPtr(target, ttl), e);
            && HasAnswers(b, 1) && Carries(b, 0, 12, ttl, Encode(Labels(target)))
            && var rr := GetMessage(b).value.rrs[0];
               ReadLabels(b, rr.owner + 12, 1) == Ok(WireName(Labels(target), rr.owner + 12 + rr.rdlength))
  {
    hide Parse, Respond, HasAnswers, Carries, GetMessage, IsName, ReadLabels, U16At;
    var reply := LocalPtr(target, ttl);
    AnswersCounted(q, reply, e);
    AnswerServed(q, reply, e, 0);
    PtrReadable(Respond(q, reply, e), target, ttl);
  }

  lemma PtrReadable(b: Bytes, target: Text, ttl: u32)
    requires IsName(target) && Carries(b, 0, 12, ttl, Encode(Labels(target)))
    ensures GetMessage(b).Ok? && GetMessage(b).value.rrs != []
    ensures var rr := GetMessage(b).value.rrs[0];
            ReadLabels(b, rr.owner + 12, 1) == Ok(WireName(Labels(target), rr.owner + 12 + rr.rdlength))
  {
    hide GetMessage, IsName, ReadLabels, U16At;
    WriteThenRead(b, GetMessage(b).value.rrs[0].owner + 12, target);
  }

  /** NODATA, error and truncated replies carry no record but the OPT. */
  lemma EmptyReply(q: Query, reply: Reply, e: Option<EdnsInfo>)
    requires Parse(q.raw) == Accepted(q) && Answerable(q, e)
    requires reply.LocalNodata? || reply.ErrorResponse? || reply.Truncated?
    ensures HasAnswers(Respond(q, reply, e), 0)
    ensures |GetMessage(Respond(q, reply, e)).value.rrs| == if e.Some? then 1 else 0
  {
    hide Parse, Respond, GetMessage;
    AnswersCounted(q, reply, e);
  }

  /** Every reply repeats the question byte for byte, in the client's letter case. */
  lemma QuestionEchoed(q: Query, reply: Reply, e: Option<EdnsInfo>)
    requires Parse(q.raw) == Accepted(q) && Answerable(q, e)
    ensures Agree(q.raw, Respond(q, reply, e), 12, q.questionEnd)
  {
    hide Answers, ReplyHeader, AnswersWire, Layout;
    LayoutPieces(ReplyHeader(q, reply, e), q.QuestionWire(), Answers(q, reply), e);
    CopyAgrees(q, Respond(q, reply, e));
  }

  // The numbers on the wire.

  ghost function CodeNumber(rcode: Rcode): nat {
    match rcode
    case NoError => 0
    case FormErr => 1
    case ServFail => 2
    case NxDomain => 3
    case NotImpl => 4
    case Refused => 5
    case OtherRcode(n) => (n & 0x0F) as int
  }

  /** The flags word of each reply but for RD: QR and RA, AA on local answers, TC, and the code. */
  ghost function FlagsNumber(reply: Reply): nat {
    match reply
    case Block(mode, _) => if mode.BlockNxDomain? then 0x8083 else 0x8080
    case Local(_, _) => 0x8480
    case LocalNodata => 0x8480
    case LocalPtr(_, _) => 0x8480
    case ErrorResponse(rcode) => 0x8080 + CodeNumber(rcode)
    case Truncated => 0x8280
  }

  /** The second word of every reply, as a number; RD is the client's. */
  lemma ReplyFlagsWord(q: Query, reply: Reply, e: Option<EdnsInfo>)
    requires Parse(q.raw) == Accepted(q) && Answerable(q, e)
    requires reply.ErrorResponse? ==> !reply.rcode.OtherRcode?
    ensures |Respond(q, reply, e)| >= 12 && |q.raw| >= 12
    ensures U16At(Respond(q, reply, e), 2) ==
            FlagsNumber(reply) + if FlagsOf(U16At(q.raw, 2)) & 0x0100 != 0 then 0x0100 else 0
  {
    hide U16At, FlagsOf, FlagsWord, Answers, GetAsked, Parse, ReplyHeader, Header.Rd, Header.Wire, FlagsNumber;
    var h := ReplyHeader(q, reply, e);
    AcceptedShape(q.raw);
    FlagBits(q.raw);
    LayoutPieces(h, q.QuestionWire(), Answers(q, reply), e);
    FlagsWordAt(Respond(q, reply, e), h);
    FlagsNumberOf(q, reply, e);
  }

  lemma FlagsWordAt(b: Bytes, h: Header)
    requires At(b, 0, h.Wire())
    ensures |b| >= 12 && U16At(b, 2) == FlagsWord(h.flags)
  {
    FieldsAt(b, 0, h.id, FlagsWord(h.flags), h.qdcount, h.ancount, h.nscount, h.arcount);
  }

  lemma FlagsNumberOf(q: Query, reply: Reply, e: Option<EdnsInfo>)
    requires reply.ErrorResponse? ==> !reply.rcode.OtherRcode?
    ensures FlagsWord(ReplyHeader(q, reply, e).flags) == FlagsNumber(reply) + if q.header.Rd() then 0x0100 else 0
  {
    hide Header.Rd, Answers, BuildHeader, TcHeader, FlagsWord, CodeNumber;
    assert CodeNumber(NoError) == 0 && CodeNumber(NxDomain) == 3 by {
      Codes();
    }
    var h := q.header;
    match reply
    case Block(mode, _) =>
      BuildNumber(h, if mode.BlockNxDomain? then NxDomain else NoError, false, |Answers(q, reply)|, e);
    case ErrorResponse(rcode) => BuildNumber(h, rcode, false, 0, e);
    case Truncated => TcNumber(h, e);
    case _ => BuildNumber(h, NoError, true, |Answers(q, reply)|, e);
  }

  lemma Codes()
    ensures CodeNumber(NoError) == 0 && CodeNumber(NxDomain) == 3
  {
  }

  lemma BuildNumber(q: Header, rcode: Rcode, aa: bool, answers: nat, e: Option<EdnsInfo>)
    requires !rcode.OtherRcode?
    ensures FlagsWord(BuildHeader(q, rcode, aa, answers, e).flags) ==
            (if aa then 0x8480 else 0x8080) + CodeNumber(rcode) + if q.Rd() then 0x0100 else 0
  {
    hide Header.Rd;
  }

  lemma TcNumber(q: Header, e: Option<EdnsInfo>)
    ensures FlagsWord(TcHeader(q, e).flags) == 0x8280 + if q.Rd() then 0x0100 else 0
  {
    hide Header.Rd;
  }

  /** FORMERR and NOTIMP byte by byte: the id, QR alone, the code, and no counts. */
  lemma BareReplyBytes(id: u16, rcode: Rcode)
    requires !rcode.OtherRcode?
    ensures BareReply(id, rcode) == [id / 256, id % 256, 0x80, CodeNumber(rcode), 0, 0, 0, 0, 0, 0, 0, 0]
  {
    assert FlagsWord(NewHeader(id).WithFlag(FLAG_QR, true).WithRcode(rcode).flags) == 0x8000 + CodeNumber(rcode);
  }

  /** The OPT of a reply byte by byte: root owner, type 41, payload size 1232, and the cookie if any. */
  lemma OptBytes(e: EdnsInfo)
    requires e.Valid()
    ensures e.cookie.None? ==> OptWire(e) == [0, 0, 41, 0x04, 0xD0, 0, 0, 0, 0, 0, 0]
    ensures e.cookie.Some? ==>
              var n := |e.cookie.value|;
              n <= 40 && OptWire(e) == [0, 0, 41, 0x04, 0xD0, 0, 0, 0, 0, 0, 4 + n, 0, 10, 0, n] + e.cookie.value
  {
    OptParts(e);
  }
}
