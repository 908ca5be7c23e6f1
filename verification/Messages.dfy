/** The shallow query parse: header and the single question (sections 4.1.1 and 4.1.2 of RFC 1035). */
module Messages {
  import opened Wire
  import opened Cursor
  import opened Headers
  import opened NameSkip
  import opened Names
  import opened NameLaws
  import opened Records

  const MAX_MESSAGE_LEN: nat := 65535

  datatype Qtype = A | Aaaa | Ptr | OtherType(v: u16) {
    function Code(): u16 {
      match this
      case A => 1
      case Aaaa => 28
      case Ptr => 12
      case OtherType(v) => v
    }
  }

  function QtypeOf(v: u16): Qtype {
    match v
    case 1 => A
    case 28 => Aaaa
    case 12 => Ptr
    case _ => OtherType(v)
  }

  datatype Qclass = In | OtherClass(v: u16) {
    function Code(): u16 {
      match this
      case In => 1
      case OtherClass(v) => v
    }
  }

  function QclassOf(v: u16): Qclass {
    if v == 1 then In else OtherClass(v)
  }

  /** The cache key: normalized name, type and class. */
  datatype Question = Question(name: Text, qtype: Qtype, qclass: Qclass) {
    function Wire(): Bytes {
      Encode(Labels(name)) + Be16(qtype.Code()) + Be16(qclass.Code())
    }

    method Write(writer: Writer)
      modifies writer
      ensures writer.buf == old(writer.buf) + Wire()
    {
      WriteName(name, writer);
      writer.WriteU16(qtype.Code());
      writer.WriteU16(qclass.Code());
    }
  }

  datatype Asked = Asked(question: Question, end: nat)

  function GetAsked(b: Bytes, p: nat): Result<Asked> {
    var name :- ReadLabels(b, p, 1);
    var qtype :- GetU16(b, name.end);
    var qclass :- GetU16(b, name.end + 2);
    Ok(Asked(Question(Canonical(name.labels), QtypeOf(qtype), QclassOf(qclass)), name.end + 4))
  }

  method ReadQuestion(reader: Reader) returns (r: Result<Question>)
    modifies reader
    ensures var spec := GetAsked(reader.buf, old(reader.pos));
            if spec.Ok? then r == Ok(spec.value.question) && reader.pos == spec.value.end
            else r == Err(spec.error)
  {
    var name :- ReadQuestionName(reader);
    var qtype :- reader.ReadU16();
    var qclass :- reader.ReadU16();
    return Ok(Question(name, QtypeOf(qtype), QclassOf(qclass)));
  }

  datatype Query = Query(raw: Bytes, header: Header, question: Question, questionEnd: nat) {
    /** The question section as the client sent it, letter case included. */
    function QuestionWire(): Bytes
      requires HEADER_LEN <= questionEnd <= |raw|
    {
      raw[HEADER_LEN..questionEnd]
    }
  }

  datatype RejectAction = Drop | ReplyFormErr(id: u16) | ReplyNotImp(id: u16)

  datatype ParseError = ParseError(id: Option<u16>, kind: Error) {
    function Action(): RejectAction {
      if id.None? then Drop
      else if kind.NotARequest? then Drop
      else if kind.UnsupportedOpcode? then ReplyNotImp(id.value)
      else ReplyFormErr(id.value)
    }
  }

  datatype Parsed = Accepted(query: Query) | Rejected(error: ParseError)

  function Parse(raw: Bytes): Parsed {
    if |raw| > MAX_MESSAGE_LEN then Rejected(ParseError(None, MessageTooLong(|raw|))) else
    match GetHeader(raw, 0)
    case Err(e) => Rejected(ParseError(None, e))
    case Ok(header) =>
      if header.Qr() then Rejected(ParseError(Some(header.id), NotARequest))
      else if header.Opcode() != 0 then Rejected(ParseError(Some(header.id), UnsupportedOpcode(header.Opcode() as int)))
      else if header.qdcount != 1 then Rejected(ParseError(Some(header.id), InvalidQuestionCount(header.qdcount)))
      else match GetAsked(raw, HEADER_LEN)
           case Err(e) => Rejected(ParseError(Some(header.id), e))
           case Ok(asked) => Accepted(Query(raw, header, asked.question, asked.end))
  }

  method ParseQuery(raw: Bytes) returns (r: Parsed)
    ensures r == Parse(raw)
  {
    hide GetAsked;
    if |raw| > MAX_MESSAGE_LEN {
      return Rejected(ParseError(None, MessageTooLong(|raw|)));
    }
    var reader := new Reader(raw);
    var h := ReadHeader(reader);
    if h.Err? {
      return Rejected(ParseError(None, h.error));
    }
    var header := h.value;
    if header.Qr() {
      return Rejected(ParseError(Some(header.id), NotARequest));
    }
    if header.Opcode() != 0 {
      return Rejected(ParseError(Some(header.id), UnsupportedOpcode(header.Opcode() as int)));
    }
    if header.qdcount != 1 {
      return Rejected(ParseError(Some(header.id), InvalidQuestionCount(header.qdcount)));
    }
    var q := ReadQuestion(reader);
    if q.Err? {
      return Rejected(ParseError(Some(header.id), q.error));
    }
    return Accepted(Query(raw, header, q.value, reader.pos));
  }

  // Laws.

  /** A rejected datagram carries an id exactly when its length allows a header and a frame. */
  lemma RejectionId(raw: Bytes)
    requires Parse(raw).Rejected?
    ensures Parse(raw).error.id.Some? <==> HEADER_LEN <= |raw| <= MAX_MESSAGE_LEN
    ensures Parse(raw).error.id.Some? ==> Parse(raw).error.id.value == U16At(raw, 0)
  {
  }

  /** When a question is read, and what it says: the type and class are the two words after the name. */
  lemma AskedExact(b: Bytes, p: nat)
    ensures GetAsked(b, p).Ok? <==> ReadLabels(b, p, 1).Ok? && ReadLabels(b, p, 1).value.end + 4 <= |b|
    ensures GetAsked(b, p).Ok? ==>
              var asked, name := GetAsked(b, p).value, ReadLabels(b, p, 1).value;
              var t, c := U16At(b, name.end), U16At(b, name.end + 2);
              && asked.end == name.end + 4
              && asked.question.name == (if name.labels == [] then [DOT] else Dotted(name.labels))
              && (asked.question.qtype == A <==> t == 1) && (asked.question.qtype == Aaaa <==> t == 28)
              && (asked.question.qtype == Ptr <==> t == 12)
              && (asked.question.qtype == OtherType(t) <==> t !in {1, 12, 28})
              && (asked.question.qclass == In <==> c == 1) && (asked.question.qclass == OtherClass(c) <==> c != 1)
  {
    hide ReadLabels;
  }

  /**
   * What a query is: 12 to 65535 bytes with the response bit clear, opcode 0, one question, and a
   * question that can be read. Nothing else is looked at, the record counts in particular.
   */
  lemma AcceptExact(raw: Bytes)
    ensures Parse(raw).Accepted? <==>
              && 12 <= |raw| <= 65535
              && FlagsOf(U16At(raw, 2)) & 0x8000 == 0 && FlagsOf(U16At(raw, 2)) & 0x7800 == 0
              && U16At(raw, 4) == 1 && GetAsked(raw, 12).Ok?
  {
    hide GetAsked, U16At, Header.Qr, Header.Opcode, FlagsOf;
    if 12 <= |raw| {
      FlagBits(raw);
    }
  }

  /** What is answered when a query is refused: nothing to short data, long data and responses. */
  lemma ActionExact(raw: Bytes)
    requires Parse(raw).Rejected?
    ensures Parse(raw).error.Action() ==
            if !(12 <= |raw| <= 65535) || FlagsOf(U16At(raw, 2)) & 0x8000 != 0 then Drop
            else if FlagsOf(U16At(raw, 2)) & 0x7800 != 0 then ReplyNotImp(U16At(raw, 0))
            else ReplyFormErr(U16At(raw, 0))
  {
    hide GetAsked, U16At, Header.Qr, Header.Opcode, FlagsOf;
    if 12 <= |raw| {
      FlagBits(raw);
      AskedErrors(raw, 12);
    }
  }

  /** Reading a question never fails with one of the two errors of the header checks. */
  lemma AskedErrors(b: Bytes, p: nat)
    ensures GetAsked(b, p).Err? ==> !GetAsked(b, p).error.NotARequest? && !GetAsked(b, p).error.UnsupportedOpcode?
  {
    hide ReadLabels;
    ReadErrors(b, p, 1);
  }

  lemma {:induction false} ReadErrors(b: Bytes, p: nat, wireLen: nat)
    ensures ReadLabels(b, p, wireLen).Err? ==>
              var e := ReadLabels(b, p, wireLen).error; !e.NotARequest? && !e.UnsupportedOpcode?
    decreases SatSub(|b|, p)
  {
    hide ValidateLabel, Lowercase;
    if p < |b| && 1 <= b[p] <= MAX_LABEL_LEN && p + 1 + b[p] <= |b| {
      var l := b[p + 1..p + 1 + b[p]];
      if ValidateLabel(l).Err? {
        ValidationExact(l, ValidateLabel(l).error);
      }
      ReadErrors(b, p + 1 + b[p], wireLen + 1 + b[p]);
    }
  }

  lemma CodesRoundTrip(t: u16, c: u16)
    ensures QtypeOf(t).Code() == t && QclassOf(c).Code() == c
  {
  }

  lemma FieldBytes(b: Bytes, p: nat)
    requires p + 2 <= |b|
    ensures Be16(U16At(b, p)) == b[p..p + 2]
  {
  }

  /**
   * Writing a question that was read gives the consumed bytes again, with the name in lower case;
   * and its type and class are in the form that reading produces.
   */
  lemma QuestionReadThenWrite(b: Bytes, p: nat)
    requires GetAsked(b, p).Ok?
    ensures var asked := GetAsked(b, p).value; var q := asked.question;
            && p + 5 <= asked.end <= |b|
            && q.Wire() == Lowercase(b[p..asked.end - 4]) + b[asked.end - 4..asked.end]
            && IsName(q.name) && q.qtype == QtypeOf(q.qtype.Code()) && q.qclass == QclassOf(q.qclass.Code())
  {
    hide ReadLabels, IsName, Labels, Be16, U16At, QtypeOf, QclassOf, Lowercase;
    var end := GetAsked(b, p).value.end;
    AskedLabels(b, p);
    ReadThenWrite(b, p, 1);
    FieldBytes(b, end - 4);
    FieldBytes(b, end - 2);
    CodesRoundTrip(U16At(b, end - 4), U16At(b, end - 2));
    assert b[end - 4..end] == b[end - 4..end - 2] + b[end - 2..end];
  }

  /** A question written anywhere in a message is read back, ending where it was written. */
  lemma QuestionRoundTrip(b: Bytes, p: nat, q: Question)
    requires IsName(q.name) && q.qtype == QtypeOf(q.qtype.Code()) && q.qclass == QclassOf(q.qclass.Code())
    requires At(b, p, q.Wire())
    ensures GetAsked(b, p) == Ok(Asked(q, p + |q.Wire()|))
  {
    hide ReadLabels, IsName;
    var name := Encode(Labels(q.name));
    AtConcat(b, p, name + Be16(q.qtype.Code()), Be16(q.qclass.Code()));
    AtConcat(b, p, name, Be16(q.qtype.Code()));
    WriteThenRead(b, p, q.name);
    AtField16(b, p + |name|, q.qtype.Code());
    AtField16(b, p + |name| + 2, q.qclass.Code());
  }

  /** What acceptance means: the pieces of the query are where the message says. */
  lemma AcceptedShape(raw: Bytes)
    requires Parse(raw).Accepted?
    ensures var q := Parse(raw).query;
            && q.raw == raw && |raw| <= MAX_MESSAGE_LEN
            && HEADER_LEN + 5 <= q.questionEnd <= |raw|
            && q.header == HeaderAt(raw, 0) && q.header.qdcount == 1
            && GetAsked(raw, HEADER_LEN) == Ok(Asked(q.question, q.questionEnd))
            && IsName(q.question.name)
  {
    var q := Parse(raw).query;
    var name := ReadLabels(raw, HEADER_LEN, 1).value;
    ReadIsGood(raw, HEADER_LEN, 1);
    assert name.labels == [] ==> Cost(name.labels) == 0;
    CanonicalIsName(name.labels);
  }

  /**
   * For every accepted query, the question loop that the TTL scan and the EDNS scan run with
   * `skip_rr` ends exactly where the parser, which reads the name, ended.
   */
  lemma ScansStartAtQuestionEnd(raw: Bytes)
    requires Parse(raw).Accepted?
    ensures var q := Parse(raw).query; GetQuestions(raw, HEADER_LEN, q.header.qdcount) == Ok(q.questionEnd)
  {
    hide ReadLabels;
    AcceptedShape(raw);
    AskedIsSkipped(raw, HEADER_LEN);
    var next := GetQuestion(raw, HEADER_LEN).value;
    assert GetQuestions(raw, next, 0) == Ok(next);
  }

  lemma AskedIsSkipped(b: Bytes, p: nat)
    requires GetAsked(b, p).Ok?
    ensures GetQuestion(b, p) == Ok(GetAsked(b, p).value.end)
  {
    hide ReadLabels, Follow, PlainWalk;
    WalkersAgree(b, p, 0);
  }

  /** Only the bytes of a question matter to reading it. */
  lemma AskedLocal(b: Bytes, c: Bytes, p: nat)
    requires GetAsked(b, p).Ok? && Agree(b, c, p, GetAsked(b, p).value.end)
    ensures GetAsked(c, p) == GetAsked(b, p)
    ensures ReadLabels(b, p, 1).Ok? && ReadLabels(c, p, 1) == ReadLabels(b, p, 1)
  {
    hide ReadLabels;
    ReadIsGood(b, p, 1);
    ReadLocal(b, c, p, 1);
  }

  lemma AskedLabels(b: Bytes, p: nat)
    requires GetAsked(b, p).Ok?
    ensures ReadLabels(b, p, 1).Ok? && Labels(GetAsked(b, p).value.question.name) == ReadLabels(b, p, 1).value.labels
    ensures IsName(GetAsked(b, p).value.question.name) && p < ReadLabels(b, p, 1).value.end
  {
    hide ReadLabels, Labels;
    ReadIsGood(b, p, 1);
    var labels := ReadLabels(b, p, 1).value.labels;
    assert labels == [] ==> Cost(labels) == 0;
    CanonicalIsName(labels);
  }
}
