/** The walk over questions and resource records (sections 4.1.2 and 4.1.3 of RFC 1035). */
module Records {
  import opened Wire
  import opened Cursor
  import opened Headers
  import opened NameSkip

  const OPT_TYPE: u16 := 41

  /** One resource record, with the walk of its owner name and the offsets of its fields. */
  datatype Rr = Rr(owner: nat, name: Walk, rtype: u16, rclass: u16, ttl: u32, rdlength: u16) {
    function TypeAt(): nat {
      name.End()
    }
    function TtlAt(): nat {
      name.End() + 4
    }
    function RdataAt(): nat {
      name.End() + 10
    }
    function End(): nat {
      name.End() + 10 + rdlength
    }
    predicate Real() {
      rtype != OPT_TYPE
    }
  }

  function GetRr(b: Bytes, p: nat): Result<Rr> {
    var name :- Skip(b, p);
    var rtype :- GetU16(b, name.End());
    var rclass :- GetU16(b, name.End() + 2);
    var ttl :- GetU32(b, name.End() + 4);
    var rdlength :- GetU16(b, name.End() + 8);
    var _ :- GetSlice(b, name.End() + 10, rdlength);
    Ok(Rr(p, name, rtype, rclass, ttl, rdlength))
  }

  /** `n` consecutive records from `p`. */
  function GetRrs(b: Bytes, p: nat, n: nat): Result<seq<Rr>>
    decreases n
  {
    if n == 0 then Ok([]) else
    var rr :- GetRr(b, p);
    var rest :- GetRrs(b, rr.End(), n - 1);
    Ok([rr] + rest)
  }

  function GetQuestion(b: Bytes, p: nat): Result<nat> {
    var name :- Skip(b, p);
    var _ :- GetU16(b, name.End());
    var _ :- GetU16(b, name.End() + 2);
    Ok(name.End() + 4)
  }

  /** The offset after `n` consecutive questions from `p`. */
  function GetQuestions(b: Bytes, p: nat, n: nat): Result<nat>
    decreases n
  {
    if n == 0 then Ok(p) else
    var next :- GetQuestion(b, p);
    GetQuestions(b, next, n - 1)
  }

  datatype Message = Message(header: Header, questionEnd: nat, rrs: seq<Rr>) {
    function End(): nat {
      if rrs == [] then questionEnd else rrs[|rrs| - 1].End()
    }
  }

  function RrCount(h: Header): nat {
    h.ancount + h.nscount + h.arcount
  }

  function GetMessage(b: Bytes): Result<Message> {
    var header :- GetHeader(b, 0);
    var questionEnd :- GetQuestions(b, HEADER_LEN, header.qdcount);
    var rrs :- GetRrs(b, questionEnd, RrCount(header));
    Ok(Message(header, questionEnd, rrs))
  }

  // What a record list is, index by index.

  /** The bytes at `rr.owner` are this record: a name within the skip budgets, then the fields. */
  ghost predicate IsRr(b: Bytes, rr: Rr) {
    && IsWalk(b, rr.owner, rr.name)
    && rr.name.Hops() <= MAX_SKIP_HOPS && rr.name.LabelBytes() <= MAX_NAME_WIRE_LEN
    && rr.End() <= |b|
    && rr.rtype == U16At(b, rr.TypeAt()) && rr.rclass == U16At(b, rr.TypeAt() + 2)
    && rr.ttl == U32At(b, rr.TtlAt()) && rr.rdlength == U16At(b, rr.TtlAt() + 4)
  }

  lemma RrExact(b: Bytes, p: nat, rr: Rr)
    ensures GetRr(b, p) == Ok(rr) <==> IsRr(b, rr) && rr.owner == p
  {
    hide Skip, U16At, U32At;
    SkipExact(b, p, rr.name);
    if Skip(b, p).Ok? {
      SkipExact(b, p, Skip(b, p).value);
    }
  }

  /** The records lie end to end from `p`, and each is what the bytes say. */
  ghost predicate Tiles(b: Bytes, p: nat, rrs: seq<Rr>) {
    && (forall k :: 0 <= k < |rrs| ==> IsRr(b, rrs[k]))
    && (rrs != [] ==> rrs[0].owner == p)
    && (forall j, k :: 0 <= j && k == j + 1 && k < |rrs| ==> rrs[j].End() == rrs[k].owner)
  }

  lemma RrLayout(b: Bytes, rr: Rr)
    requires IsRr(b, rr)
    ensures Skip(b, rr.owner) == Ok(rr.name)
    ensures rr.owner < rr.TypeAt() && rr.TtlAt() + 6 <= rr.End() <= |b|
    ensures rr.rtype == U16At(b, rr.TypeAt()) && rr.rclass == U16At(b, rr.TypeAt() + 2)
    ensures rr.ttl == U32At(b, rr.TtlAt()) && rr.rdlength == U16At(b, rr.TtlAt() + 4)
  {
    hide U16At, U32At;
    SkipExact(b, rr.owner, rr.name);
    SkipEnd(b, rr.owner);
  }

  lemma TilesTail(b: Bytes, p: nat, rrs: seq<Rr>)
    requires |rrs| > 0
    ensures Tiles(b, p, rrs) <==> IsRr(b, rrs[0]) && rrs[0].owner == p && Tiles(b, rrs[0].End(), rrs[1..])
  {
    hide IsRr;
    assert rrs == [rrs[0]] + rrs[1..];
  }

  lemma RrOwner(b: Bytes, p: nat)
    ensures GetRr(b, p).Ok? ==> GetRr(b, p).value.owner == p && IsRr(b, GetRr(b, p).value)
  {
    hide GetRr, IsRr;
    if GetRr(b, p).Ok? {
      RrExact(b, p, GetRr(b, p).value);
    }
  }

  lemma TilesEach(b: Bytes, p: nat, rrs: seq<Rr>)
    requires Tiles(b, p, rrs)
    ensures forall k :: 0 <= k < |rrs| ==> IsRr(b, rrs[k])
  {
  }

  /** One step of the record walk. */
  lemma RrsUnfold(b: Bytes, p: nat, n: nat)
    requires n > 0
    ensures GetRr(b, p).Err? ==> GetRrs(b, p, n) == Err(GetRr(b, p).error)
    ensures GetRr(b, p).Ok? ==>
              var rest := GetRrs(b, GetRr(b, p).value.End(), n - 1);
              && (GetRrs(b, p, n).Ok? <==> rest.Ok?)
              && (rest.Err? ==> GetRrs(b, p, n).error == rest.error)
              && (rest.Ok? ==> GetRrs(b, p, n).value == [GetRr(b, p).value] + rest.value)
  {
    hide GetRr;
  }

  lemma QuestionsUnfold(b: Bytes, p: nat, n: nat)
    requires n > 0
    ensures GetQuestion(b, p).Err? ==> GetQuestions(b, p, n) == Err(GetQuestion(b, p).error)
    ensures GetQuestion(b, p).Ok? ==> GetQuestions(b, p, n) == GetQuestions(b, GetQuestion(b, p).value, n - 1)
  {
    hide GetQuestion;
  }

  /** The sequential walk finds a record list exactly when the message is tiled by it. */
  lemma {:induction false} RrsExact(b: Bytes, p: nat, n: nat, rrs: seq<Rr>)
    ensures GetRrs(b, p, n) == Ok(rrs) <==> |rrs| == n && Tiles(b, p, rrs)
    decreases n
  {
    hide GetRr, IsRr;
    if n > 0 && |rrs| > 0 {
      TilesTail(b, p, rrs);
      var first := GetRr(b, p);
      RrExact(b, p, rrs[0]);
      if first == Ok(rrs[0]) {
        RrsExact(b, rrs[0].End(), n - 1, rrs[1..]);
        assert rrs == [rrs[0]] + rrs[1..];
      } else if first.Ok? && GetRrs(b, first.value.End(), n - 1).Ok? {
        assert ([first.value] + GetRrs(b, first.value.End(), n - 1).value)[0] != rrs[0];
      }
    }
  }

  function RrsEnd(p: nat, rrs: seq<Rr>): nat {
    if rrs == [] then p else rrs[|rrs| - 1].End()
  }

  /** A walk of `m + n` records is a walk of `m` followed by one of `n`. */
  lemma {:induction false} RrsConcat(b: Bytes, p: nat, m: nat, n: nat, x: seq<Rr>, y: seq<Rr>)
    requires |x| == m
    ensures GetRrs(b, p, m + n) == Ok(x + y) <==> GetRrs(b, p, m) == Ok(x) && GetRrs(b, RrsEnd(p, x), n) == Ok(y)
    decreases m
  {
    hide GetRr;
    if m == 0 {
      assert x + y == y;
    } else {
      var rest := x[1..];
      RrOwner(b, p);
      assert x + y == [x[0]] + (rest + y) && x == [x[0]] + rest;
      if GetRr(b, p) == Ok(x[0]) {
        RrsConcat(b, x[0].End(), m - 1, n, rest, y);
        assert RrsEnd(x[0].End(), rest) == RrsEnd(p, x);
        assert (x + y)[1..] == rest + y;
      } else if GetRr(b, p).Ok? {
        RrsHead(b, p, m);
        RrsHead(b, p, m + n);
      }
    }
  }

  lemma RrsHead(b: Bytes, p: nat, n: nat)
    requires n > 0
    ensures GetRrs(b, p, n).Ok? ==>
              GetRr(b, p).Ok? && GetRrs(b, p, n).value != [] && GetRrs(b, p, n).value[0] == GetRr(b, p).value
  {
  }

  /** Records come in stream order without overlap. */
  lemma {:induction false} TilesOrdered(b: Bytes, p: nat, rrs: seq<Rr>, j: nat, k: nat)
    requires Tiles(b, p, rrs) && j < k < |rrs|
    ensures rrs[j].End() <= rrs[k].owner
    decreases k
  {
    hide IsRr;
    assert rrs[k - 1].End() == rrs[k].owner;
    if j < k - 1 {
      TilesOrdered(b, p, rrs, j, k - 1);
      RrLayout(b, rrs[k - 1]);
    }
  }

  lemma TilesFrom(b: Bytes, p: nat, rrs: seq<Rr>, k: nat)
    requires Tiles(b, p, rrs) && k < |rrs|
    ensures p <= rrs[k].owner
  {
    hide IsRr;
    if k > 0 {
      TilesOrdered(b, p, rrs, 0, k);
      RrLayout(b, rrs[0]);
    }
  }

  lemma {:induction false} QuestionsAdvance(b: Bytes, p: nat, n: nat)
    requires p <= |b| && GetQuestions(b, p, n).Ok?
    ensures p <= GetQuestions(b, p, n).value <= |b|
    decreases n
  {
    if n > 0 {
      SkipEnd(b, p);
      QuestionsAdvance(b, GetQuestion(b, p).value, n - 1);
    }
  }

  /** The facts of an accepted message that later proofs use. */
  lemma MessageExact(b: Bytes)
    requires GetMessage(b).Ok?
    ensures var m := GetMessage(b).value;
            && HEADER_LEN <= m.questionEnd <= |b|
            && m.header == HeaderAt(b, 0)
            && GetQuestions(b, HEADER_LEN, m.header.qdcount) == Ok(m.questionEnd)
            && |m.rrs| == RrCount(m.header)
            && Tiles(b, m.questionEnd, m.rrs)
  {
    var m := GetMessage(b).value;
    QuestionsAdvance(b, HEADER_LEN, m.header.qdcount);
    RrsExact(b, m.questionEnd, RrCount(m.header), m.rrs);
  }

  lemma NoQuestions(b: Bytes, p: nat)
    ensures GetQuestions(b, p, 0) == Ok(p)
  {
  }

  /** A message in terms of its bytes: the four counts of the header, the questions, the records. */
  lemma MessageIff(b: Bytes, m: Message)
    ensures GetMessage(b) == Ok(m) <==>
              && 12 <= |b| && m.header == HeaderAt(b, 0)
              && GetQuestions(b, 12, U16At(b, 4)) == Ok(m.questionEnd)
              && |m.rrs| == U16At(b, 6) + U16At(b, 8) + U16At(b, 10) && Tiles(b, m.questionEnd, m.rrs)
  {
    hide GetQuestions, GetRrs, Tiles, U16At;
    if 12 <= |b| {
      RrsExact(b, m.questionEnd, RrCount(HeaderAt(b, 0)), m.rrs);
    }
  }

  /** A question is a name within the skip budgets and four bytes more. */
  lemma QuestionExact(b: Bytes, p: nat, end: nat)
    ensures GetQuestion(b, p) == Ok(end) <==>
              exists w :: IsWalk(b, p, w) && w.Hops() <= 16 && w.LabelBytes() <= 255 && end == w.End() + 4 <= |b|
  {
    hide Skip, IsWalk;
    if Skip(b, p).Ok? {
      SkipExact(b, p, Skip(b, p).value);
    }
    forall w | IsWalk(b, p, w) && w.Hops() <= 16 && w.LabelBytes() <= 255 ensures Skip(b, p) == Ok(w) {
      SkipExact(b, p, w);
    }
  }

  // The imperative pieces shared by the TTL scan and the EDNS scan.

  method SkipQuestions(reader: Reader, n: nat) returns (r: Result<()>)
    modifies reader
    ensures r.Ok? <==> GetQuestions(reader.buf, old(reader.pos), n).Ok?
    ensures r.Ok? ==> GetQuestions(reader.buf, old(reader.pos), n) == Ok(reader.pos)
    ensures r.Err? ==> r.error == GetQuestions(reader.buf, old(reader.pos), n).error
  {
    hide GetQuestions, Skip, U16At;
    for i := 0 to n
      invariant GetQuestions(reader.buf, reader.pos, n - i) == GetQuestions(reader.buf, old(reader.pos), n)
    {
      QuestionsUnfold(reader.buf, reader.pos, n - i);
      var s, _ := SkipRr(reader);
      if s.Err? {
        return s;
      }
      var _ :- reader.ReadU16();
      var _ :- reader.ReadU16();
    }
    assert GetQuestions(reader.buf, reader.pos, 0) == Ok(reader.pos) by {
      NoQuestions(reader.buf, reader.pos);
    }
    return Ok(());
  }

  /** What the walks keep of a record while passing over it. */
  datatype Fields = Fields(rtype: u16, rclass: u16, ttlOffset: nat, ttl: u32, rdata: Bytes)

  function FieldsOf(b: Bytes, rr: Rr): Fields
    requires rr.End() <= |b|
  {
    Fields(rr.rtype, rr.rclass, rr.TtlAt(), rr.ttl, b[rr.RdataAt()..rr.End()])
  }

  /** Where reading a record leaves the cursor: after the last field that could be read. */
  function RrCursorAfter(b: Bytes, p: nat): nat {
    match Skip(b, p)
    case Err(_) => CursorAfter(b, p, 0)
    case Ok(name) =>
      var at := name.End();
      if at + 2 > |b| then at
      else if at + 4 > |b| then at + 2
      else if at + 8 > |b| then at + 4
      else if at + 10 > |b| then at + 8
      else if at + 10 + U16At(b, at + 8) > |b| then at + 10
      else at + 10 + U16At(b, at + 8)
  }

  method ReadRr(reader: Reader) returns (r: Result<Fields>)
    modifies reader
    ensures r.Ok? <==> GetRr(reader.buf, old(reader.pos)).Ok?
    ensures r.Ok? ==> var rr := GetRr(reader.buf, old(reader.pos)).value;
                      reader.pos == rr.End() <= |reader.buf| && r.value == FieldsOf(reader.buf, rr)
    ensures reader.pos == RrCursorAfter(reader.buf, old(reader.pos))
    ensures r.Err? ==> r.error == GetRr(reader.buf, old(reader.pos)).error
  {
    hide Skip, U16At, U32At, CursorAfter;
    var s, _ := SkipRr(reader);
    if s.Err? {
      return Err(s.error);
    }
    var rtype :- reader.ReadU16();
    var rclass :- reader.ReadU16();
    var ttlOffset := reader.pos;
    var ttl :- reader.ReadU32();
    var rdlength :- reader.ReadU16();
    var rdata :- reader.ReadSlice(rdlength);
    r := Ok(Fields(rtype, rclass, ttlOffset, ttl, rdata));
  }
}
