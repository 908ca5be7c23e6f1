/** The 12-byte message header (section 4.1.1 of RFC 1035). */
module Headers {
  import opened Wire
  import opened Cursor

  const HEADER_LEN: nat := 12

  const FLAG_QR: bv16 := 0x8000
  const FLAG_OPCODE: bv16 := 0x7800
  const OPCODE_SHIFT: nat := 11
  const FLAG_AA: bv16 := 0x0400
  const FLAG_TC: bv16 := 0x0200
  const FLAG_RD: bv16 := 0x0100
  const FLAG_RA: bv16 := 0x0080
  const FLAG_RCODE: bv16 := 0x000F

  datatype Rcode = NoError | FormErr | ServFail | NxDomain | NotImpl | Refused | OtherRcode(n: bv16) {
    function Bits(): bv16 {
      match this
      case NoError => 0
      case FormErr => 1
      case ServFail => 2
      case NxDomain => 3
      case NotImpl => 4
      case Refused => 5
      case OtherRcode(n) => n & 0x0F
    }
  }

  function FlagsWord(flags: bv16): u16 {
    flags as int
  }

  function FlagsOf(v: u16): bv16 {
    v as bv16
  }

  lemma FlagsRoundTrip(flags: bv16)
    ensures FlagsOf(FlagsWord(flags)) == flags
  {
  }

  /** The flags word keeps every bit of the wire, reserved ones included. */
  datatype Header = Header(id: u16, flags: bv16, qdcount: u16, ancount: u16, nscount: u16, arcount: u16) {
    predicate Qr() {
      flags & FLAG_QR != 0
    }

    function Opcode(): bv16 {
      (flags & FLAG_OPCODE) >> OPCODE_SHIFT
    }

    predicate Rd() {
      flags & FLAG_RD != 0
    }

    function RcodeBits(): bv16 {
      flags & FLAG_RCODE
    }

    function WithFlag(mask: bv16, v: bool): Header {
      this.(flags := if v then flags | mask else flags & !mask)
    }

    function WithRcode(rc: Rcode): Header {
      this.(flags := (flags & !FLAG_RCODE) | rc.Bits())
    }

    function Wire(): Bytes {
      Be16(id) + Be16(FlagsWord(flags)) + Be16(qdcount) + Be16(ancount) + Be16(nscount) + Be16(arcount)
    }

    method Write(writer: Writer)
      modifies writer
      ensures writer.buf == old(writer.buf) + Wire()
    {
      writer.WriteU16(id);
      writer.WriteU16(FlagsWord(flags));
      writer.WriteU16(qdcount);
      writer.WriteU16(ancount);
      writer.WriteU16(nscount);
      writer.WriteU16(arcount);
    }
  }

  function NewHeader(id: u16): Header {
    Header(id, 0, 0, 0, 0, 0)
  }

  function HeaderAt(b: Bytes, p: nat): Header
    requires p + HEADER_LEN <= |b|
  {
    Header(U16At(b, p), FlagsOf(U16At(b, p + 2)), U16At(b, p + 4), U16At(b, p + 6), U16At(b, p + 8), U16At(b, p + 10))
  }

  function GetHeader(b: Bytes, p: nat): Result<Header> {
    if p + HEADER_LEN <= |b| then Ok(HeaderAt(b, p)) else Err(MessageTooShort(SatSub(|b|, p)))
  }

  method ReadHeader(reader: Reader) returns (r: Result<Header>)
    modifies reader
    ensures r == GetHeader(reader.buf, old(reader.pos))
    ensures reader.pos == if r.Ok? then old(reader.pos) + HEADER_LEN else old(reader.pos)
  {
    if SatSub(|reader.buf|, reader.pos) < 12 {
      return Err(MessageTooShort(SatSub(|reader.buf|, reader.pos)));
    }
    // Twelve bytes remain, so none of the six reads can fail.
    var id := reader.ReadU16();
    var flags := reader.ReadU16();
    var qdcount := reader.ReadU16();
    var ancount := reader.ReadU16();
    var nscount := reader.ReadU16();
    var arcount := reader.ReadU16();
    return Ok(Header(id.value, FlagsOf(flags.value), qdcount.value, ancount.value, nscount.value, arcount.value));
  }

  lemma WireLength(h: Header)
    ensures |h.Wire()| == HEADER_LEN
  {
  }

  /** What the second word of a message says, bit by bit. */
  lemma FlagBits(b: Bytes)
    requires HEADER_LEN <= |b|
    ensures var h, f := HeaderAt(b, 0), FlagsOf(U16At(b, 2));
            && (h.Qr() <==> f & 0x8000 != 0) && (h.Rd() <==> f & 0x0100 != 0)
            && (h.Opcode() == 0 <==> f & 0x7800 == 0) && h.RcodeBits() == f & 0x000F
  {
    hide U16At, FlagsOf;
    OpcodeBits(FlagsOf(U16At(b, 2)));
  }

  lemma OpcodeBits(f: bv16)
    ensures (f & 0x7800) >> 11 == 0 <==> f & 0x7800 == 0
  {
  }

  /** Six fields one after the other. */
  lemma FieldsAt(b: Bytes, p: nat, v0: u16, v1: u16, v2: u16, v3: u16, v4: u16, v5: u16)
    requires At(b, p, Be16(v0) + Be16(v1) + Be16(v2) + Be16(v3) + Be16(v4) + Be16(v5))
    ensures p + HEADER_LEN <= |b|
    ensures U16At(b, p) == v0 && U16At(b, p + 2) == v1 && U16At(b, p + 4) == v2
    ensures U16At(b, p + 6) == v3 && U16At(b, p + 8) == v4 && U16At(b, p + 10) == v5
  {
    hide Be16, U16At, At;
    var two := Be16(v0) + Be16(v1);
    var three := two + Be16(v2);
    var four := three + Be16(v3);
    AtConcat(b, p, four + Be16(v4), Be16(v5));
    AtConcat(b, p, four, Be16(v4));
    AtConcat(b, p, three, Be16(v3));
    AtConcat(b, p, two, Be16(v2));
    AtConcat(b, p, Be16(v0), Be16(v1));
    AtField16(b, p, v0);
    AtField16(b, p + 2, v1);
    AtField16(b, p + 4, v2);
    AtField16(b, p + 6, v3);
    AtField16(b, p + 8, v4);
    AtField16(b, p + 10, v5);
  }

  /** A written header is read back whole, whatever follows it. */
  lemma HeaderRoundTrip(h: Header, b: Bytes, p: nat)
    requires At(b, p, h.Wire())
    ensures GetHeader(b, p) == Ok(h)
  {
    hide Be16, U16At, At, FlagsWord, FlagsOf;
    FlagsRoundTrip(h.flags);
    FieldsAt(b, p, h.id, FlagsWord(h.flags), h.qdcount, h.ancount, h.nscount, h.arcount);
  }
}
