/** The bounds-checked `Reader` and the append-only `Writer`. */
module Cursor {
  import opened Wire

  class Reader {
    const buf: Bytes
    var pos: nat

    /** Too few bytes are left for a read of `n`. */
    ghost function Eof(at: nat, n: nat): Error {
      UnexpectedEof(at, n, if at <= |buf| then |buf| - at else 0)
    }

    constructor (buf: Bytes)
      ensures this.buf == buf && pos == 0
    {
      this.buf := buf;
      pos := 0;
    }

    method ReadU8() returns (r: Result<byte>)
      modifies this
      ensures r == GetU8(buf, old(pos))
      ensures r == if old(pos) < |buf| then Ok(buf[old(pos)]) else Err(Eof(old(pos), 1))
      ensures pos == if r.Ok? then old(pos) + 1 else old(pos)
    {
      if pos + 1 <= |buf| {
        r := Ok(buf[pos]);
        pos := pos + 1;
      } else {
        r := Err(UnexpectedEof(pos, 1, SatSub(|buf|, pos)));
      }
    }

    method ReadU16() returns (r: Result<u16>)
      modifies this
      ensures r == GetU16(buf, old(pos))
      ensures r == if old(pos) + 2 <= |buf| then Ok(buf[old(pos)] as int * 256 + buf[old(pos) + 1])
                   else Err(Eof(old(pos), 2))
      ensures pos == if r.Ok? then old(pos) + 2 else old(pos)
    {
      if pos + 2 <= |buf| {
        r := Ok(U16At(buf, pos));
        pos := pos + 2;
      } else {
        r := Err(UnexpectedEof(pos, 2, SatSub(|buf|, pos)));
      }
    }

    method ReadU32() returns (r: Result<u32>)
      modifies this
      ensures r == GetU32(buf, old(pos))
      ensures r.Ok? <==> old(pos) + 4 <= |buf|
      ensures r.Ok? ==> r.value == ((buf[old(pos)] as int * 256 + buf[old(pos) + 1]) * 256 + buf[old(pos) + 2]) * 256
                                   + buf[old(pos) + 3]
      ensures r.Err? ==> r.error == Eof(old(pos), 4)
      ensures pos == if r.Ok? then old(pos) + 4 else old(pos)
    {
      if pos + 4 <= |buf| {
        r := Ok(U32At(buf, pos));
        pos := pos + 4;
      } else {
        r := Err(UnexpectedEof(pos, 4, SatSub(|buf|, pos)));
      }
    }

    method ReadSlice(n: nat) returns (r: Result<Bytes>)
      modifies this
      ensures r == GetSlice(buf, old(pos), n)
      ensures r == if old(pos) + n <= |buf| then Ok(buf[old(pos)..old(pos) + n]) else Err(Eof(old(pos), n))
      ensures pos == if r.Ok? then old(pos) + n else old(pos)
    {
      if pos + n > |buf| {
        r := Err(UnexpectedEof(pos, n, SatSub(|buf|, pos)));
      } else {
        r := Ok(buf[pos..pos + n]);
        pos := pos + n;
      }
    }
  }

  class Writer {
    var buf: Bytes

    constructor ()
      ensures buf == []
    {
      buf := [];
    }

    method WriteU8(v: byte)
      modifies this
      ensures buf == old(buf) + [v]
    {
      buf := buf + [v];
    }

    method WriteU16(v: u16)
      modifies this
      ensures buf == old(buf) + Be16(v) == old(buf) + [v / 256, v % 256]
    {
      buf := buf + Be16(v);
    }

    method WriteU32(v: u32)
      modifies this
      ensures buf == old(buf) + Be32(v)
      ensures buf == old(buf) + [v / 0x100_0000, v / 0x1_0000 % 256, v / 0x100 % 256, v % 256]
    {
      hide Be32;
      Be32Bytes(v);
      buf := buf + Be32(v);
    }

    method WriteSlice(data: Bytes)
      modifies this
      ensures buf == old(buf) + data
    {
      buf := buf + data;
    }
  }
}
