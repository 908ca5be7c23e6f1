/** Machine integers, byte strings, big-endian fields and the codec's error type. */
module Wire {
  type byte = x: int | 0 <= x < 0x100
  type u16 = x: int | 0 <= x < 0x1_0000
  type u32 = x: int | 0 <= x < 0x1_0000_0000
  type Bytes = seq<byte>

  /** The failures of `codec::Error` that the modelled code can produce. */
  datatype Error =
    | MessageTooShort(available: nat)
    | MessageTooLong(len: nat)
    | InvalidQuestionCount(count: u16)
    | NotARequest
    | UnsupportedOpcode(opcode: nat)
    | CompressionPointerInQuestion
    | UnexpectedEof(offset: nat, needed: nat, left: nat)
    | LabelTooLong(labelLen: nat)
    | NameTooLong(nameLen: nat)
    | NameSkipLimitExceeded
    | InvalidPointerTarget(target: nat, msgLen: nat)
    | EmptyLabel
    | InvalidLabelByte(value: byte)

  datatype Option<+T> = None | Some(value: T)

  datatype Result<+T> = Ok(value: T) | Err(error: Error) {
    predicate IsFailure() {
      Err?
    }
    function PropagateFailure<U>(): Result<U>
      requires Err?
    {
      Err(error)
    }
    function Extract(): T
      requires Ok?
    {
      value
    }
  }

  function SatSub(a: int, b: int): nat {
    if b <= a then a - b else 0
  }

  function Min(a: int, b: int): int {
    if a <= b then a else b
  }

  // Big-endian fields, as `put_u16`/`put_u32` append them and `from_be_bytes` reads them.

  function Be16(v: u16): (r: Bytes)
    ensures |r| == 2
  {
    [v / 256, v % 256]
  }

  function Be32(v: u32): Bytes {
    Be16(v / 0x1_0000) + Be16(v % 0x1_0000)
  }

  lemma Be32Bytes(v: u32)
    ensures Be32(v) == [v / 0x100_0000, v / 0x1_0000 % 256, v / 0x100 % 256, v % 256]
  {
    var hi, lo := v / 0x1_0000, v % 0x1_0000;
    FourDigits(hi / 256, hi % 256, lo / 256, lo % 256, v);
  }

  lemma FourDigits(a: byte, b: byte, c: byte, d: byte, v: int)
    requires v == a as int * 0x100_0000 + b as int * 0x1_0000 + c as int * 0x100 + d
    ensures v / 0x100_0000 == a && v / 0x1_0000 % 256 == b && v / 0x100 % 256 == c && v % 256 == d
  {
    assert v / 0x1_0000 == a as int * 0x100 + b;
    assert v / 0x100 == (a as int * 0x100 + b) * 0x100 + c;
  }

  function U16At(b: Bytes, p: nat): u16
    requires p + 2 <= |b|
  {
    b[p] as int * 256 + b[p + 1]
  }

  function U32At(b: Bytes, p: nat): u32
    requires p + 4 <= |b|
  {
    U16At(b, p) as int * 0x1_0000 + U16At(b, p + 2)
  }

  /** The bounds-checked forms of the reads: the value, or the `UnexpectedEof` of `Reader::eof`. */
  function GetU8(b: Bytes, p: nat): Result<byte> {
    if p + 1 <= |b| then Ok(b[p]) else Err(UnexpectedEof(p, 1, SatSub(|b|, p)))
  }

  function GetU16(b: Bytes, p: nat): Result<u16> {
    if p + 2 <= |b| then Ok(U16At(b, p)) else Err(UnexpectedEof(p, 2, SatSub(|b|, p)))
  }

  function GetU32(b: Bytes, p: nat): Result<u32> {
    if p + 4 <= |b| then Ok(U32At(b, p)) else Err(UnexpectedEof(p, 4, SatSub(|b|, p)))
  }

  function GetSlice(b: Bytes, p: nat, n: nat): Result<Bytes> {
    if p + n <= |b| then Ok(b[p..p + n]) else Err(UnexpectedEof(p, n, SatSub(|b|, p)))
  }

  // Where a byte string sits inside a message.

  ghost predicate At(b: Bytes, p: nat, s: Bytes) {
    p + |s| <= |b| && b[p..p + |s|] == s
  }

  ghost predicate Agree(b: Bytes, c: Bytes, lo: nat, hi: nat) {
    hi <= |b| && hi <= |c| && forall i :: lo <= i < hi ==> b[i] == c[i]
  }

  lemma AtConcat(b: Bytes, p: nat, s: Bytes, t: Bytes)
    ensures At(b, p, s + t) <==> At(b, p, s) && At(b, p + |s|, t)
  {
    if At(b, p, s + t) {
      assert b[p..p + |s|] == (s + t)[..|s|] == s;
      assert b[p + |s|..p + |s| + |t|] == (s + t)[|s|..] == t;
    }
    if At(b, p, s) && At(b, p + |s|, t) {
      assert b[p..p + |s + t|] == b[p..p + |s|] + b[p + |s|..p + |s| + |t|];
    }
  }

  lemma AtField16(b: Bytes, p: nat, v: u16)
    requires At(b, p, Be16(v))
    ensures p + 2 <= |b| && U16At(b, p) == v
  {
    assert b[p] == b[p..p + 2][0] && b[p + 1] == b[p..p + 2][1];
  }

  lemma AtField32(b: Bytes, p: nat, v: u32)
    requires At(b, p, Be32(v))
    ensures p + 4 <= |b| && U32At(b, p) == v
  {
    AtConcat(b, p, Be16(v / 0x1_0000), Be16(v % 0x1_0000));
    AtField16(b, p, v / 0x1_0000);
    AtField16(b, p + 2, v % 0x1_0000);
  }

  lemma AtThen16(b: Bytes, p: nat, v: u16, t: Bytes)
    requires At(b, p, Be16(v) + t)
    ensures p + 2 <= |b| && U16At(b, p) == v && At(b, p + 2, t)
  {
    AtConcat(b, p, Be16(v), t);
    AtField16(b, p, v);
  }

  lemma AtThen32(b: Bytes, p: nat, v: u32, t: Bytes)
    requires At(b, p, Be32(v) + t)
    ensures p + 4 <= |b| && U32At(b, p) == v && At(b, p + 4, t)
  {
    AtConcat(b, p, Be32(v), t);
    AtField32(b, p, v);
  }

  lemma U32FromBytes(b: Bytes, c: Bytes, p: nat)
    requires Agree(b, c, p, p + 4)
    ensures U32At(b, p) == U32At(c, p)
  {
  }

  /** Four bytes are determined by the big-endian value they hold. */
  lemma U32Injective(b: Bytes, c: Bytes, p: nat)
    requires p + 4 <= |b| && p + 4 <= |c|
    requires U32At(b, p) == U32At(c, p)
    ensures Agree(b, c, p, p + 4)
  {
    assert U16At(b, p) == U16At(c, p) && U16At(b, p + 2) == U16At(c, p + 2);
  }
}
