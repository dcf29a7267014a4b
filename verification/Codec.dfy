/**
 * The field codec as a mathematical specification: what a payload means, and what bytes a format
 * string and its arguments stand for.  The cursor and the loops that compute these functions are
 * in `Cursor`; their laws are in `DecodingLaws` and `PackingLaws`.
 */
module Codec {
  import opened Wrappers
  import opened ByteSeqs

  const TAG_INT: byte := 0x02
  const TAG_STRING_U8: byte := 0x55
  const TAG_STRING_U16: byte := 0x56
  const TAG_STRING_U32: byte := 0x57

  /** One more than the largest machine word (`usize`). */
  const TWO_TO_THE_64 := 0x1_0000_0000_0000_0000

  datatype CodecError =
    | UnexpectedEof
    | BadIntTag(tag: byte)
    | BadIntWidth(width: byte)
    | BadStringTag(tag: byte)
    | StringOverflow(supplied: nat, capacity: nat)
    | BadFormat(ch: char)
    | MissingLength
    | MissingArgument
    | WrongArgument
    | TooManyArguments
    | StringLengthMismatch(count: nat, valid: nat, padding: nat)

  /** An argument of `Pack`. */
  datatype Arg = IntArg(number: u32) | BytesArg(bytes: seq<byte>)

  /** A decoded value; strings come without their padding. */
  datatype Value = Int(value: u32) | Bytes(bytes: seq<byte>) {
    function AsInt(): Option<u32> {
      if Int? then Some(value) else None
    }

    function AsBytes(): Option<seq<byte>> {
      if Bytes? then Some(bytes) else None
    }
  }

  /** The outcome of reading one field at the front of some input: its value and what follows it. */
  datatype Field<+T> = Got(value: T, rest: seq<byte>) | Bad(error: CodecError) {

    predicate IsFailure() {
      Bad?
    }

    function PropagateFailure<U>(): Field<U>
      requires Bad?
    {
      Bad(error)
    }

    function Extract(): (T, seq<byte>)
      requires Got?
    {
      (value, rest)
    }
  }

  // ---------------------------------------------------------------- decoding

  /** An integer field at the front of `s`. */
  function IntField(s: seq<byte>): (f: Field<u32>)
    ensures f.Got? ==> 3 + |f.rest| <= |s|
  {
    if s == [] then Bad(UnexpectedEof)
    else if s[0] != TAG_INT then Bad(BadIntTag(s[0]))
    else if |s| == 1 then Bad(UnexpectedEof)
    else if s[1] == 0 || s[1] > 4 then Bad(BadIntWidth(s[1]))
    else if |s| < 2 + s[1] then Bad(UnexpectedEof)
    else
      FromBeFits(s[2..2 + s[1]]);
      Got(FromBe(s[2..2 + s[1]]), s[2 + s[1]..])
  }

  /** Bytes per element of a string tag, or 0 for a byte that is no string tag. */
  function ElemSize(tag: byte): nat {
    if tag == TAG_STRING_U8 then 1
    else if tag == TAG_STRING_U16 then 2
    else if tag == TAG_STRING_U32 then 4
    else 0
  }

  /** The element count of a string: one byte below 128, or that many little-endian bytes. */
  function LengthField(s: seq<byte>): (f: Field<nat>)
    ensures f.Got? ==> 1 + |f.rest| <= |s|
  {
    if s == [] then Bad(UnexpectedEof)
    else if s[0] < 128 then Got(s[0], s[1..])
    else
      var n := s[0] % 16;
      if |s| < 1 + n then Bad(UnexpectedEof) else Got(FromLe(s[1..1 + n]), s[1 + n..])
  }

  /** A string field at the front of `s`, padding stripped. */
  function StringField(s: seq<byte>): (f: Field<seq<byte>>)
    ensures f.Got? ==> 8 + |f.value| + |f.rest| <= |s|
  {
    if s == [] then Bad(UnexpectedEof)
    else if ElemSize(s[0]) == 0 then Bad(BadStringTag(s[0]))
    else
      var (elements, s1) :- LengthField(s[1..]);
      StringBody(elements * ElemSize(s[0]), s1)
  }

  /** What follows the element count of a string of `valid` payload bytes. */
  function StringBody(valid: nat, s: seq<byte>): (f: Field<seq<byte>>)
    ensures f.Got? ==> 6 + |f.value| + |f.rest| <= |s|
  {
    var (count, s1) :- IntField(s);
    var (padding, s2) :- IntField(s1);
    if count != 0 && count != valid + padding then Bad(StringLengthMismatch(count, valid, padding))
    else if |s2| < valid || |s2| - valid < padding then Bad(UnexpectedEof)
    else Got(s2[..valid], s2[valid + padding..])
  }

  /** The field at the front of `s`, of the kind its tag announces. */
  function ValueField(s: seq<byte>): (f: Field<Value>)
    ensures f.Got? ==> |f.rest| < |s|
  {
    if s == [] then Bad(UnexpectedEof)
    else if s[0] == TAG_INT then
      var (v, rest) :- IntField(s);
      Got(Int(v), rest)
    else if ElemSize(s[0]) != 0 then
      var (b, rest) :- StringField(s);
      Got(Bytes(b), rest)
    else Bad(BadStringTag(s[0]))
  }

  /** All the values of a payload. */
  function Decoded(s: seq<byte>): Result<seq<Value>, CodecError>
    decreases |s|
  {
    if s == [] then Ok([])
    else
      match ValueField(s)
      case Bad(e) => Err(e)
      case Got(v, rest) => Prepend([v], Decoded(rest))
  }

  /** The field a format character of `Unpack` asks for: `n` an integer, `s` a string. */
  function KindField(ch: char, s: seq<byte>): Field<Value> {
    if ch == 'n' then
      var (v, rest) :- IntField(s);
      Got(Int(v), rest)
    else if ch == 's' then
      var (b, rest) :- StringField(s);
      Got(Bytes(b), rest)
    else Bad(BadFormat(ch))
  }

  /** The values a format finds at the front of `s`. */
  function UnpackedField(fmt: string, s: seq<byte>): Field<seq<Value>> {
    if fmt == [] then Got([], s)
    else
      var (v, s1) :- KindField(fmt[0], s);
      var (vs, rest) :- UnpackedField(fmt[1..], s1);
      Got([v] + vs, rest)
  }

  /** `UnpackedField` without the input it leaves unread. */
  function Unpacked(fmt: string, s: seq<byte>): Result<seq<Value>, CodecError> {
    match UnpackedField(fmt, s)
    case Got(vs, _) => Ok(vs)
    case Bad(e) => Err(e)
  }

  // ---------------------------------------------------------------- encoding

  /** A 32-bit integer field. */
  function AsnInt(v: u32): (b: seq<byte>)
    ensures |b| == 6
  {
    [TAG_INT, 4] + Be32(v)
  }

  /** An integer field of `width` bytes; the high bytes of the value are dropped. */
  function NumBytes(width: byte, v: u32): seq<byte>
    requires width <= 4
  {
    [TAG_INT, width] + Be32(v)[4 - width..]
  }

  /** The element count of a string: one byte below 128, else big-endian after a count byte. */
  function LengthCode(elements: nat): seq<byte> {
    if elements < 128 then [elements]
    else
      var d := Digits(elements);
      [128 + |d| % 128] + Reverse(d)
  }

  function StringTag(elemSize: nat): byte {
    if elemSize == 1 then TAG_STRING_U8 else if elemSize == 2 then TAG_STRING_U16 else TAG_STRING_U32
  }

  predicate IsDigit(c: char) {
    '0' <= c <= '9'
  }

  /** The length of the leading run of decimal digits. */
  function DigitRun(s: string): (n: nat)
    ensures n <= |s|
    ensures forall i :: 0 <= i < n ==> IsDigit(s[i])
    ensures n < |s| ==> !IsDigit(s[n])
  {
    if s == [] || !IsDigit(s[0]) then 0 else 1 + DigitRun(s[1..])
  }

  function DigitValue(c: char): nat
    requires IsDigit(c)
  {
    c as int - '0' as int
  }

  function Decimal(digits: string): nat
    requires forall i :: 0 <= i < |digits| ==> IsDigit(digits[i])
  {
    if digits == [] then 0
    else 10 * Decimal(digits[..|digits| - 1]) + DigitValue(digits[|digits| - 1])
  }

  /** The field for a string of `elemSize`-byte elements whose capacity is written `digits`. */
  function StringBytes(value: seq<byte>, elemSize: nat, digits: string): Result<seq<byte>, CodecError>
    requires elemSize in {1, 2, 4}
    requires forall i :: 0 <= i < |digits| ==> IsDigit(digits[i])
  {
    if digits == [] || Decimal(digits) >= TWO_TO_THE_64 then Err(MissingLength)
    else if |value| % elemSize != 0 then Err(StringOverflow(|value|, |value|))
    else
      var capacity := Decimal(digits);
      var elements := |value| / elemSize;
      if elements > capacity then Err(StringOverflow(elements, capacity))
      else
        Ok(StringLayout(value, elemSize, capacity * elemSize))
  }

  /** A string field of `count` bytes in all; the two length words keep their low 32 bits only. */
  function StringLayout(value: seq<byte>, elemSize: nat, count: nat): seq<byte>
    requires elemSize > 0 && |value| <= count
  {
    [StringTag(elemSize)] + LengthCode(|value| / elemSize)
    + AsnInt(count % TWO_TO_THE_32) + AsnInt((count - |value|) % TWO_TO_THE_32)
    + value + Zeros(count - |value|)
  }

  /** Bytes per integer or element of a size letter, or 0 for any other character. */
  function LetterSize(c: char): nat {
    if c == 'B' then 1 else if c == 'H' then 2 else if c == 'L' then 4 else 0
  }

  /** The bytes a format string and its arguments stand for, or why they stand for none. */
  function Packed(fmt: string, args: seq<Arg>): Result<seq<byte>, CodecError>
    decreases |fmt|
  {
    if fmt == [] then (if args == [] then Ok([]) else Err(TooManyArguments))
    else if args == [] then Err(MissingArgument)
    else if LetterSize(fmt[0]) != 0 then
      if args[0].BytesArg? then Err(WrongArgument)
      else Prepend(NumBytes(LetterSize(fmt[0]), args[0].number), Packed(fmt[1..], args[1..]))
    else if fmt[0] == 's' then
      if args[0].IntArg? then Err(WrongArgument)
      else PackedString(1, fmt[1..], args)
    else if fmt[0] == 'S' then
      if |fmt| == 1 then Err(MissingLength)
      else if LetterSize(fmt[1]) == 0 then Err(BadFormat(fmt[1]))
      else if args[0].IntArg? then Err(WrongArgument)
      else PackedString(LetterSize(fmt[1]), fmt[2..], args)
    else Err(BadFormat(fmt[0]))
  }

  /** `Packed` once a string specifier has been read up to its capacity. */
  function PackedString(elemSize: nat, fmt: string, args: seq<Arg>): Result<seq<byte>, CodecError>
    requires elemSize in {1, 2, 4} && args != [] && args[0].BytesArg?
    decreases |fmt|, 1
  {
    var n := DigitRun(fmt);
    match StringBytes(args[0].bytes, elemSize, fmt[..n])
    case Err(e) => Err(e)
    case Ok(field) => Prepend(field, Packed(fmt[n..], args[1..]))
  }
}
