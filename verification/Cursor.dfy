/** The cursor over a payload and the loops of the codec, proved against the functions of `Codec`. */
module Cursor {
  import opened Wrappers
  import opened ByteSeqs
  import opened Codec

  /** `r` is the outcome `f`, and `rest` the input it leaves unread. */
  ghost predicate Reads<T>(r: Result<T, CodecError>, f: Field<T>, rest: seq<byte>) {
    match f
    case Got(v, s) => r == Ok(v) && rest == s
    case Bad(e) => r == Err(e)
  }

  class Reader {
    const data: seq<byte>
    var pos: nat

    /** The position never passes the end. */
    ghost predicate Valid()
      reads this
    {
      pos <= |data|
    }

    ghost function Rest(): seq<byte>
      reads this
      requires Valid()
    {
      data[pos..]
    }

    constructor (data: seq<byte>)
      ensures Valid() && this.data == data && Rest() == data
    {
      this.data := data;
      this.pos := 0;
    }

    predicate IsEmpty()
      reads this
    {
      pos >= |data|
    }

    method PeekU8() returns (r: Result<byte, CodecError>)
      requires Valid()
      ensures r == if Rest() == [] then Err(UnexpectedEof) else Ok(Rest()[0])
    {
      if pos < |data| {
        r := Ok(data[pos]);
      } else {
        r := Err(UnexpectedEof);
      }
    }

    method TakeU8() returns (r: Result<byte, CodecError>)
      requires Valid()
      modifies this
      ensures Valid()
      ensures old(Rest()) == [] ==> r == Err(UnexpectedEof) && pos == old(pos)
      ensures old(Rest()) != [] ==> r == Ok(old(Rest())[0]) && Rest() == old(Rest())[1..]
    {
      var first :- PeekU8();
      pos := pos + 1;
      r := Ok(first);
    }

    method Take(n: nat) returns (r: Result<seq<byte>, CodecError>)
      requires Valid()
      modifies this
      ensures Valid()
      ensures n > |old(Rest())| ==> r == Err(UnexpectedEof) && pos == old(pos)
      ensures n <= |old(Rest())| ==> r == Ok(old(Rest())[..n]) && Rest() == old(Rest())[n..]
    {
      var end := pos + n;
      if end > |data| {
        return Err(UnexpectedEof);
      }
      assert data[pos..][..n] == data[pos..end] && data[pos..][n..] == data[end..];
      r := Ok(data[pos..end]);
      pos := end;
    }

    method TakeAsnInt() returns (r: Result<u32, CodecError>)
      requires Valid()
      modifies this
      ensures Valid()
      ensures Reads(r, IntField(old(Rest())), Rest())
    {
      ghost var s := Rest();
      var tag :- TakeU8();
      if tag != TAG_INT {
        return Err(BadIntTag(tag));
      }
      var width :- TakeU8();
      if width == 0 || width > 4 {
        return Err(BadIntWidth(width));
      }
      var value: nat := 0;
      assert s[2..2] == [];
      for i := 0 to width
        invariant Valid() && 2 + i <= |s| && Rest() == s[2 + i..]
        invariant value == FromBe(s[2..2 + i])
      {
        var b :- TakeU8();
        assert s[2..2 + i + 1][..i] == s[2..2 + i];
        value := value * 256 + b;
      }
      FromBeFits(s[2..2 + width]);
      r := Ok(value);
    }

    /** The element count of a string. */
    method TakeLength() returns (r: Result<nat, CodecError>)
      requires Valid()
      modifies this
      ensures Valid()
      ensures Reads(r, LengthField(old(Rest())), Rest())
    {
      ghost var s := Rest();
      var first :- TakeU8();
      var valid: nat := first;
      if valid >= 128 {
        var n := valid % 16;
        var value: nat := 0;
        assert s[1..1] == [];
        for i := 0 to n
          invariant Valid() && 1 + i <= |s| && Rest() == s[1 + i..]
          invariant value == FromLe(s[1..1 + i])
        {
          var b :- TakeU8();
          FromLeSnoc(s[1..1 + i], b);
          assert s[1..1 + i + 1] == s[1..1 + i] + [b];
          value := value + b * Pow256(i);
        }
        valid := value;
      }
      r := Ok(valid);
    }

    method TakeString() returns (r: Result<seq<byte>, CodecError>)
      requires Valid()
      modifies this
      ensures Valid()
      ensures Reads(r, StringField(old(Rest())), Rest())
    {
      var tag :- TakeU8();
      var elemSize := ElemSize(tag);
      if elemSize == 0 {
        return Err(BadStringTag(tag));
      }
      var elements :- TakeLength();
      r := TakeBody(elements * elemSize);
    }

    /** The part of a string behind its element count. */
    method TakeBody(valid: nat) returns (r: Result<seq<byte>, CodecError>)
      requires Valid()
      modifies this
      ensures Valid()
      ensures Reads(r, StringBody(valid, old(Rest())), Rest())
    {
      var count :- TakeAsnInt();
      var padding :- TakeAsnInt();
      if count != 0 && count != valid + padding {
        return Err(StringLengthMismatch(count, valid, padding));
      }
      var payload :- Take(valid);
      var _ :- Take(padding);
      r := Ok(payload);
    }

    /** The field its tag announces. */
    method TakeValue() returns (r: Result<Value, CodecError>)
      requires Valid()
      modifies this
      ensures Valid()
      ensures Reads(r, ValueField(old(Rest())), Rest())
    {
      var tag :- PeekU8();
      if tag == TAG_INT {
        var v :- TakeAsnInt();
        r := Ok(Int(v));
      } else if ElemSize(tag) != 0 {
        var b :- TakeString();
        r := Ok(Bytes(b));
      } else {
        r := Err(BadStringTag(tag));
      }
    }

    /** The field a format character asks for. */
    method TakeKind(ch: char) returns (r: Result<Value, CodecError>)
      requires Valid()
      modifies this
      ensures Valid()
      ensures Reads(r, KindField(ch, old(Rest())), Rest())
    {
      if ch == 'n' {
        var v :- TakeAsnInt();
        r := Ok(Int(v));
      } else if ch == 's' {
        var b :- TakeString();
        r := Ok(Bytes(b));
      } else {
        r := Err(BadFormat(ch));
      }
    }
  }

  /** Decoding `data` amounts to the values `out` so far and then decoding `rest`. */
  ghost predicate DecodesTo(data: seq<byte>, out: seq<Value>, rest: seq<byte>) {
    Decoded(data) == Prepend(out, Decoded(rest))
  }

  lemma {:induction false} DecodedStep(data: seq<byte>, out: seq<Value>, s: seq<byte>, r: Result<Value, CodecError>, rest: seq<byte>)
    requires DecodesTo(data, out, s) && s != [] && Reads(r, ValueField(s), rest)
    ensures r.Ok? ==> |rest| < |s| && DecodesTo(data, out + [r.value], rest)
    ensures r.Err? ==> Decoded(data) == Err(r.error)
  {
    if r.Ok? {
      PrependTwice(out, [r.value], Decoded(rest));
    }
  }

  lemma {:induction false} DecodedEnd(data: seq<byte>, out: seq<Value>)
    requires DecodesTo(data, out, [])
    ensures Decoded(data) == Ok(out)
  {
    assert out + [] == out;
  }

  /** Decode a payload to the end. */
  method DecodeValues(data: seq<byte>) returns (r: Result<seq<Value>, CodecError>)
    ensures r == Decoded(data)
  {
    var reader := new Reader(data);
    var out: seq<Value> := [];
    PrependNothing(Decoded(data));
    while !reader.IsEmpty()
      invariant reader.Valid()
      invariant DecodesTo(data, out, reader.Rest())
      decreases |reader.Rest()|
    {
      ghost var s := reader.Rest();
      var field := reader.TakeValue();
      DecodedStep(data, out, s, field, reader.Rest());
      var v :- field;
      out := out + [v];
    }
    DecodedEnd(data, out);
    r := Ok(out);
  }

  lemma {:induction false} UnpackedStep(fmt: string, i: nat, s: seq<byte>)
    requires i < |fmt|
    ensures Unpacked(fmt[i..], s)
            == match KindField(fmt[i], s)
               case Got(v, rest) => Prepend([v], Unpacked(fmt[i + 1..], rest))
               case Bad(e) => Err(e)
  {
    assert fmt[i..][0] == fmt[i] && fmt[i..][1..] == fmt[i + 1..];
  }

  /** Decode values according to a format of `n` and `s`. */
  method Unpack(fmt: string, data: seq<byte>) returns (r: Result<seq<Value>, CodecError>)
    ensures r == Unpacked(fmt, data)
  {
    var reader := new Reader(data);
    var out: seq<Value> := [];
    assert fmt[0..] == fmt;
    PrependNothing(Unpacked(fmt, data));
    for i := 0 to |fmt|
      invariant reader.Valid()
      invariant Unpacked(fmt, data) == Prepend(out, Unpacked(fmt[i..], reader.Rest()))
    {
      UnpackedStep(fmt, i, reader.Rest());
      var v :- reader.TakeKind(fmt[i]);
      PrependTwice(out, [v], Unpacked(fmt[i + 1..], reader.Rest()));
      out := out + [v];
    }
    assert Unpacked([], reader.Rest()) == Ok([]);
    assert out + [] == out;
    r := Ok(out);
  }

  /** Big-endian base-256 digits after their count, computed digit by digit. */
  method LengthBytes(elements: nat) returns (code: seq<byte>)
    ensures code == LengthCode(elements)
  {
    if elements < 128 {
      return [elements];
    }
    var remain := elements;
    var bytes: seq<byte> := [];
    while remain > 0
      invariant bytes + Digits(remain) == Digits(elements)
    {
      assert Digits(remain) == [remain % 256] + Digits(remain / 256);
      assert (bytes + [remain % 256]) + Digits(remain / 256) == bytes + Digits(remain);
      bytes := bytes + [remain % 256];
      remain := remain / 256;
    }
    assert bytes + [] == bytes;
    code := [128 + |bytes| % 128] + Reverse(bytes);
  }

  /** Append a string field of `count` bytes in all to the output. */
  method PushString(value: seq<byte>, elemSize: nat, count: nat, out: seq<byte>) returns (r: seq<byte>)
    requires elemSize > 0 && |value| <= count
    ensures r == out + StringLayout(value, elemSize, count)
  {
    var padding := count - |value|;
    var code := LengthBytes(|value| / elemSize);
    var field := [StringTag(elemSize)] + code;
    field := field + AsnInt(count % TWO_TO_THE_32);
    field := field + AsnInt(padding % TWO_TO_THE_32);
    field := field + value;
    field := field + Zeros(padding);
    r := out + field;
  }

  /** The leading decimal digits of a format, and what is left of it. */
  method TakeDigits(fmt: string) returns (digits: string, rest: string)
    ensures digits == fmt[..DigitRun(fmt)] && rest == fmt[DigitRun(fmt)..]
  {
    rest, digits := fmt, [];
    while rest != [] && IsDigit(rest[0])
      invariant |digits| <= |fmt| && digits == fmt[..|digits|] && rest == fmt[|digits|..]
      invariant |digits| + DigitRun(rest) == DigitRun(fmt)
    {
      digits := digits + [rest[0]];
      rest := rest[1..];
    }
  }

  /** Encode one string; returns what is left of the format and the output with the field added. */
  method PackString(value: seq<byte>, elemSize: nat, fmt: string, out: seq<byte>)
    returns (r: Result<(string, seq<byte>), CodecError>)
    requires elemSize in {1, 2, 4}
    ensures var n := DigitRun(fmt);
            r == match StringBytes(value, elemSize, fmt[..n])
                 case Err(e) => Err(e)
                 case Ok(field) => Ok((fmt[n..], out + field))
  {
    var digits, rest := TakeDigits(fmt);
    if digits == [] || Decimal(digits) >= TWO_TO_THE_64 {
      return Err(MissingLength);
    }
    var length := Decimal(digits);
    if |value| % elemSize != 0 {
      return Err(StringOverflow(|value|, |value|));
    }
    var elements := |value| / elemSize;
    if elements > length {
      return Err(StringOverflow(elements, length));
    }
    var pushed := PushString(value, elemSize, length * elemSize, out);
    r := Ok((rest, pushed));
  }

  /** Encode arguments according to a format. */
  method Pack(fmt: string, args: seq<Arg>) returns (r: Result<seq<byte>, CodecError>)
    ensures r == Packed(fmt, args)
  {
    var rest, i := fmt, 0;
    var out: seq<byte> := [];
    assert args[0..] == args;
    PrependNothing(Packed(fmt, args));
    while rest != []
      invariant 0 <= i <= |args|
      invariant Packed(fmt, args) == Prepend(out, Packed(rest, args[i..]))
      decreases |rest|
    {
      if i == |args| {
        return Err(MissingArgument);
      }
      var arg := args[i];
      assert args[i..][0] == arg && args[i..][1..] == args[i + 1..];
      i := i + 1;
      var ch := rest[0];
      if LetterSize(ch) != 0 {
        if arg.BytesArg? {
          return Err(WrongArgument);
        }
        rest := rest[1..];
        var field := NumBytes(LetterSize(ch), arg.number);
        PrependTwice(out, field, Packed(rest, args[i..]));
        out := out + field;
      } else if ch == 's' || ch == 'S' {
        var elemSize, used := 1, 1;
        if ch == 'S' {
          if |rest| == 1 {
            return Err(MissingLength);
          }
          elemSize, used := LetterSize(rest[1]), 2;
          if elemSize == 0 {
            return Err(BadFormat(rest[1]));
          }
        }
        if arg.IntArg? {
          return Err(WrongArgument);
        }
        ghost var before := rest[used..];
        ghost var n := DigitRun(before);
        var packed :- PackString(arg.bytes, elemSize, rest[used..], out);
        ghost var field := StringBytes(arg.bytes, elemSize, before[..n]).value;
        rest := packed.0;
        PrependTwice(out, field, Packed(rest, args[i..]));
        out := packed.1;
      } else {
        return Err(BadFormat(ch));
      }
    }
    if i < |args| {
      return Err(TooManyArguments);
    }
    assert out + [] == out;
    r := Ok(out);
  }
}
