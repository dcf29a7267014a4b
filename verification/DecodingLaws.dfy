/**
 * Laws of the decoders: reading is stable when more input follows, payloads concatenate,
 * progress bounds the input from below, and the two decoders agree.
 */
module DecodingLaws {
  import opened Wrappers
  import opened ByteSeqs
  import opened Codec

  /** `g` is what `f` becomes when `t` is appended to the input; only running out may be cured by it. */
  ghost predicate Extends<T>(f: Field<T>, g: Field<T>, t: seq<byte>) {
    match f
    case Got(v, rest) => g == Got(v, rest + t)
    case Bad(e) => e != UnexpectedEof ==> g == Bad(e)
  }

  lemma {:induction false} IntFieldExtends(s: seq<byte>, t: seq<byte>)
    ensures Extends(IntField(s), IntField(s + t), t)
  {
    if IntField(s).Got? {
      assert (s + t)[2..2 + s[1]] == s[2..2 + s[1]];
      assert (s + t)[2 + s[1]..] == s[2 + s[1]..] + t;
    }
  }

  lemma {:induction false} LengthFieldExtends(s: seq<byte>, t: seq<byte>)
    ensures Extends(LengthField(s), LengthField(s + t), t)
  {
    if LengthField(s).Got? {
      var n := s[0] % 16;
      if s[0] < 128 {
        assert (s + t)[1..] == s[1..] + t;
      } else {
        assert (s + t)[1..1 + n] == s[1..1 + n];
        assert (s + t)[1 + n..] == s[1 + n..] + t;
      }
    }
  }

  lemma {:induction false} StringBodyExtends(valid: nat, s: seq<byte>, t: seq<byte>)
    ensures Extends(StringBody(valid, s), StringBody(valid, s + t), t)
  {
    hide IntField;
    IntFieldExtends(s, t);
    if IntField(s).Got? {
      var s1 := IntField(s).rest;
      IntFieldExtends(s1, t);
      if StringBody(valid, s).Got? {
        var Got(padding, s2) := IntField(s1);
        assert (s2 + t)[..valid] == s2[..valid];
        assert (s2 + t)[valid + padding..] == s2[valid + padding..] + t;
      }
    }
  }

  lemma {:induction false} StringFieldExtends(s: seq<byte>, t: seq<byte>)
    ensures Extends(StringField(s), StringField(s + t), t)
  {
    hide LengthField, StringBody;
    if s != [] && ElemSize(s[0]) != 0 {
      assert (s + t)[1..] == s[1..] + t;
      LengthFieldExtends(s[1..], t);
      if LengthField(s[1..]).Got? {
        var Got(elements, s1) := LengthField(s[1..]);
        StringBodyExtends(elements * ElemSize(s[0]), s1, t);
      }
    }
  }

  lemma {:induction false} ValueFieldExtends(s: seq<byte>, t: seq<byte>)
    ensures Extends(ValueField(s), ValueField(s + t), t)
  {
    IntFieldExtends(s, t);
    StringFieldExtends(s, t);
  }

  /**
   * Payloads concatenate: after a payload that decodes, whatever follows decodes as it would on
   * its own, its errors included.  An error other than running out of input is final.
   */
  lemma {:induction false} DecodedConcat(a: seq<byte>, b: seq<byte>)
    ensures Decoded(a).Ok? ==> Decoded(a + b) == Prepend(Decoded(a).value, Decoded(b))
    ensures Decoded(a).Err? && Decoded(a).error != UnexpectedEof ==> Decoded(a + b) == Decoded(a)
    decreases |a|
  {
    if a == [] {
      assert a + b == b;
      if Decoded(b).Ok? {
        assert [] + Decoded(b).value == Decoded(b).value;
      }
    } else {
      ValueFieldExtends(a, b);
      match ValueField(a)
      case Bad(_) =>
      case Got(v, rest) =>
        DecodedConcat(rest, b);
        if Decoded(rest).Ok? {
          PrependTwice([v], Decoded(rest).value, Decoded(b));
        }
    }
  }

  /** Input that the encoding of some values needs at the very least. */
  function Weight(vs: seq<Value>): nat {
    if vs == [] then 0
    else (match vs[0] case Int(_) => 3 case Bytes(b) => 8 + |b|) + Weight(vs[1..])
  }

  /** Every integer costs 3 bytes of input, every string 8 and its payload. */
  lemma {:induction false} DecodedProgress(s: seq<byte>)
    requires Decoded(s).Ok?
    ensures Weight(Decoded(s).value) <= |s|
    decreases |s|
  {
    if s != [] {
      var Got(v, rest) := ValueField(s);
      DecodedProgress(rest);
      assert ([v] + Decoded(rest).value)[1..] == Decoded(rest).value;
    }
  }

  // ---------------------------------------------------------------- the two decoders

  /** The `Unpack` format that describes some values. */
  function Shape(vs: seq<Value>): (fmt: string)
    ensures |fmt| == |vs|
    ensures forall i :: 0 <= i < |vs| ==> fmt[i] == if vs[i].Int? then 'n' else 's'
  {
    if vs == [] then [] else [if vs[0].Int? then 'n' else 's'] + Shape(vs[1..])
  }

  /** A successful unpack returns one value of the right kind for each format character. */
  lemma {:induction false} UnpackedShape(fmt: string, s: seq<byte>)
    requires UnpackedField(fmt, s).Got?
    ensures Shape(UnpackedField(fmt, s).value) == fmt
    decreases |fmt|
  {
    if fmt != [] {
      var s1 := KindField(fmt[0], s).rest;
      UnpackedShape(fmt[1..], s1);
      assert UnpackedField(fmt, s).value[1..] == UnpackedField(fmt[1..], s1).value;
      assert fmt == [fmt[0]] + fmt[1..];
    }
  }

  /** An unpack reads what the self-describing decoder reads, and leaves it the rest. */
  lemma {:induction false} UnpackedThenDecoded(fmt: string, s: seq<byte>)
    requires UnpackedField(fmt, s).Got?
    ensures Decoded(s) == Prepend(UnpackedField(fmt, s).value, Decoded(UnpackedField(fmt, s).rest))
    decreases |fmt|
  {
    if fmt == [] {
      if Decoded(s).Ok? {
        assert [] + Decoded(s).value == Decoded(s).value;
      }
    } else {
      var Got(v, s1) := ValueField(s);
      UnpackedThenDecoded(fmt[1..], s1);
      var Got(vs, rest) := UnpackedField(fmt[1..], s1);
      PrependTwice([v], vs, Decoded(rest));
    }
  }

  /** An unpack that uses up its input agrees with the self-describing decoder. */
  lemma {:induction false} UnpackedAllIsDecoded(fmt: string, s: seq<byte>)
    requires UnpackedField(fmt, s).Got? && UnpackedField(fmt, s).rest == []
    ensures Decoded(s) == Unpacked(fmt, s)
  {
    UnpackedThenDecoded(fmt, s);
    var vs := UnpackedField(fmt, s).value;
    assert vs + [] == vs;
  }

  /**
   * On a payload that decodes, an unpack succeeds exactly when its format is a prefix of the shape
   * of the decoded values, and then returns that many of them.
   */
  lemma {:induction false} UnpackedAgrees(fmt: string, s: seq<byte>)
    requires Decoded(s).Ok?
    ensures Unpacked(fmt, s).Ok? <==> fmt <= Shape(Decoded(s).value)
    ensures Unpacked(fmt, s).Ok? ==> Unpacked(fmt, s).value == Decoded(s).value[..|fmt|]
    decreases |fmt|
  {
    var vs := Decoded(s).value;
    if fmt == [] {
    } else if s == [] {
    } else {
      var Got(v, rest) := ValueField(s);
      var ws := Decoded(rest).value;
      assert vs == [v] + ws && vs[1..] == ws;
      var kind := if v.Int? then 'n' else 's';
      assert Shape(vs) == [kind] + Shape(ws);
      if fmt[0] == kind {
        UnpackedAgrees(fmt[1..], rest);
        assert fmt == [kind] + fmt[1..];
        assert fmt <= Shape(vs) <==> fmt[1..] <= Shape(ws);
        if fmt <= Shape(vs) {
          assert vs[..|fmt|] == [v] + ws[..|fmt| - 1];
        }
      } else {
        assert !(fmt <= Shape(vs));
      }
    }
  }

  /** An `AsnInt` field reads back as its value, whatever follows. */
  lemma {:induction false} IntFieldOfAsnInt(v: u32, t: seq<byte>)
    ensures IntField(AsnInt(v) + t) == Got(v, t)
  {
    var s := AsnInt(v) + t;
    assert s[2..2 + s[1]] == Be32(v);
    assert s[2 + s[1]..] == t;
    FromBeOfBe32(v);
  }

  lemma {:induction false} DecodedAsnInt(v: u32, t: seq<byte>)
    ensures Decoded(AsnInt(v) + t) == Prepend([Int(v)], Decoded(t))
  {
    var s := AsnInt(v) + t;
    assert ValueField(s) == Got(Int(v), t) by {
      IntFieldOfAsnInt(v, t);
    }
  }

  lemma {:induction false} DecodedAsnIntAlone(v: u32)
    ensures Decoded(AsnInt(v)) == Ok([Int(v)])
  {
    DecodedAsnInt(v, []);
    assert AsnInt(v) + [] == AsnInt(v);
    assert [Int(v)] + [] == [Int(v)];
    assert Decoded([]) == Ok([]);
  }

  lemma {:induction false} DecodedConcatThree(a: seq<byte>, b: seq<byte>, c: seq<byte>)
    requires Decoded(a).Ok? && Decoded(b).Ok? && Decoded(c).Ok?
    ensures Decoded(a + b + c) == Ok(Decoded(a).value + Decoded(b).value + Decoded(c).value)
  {
    DecodedConcat(a, b);
    DecodedConcat(a + b, c);
  }

  /**
   * The payload splice of the data channel: cutting the trailing integer off one reply, appending
   * another payload and an integer gives a payload of exactly those values.
   */
  lemma {:induction false} SpliceDecodes(a: seq<byte>, x: u32, b: seq<byte>, y: u32)
    requires Decoded(a).Ok? && Decoded(b).Ok?
    ensures var reply := a + AsnInt(x);
            Decoded(reply[..|reply| - 6] + b + AsnInt(y))
            == Ok(Decoded(a).value + Decoded(b).value + [Int(y)])
  {
    var reply := a + AsnInt(x);
    assert reply[..|reply| - 6] == a;
    DecodedAsnIntAlone(y);
    DecodedConcatThree(a, b, AsnInt(y));
  }

  /** With a total count of zero the two counts of a string are not checked against each other. */
  lemma {:induction false} ZeroCountIsUnchecked(value: seq<byte>, padding: u32, t: seq<byte>)
    requires |value| < 128
    ensures StringField([TAG_STRING_U8, |value|] + (AsnInt(0) + (AsnInt(padding) + (value + (Zeros(padding) + t)))))
            == Got(value, t)
  {
    var body := value + (Zeros(padding) + t);
    var s := [TAG_STRING_U8, |value|] + (AsnInt(0) + (AsnInt(padding) + body));
    IntFieldOfAsnInt(0, AsnInt(padding) + body);
    IntFieldOfAsnInt(padding, body);
    assert s[1..][1..] == AsnInt(0) + (AsnInt(padding) + body);
    assert body[..|value|] == value && body[|value| + padding..] == t;
  }

  /** A total count other than zero has to be that of payload and padding. */
  lemma {:induction false} OtherCountsAreChecked(valid: byte, count: u32, padding: u32, t: seq<byte>)
    requires valid < 128 && count != 0 && count != valid + padding
    ensures StringField([TAG_STRING_U8, valid] + (AsnInt(count) + (AsnInt(padding) + t)))
            == Bad(StringLengthMismatch(count, valid, padding))
  {
    var s := [TAG_STRING_U8, valid] + (AsnInt(count) + (AsnInt(padding) + t));
    IntFieldOfAsnInt(count, AsnInt(padding) + t);
    IntFieldOfAsnInt(padding, t);
    assert s[1..][1..] == AsnInt(count) + (AsnInt(padding) + t);
  }
}
