/**
 * Laws of the encoder.  `Spec` is a parsed format specifier; on the rendered form of any list of
 * specifiers `Packed` is field-by-field encoding, it fails exactly at the first argument that does
 * not fit, and its output decodes to the arguments exactly when every string's element count reads
 * the same in both byte orders.
 */
module PackingLaws {
  import opened Wrappers
  import opened ByteSeqs
  import opened Codec
  import opened DecodingLaws

  datatype Spec =
    | Num(letter: char)
    | Str(digits: string)
    | StrOf(letter: char, digits: string)
  {
    predicate Valid() {
      && (Num? || StrOf? ==> LetterSize(letter) != 0)
      && (Str? || StrOf? ==> digits != [] && forall i :: 0 <= i < |digits| ==> IsDigit(digits[i]))
    }

    function Render(): string {
      match this
      case Num(letter) => [letter]
      case Str(digits) => ['s'] + digits
      case StrOf(letter, digits) => ['S', letter] + digits
    }

    function ElemSize(): nat {
      if Str? then 1 else LetterSize(letter)
    }

    /** Declared capacity of a string, in elements. */
    function Capacity(): nat
      requires Valid() && !Num?
    {
      Decimal(digits)
    }
  }

  predicate AllValid(specs: seq<Spec>) {
    forall i :: 0 <= i < |specs| ==> specs[i].Valid()
  }

  /** The format string of some specifiers. */
  function RenderAll(specs: seq<Spec>): string {
    if specs == [] then [] else specs[0].Render() + RenderAll(specs[1..])
  }

  /** What the source asks of an argument before it encodes it. */
  predicate Fits(spec: Spec, arg: Arg)
    requires spec.Valid()
  {
    if spec.Num? then arg.IntArg?
    else
      && arg.BytesArg?
      && spec.Capacity() < TWO_TO_THE_64
      && |arg.bytes| % spec.ElemSize() == 0
      && |arg.bytes| / spec.ElemSize() <= spec.Capacity()
  }

  /** Why an argument does not fit. */
  function Misfit(spec: Spec, arg: Arg): CodecError
    requires spec.Valid() && !Fits(spec, arg)
  {
    if spec.Num? || arg.IntArg? then WrongArgument
    else if spec.Capacity() >= TWO_TO_THE_64 then MissingLength
    else if |arg.bytes| % spec.ElemSize() != 0 then StringOverflow(|arg.bytes|, |arg.bytes|)
    else StringOverflow(|arg.bytes| / spec.ElemSize(), spec.Capacity())
  }

  /** The field of one fitting argument. */
  function FieldBytes(spec: Spec, arg: Arg): seq<byte>
    requires spec.Valid() && Fits(spec, arg)
  {
    if spec.Num? then NumBytes(LetterSize(spec.letter), arg.number)
    else StringBytes(arg.bytes, spec.ElemSize(), spec.digits).value
  }

  /** Field-by-field encoding. */
  function Encoded(specs: seq<Spec>, args: seq<Arg>): Result<seq<byte>, CodecError>
    requires AllValid(specs)
  {
    if specs == [] then (if args == [] then Ok([]) else Err(TooManyArguments))
    else if args == [] then Err(MissingArgument)
    else if !Fits(specs[0], args[0]) then Err(Misfit(specs[0], args[0]))
    else Prepend(FieldBytes(specs[0], args[0]), Encoded(specs[1..], args[1..]))
  }

  // ---------------------------------------------------------------- refinement

  lemma {:induction false} DigitRunOf(digits: string, rest: string)
    requires forall i :: 0 <= i < |digits| ==> IsDigit(digits[i])
    requires rest != [] ==> !IsDigit(rest[0])
    ensures DigitRun(digits + rest) == |digits|
  {
    if digits == [] {
      assert digits + rest == rest;
    } else {
      assert (digits + rest)[1..] == digits[1..] + rest;
      DigitRunOf(digits[1..], rest);
    }
  }

  /** No specifier starts with a digit, so the digits of the one before it end where they should. */
  lemma {:induction false} RenderedStart(specs: seq<Spec>)
    requires AllValid(specs)
    ensures RenderAll(specs) != [] ==> !IsDigit(RenderAll(specs)[0])
  {
  }

  lemma {:induction false} PackedStringOf(elemSize: nat, digits: string, rest: string, args: seq<Arg>)
    requires elemSize in {1, 2, 4} && args != [] && args[0].BytesArg?
    requires forall i :: 0 <= i < |digits| ==> IsDigit(digits[i])
    requires rest != [] ==> !IsDigit(rest[0])
    ensures PackedString(elemSize, digits + rest, args)
            == match StringBytes(args[0].bytes, elemSize, digits)
               case Err(e) => Err(e)
               case Ok(field) => Prepend(field, Packed(rest, args[1..]))
  {
    DigitRunOf(digits, rest);
    assert (digits + rest)[..|digits|] == digits && (digits + rest)[|digits|..] == rest;
  }

  lemma {:induction false} PackedNumStep(spec: Spec, rest: string, args: seq<Arg>)
    requires spec.Num? && spec.Valid() && args != []
    ensures Packed(spec.Render() + rest, args)
            == if Fits(spec, args[0]) then Prepend(FieldBytes(spec, args[0]), Packed(rest, args[1..]))
               else Err(Misfit(spec, args[0]))
  {
    assert (spec.Render() + rest)[1..] == rest;
  }

  lemma {:induction false} StringBytesOfSpec(spec: Spec, arg: Arg)
    requires !spec.Num? && spec.Valid() && arg.BytesArg?
    ensures StringBytes(arg.bytes, spec.ElemSize(), spec.digits)
            == if Fits(spec, arg) then Ok(FieldBytes(spec, arg)) else Err(Misfit(spec, arg))
  {
  }

  /** Reading a string specifier off the front of a format leaves its digits to `PackedString`. */
  lemma {:induction false} PackedStringHead(spec: Spec, rest: string, args: seq<Arg>)
    requires !spec.Num? && spec.Valid() && args != []
    ensures Packed(spec.Render() + rest, args)
            == if args[0].IntArg? then Err(WrongArgument)
               else PackedString(spec.ElemSize(), spec.digits + rest, args)
  {
    var fmt := spec.Render() + rest;
    if spec.Str? {
      assert fmt[0] == 's' && fmt[1..] == spec.digits + rest;
    } else {
      assert fmt[0] == 'S' && fmt[1] == spec.letter && fmt[2..] == spec.digits + rest;
    }
  }

  lemma {:induction false} PackedStringStep(spec: Spec, rest: string, args: seq<Arg>)
    requires !spec.Num? && spec.Valid() && args != []
    requires rest != [] ==> !IsDigit(rest[0])
    ensures Packed(spec.Render() + rest, args)
            == if Fits(spec, args[0]) then Prepend(FieldBytes(spec, args[0]), Packed(rest, args[1..]))
               else Err(Misfit(spec, args[0]))
  {
    PackedStringHead(spec, rest, args);
    if args[0].BytesArg? {
      PackedStringOf(spec.ElemSize(), spec.digits, rest, args);
      StringBytesOfSpec(spec, args[0]);
    }
  }

  /** On every list of specifiers, packing its rendered form is field-by-field encoding. */
  lemma {:induction false} PackedIsEncoded(specs: seq<Spec>, args: seq<Arg>)
    requires AllValid(specs)
    ensures Packed(RenderAll(specs), args) == Encoded(specs, args)
    decreases |specs|
  {
    if specs != [] && args != [] {
      RenderedStart(specs[1..]);
      if specs[0].Num? {
        PackedNumStep(specs[0], RenderAll(specs[1..]), args);
      } else {
        PackedStringStep(specs[0], RenderAll(specs[1..]), args);
      }
      PackedIsEncoded(specs[1..], args[1..]);
    }
  }

  // ---------------------------------------------------------------- success and failure

  predicate AllFit(specs: seq<Spec>, args: seq<Arg>)
    requires AllValid(specs)
  {
    |specs| == |args| && forall i :: 0 <= i < |specs| ==> Fits(specs[i], args[i])
  }

  /** Encoding goes wrong at position `k`, with `e`, and nowhere before it. */
  ghost predicate FailsFirstAt(specs: seq<Spec>, args: seq<Arg>, k: nat, e: CodecError)
    requires AllValid(specs)
  {
    && k <= |specs| && k <= |args|
    && (forall i :: 0 <= i < k ==> Fits(specs[i], args[i]))
    && if k == |args| then k < |specs| && e == MissingArgument
       else if k == |specs| then e == TooManyArguments
       else !Fits(specs[k], args[k]) && e == Misfit(specs[k], args[k])
  }

  lemma {:induction false} FailurePosition(specs: seq<Spec>, args: seq<Arg>) returns (k: nat)
    requires AllValid(specs)
    ensures Encoded(specs, args).Ok? ==> AllFit(specs, args)
    ensures Encoded(specs, args).Err? ==> FailsFirstAt(specs, args, k, Encoded(specs, args).error)
    decreases |specs|
  {
    k := 0;
    if specs != [] && args != [] && Fits(specs[0], args[0]) {
      var j := FailurePosition(specs[1..], args[1..]);
      k := j + 1;
      if Encoded(specs, args).Ok? {
        forall i | 0 <= i < |specs| ensures Fits(specs[i], args[i]) {
          assert i > 0 ==> Fits(specs[1..][i - 1], args[1..][i - 1]);
        }
      } else {
        forall i | 0 <= i < k ensures Fits(specs[i], args[i]) {
          assert i > 0 ==> Fits(specs[1..][i - 1], args[1..][i - 1]);
        }
      }
    }
  }

  lemma {:induction false} FittingEncodes(specs: seq<Spec>, args: seq<Arg>)
    requires AllValid(specs) && AllFit(specs, args)
    ensures Encoded(specs, args).Ok?
    decreases |specs|
  {
    if specs != [] {
      FittingEncodes(specs[1..], args[1..]);
    }
  }

  /** Packing succeeds exactly when the arguments fit one for one; else the first misfit decides. */
  lemma {:induction false} PackedSucceedsIffAllFit(specs: seq<Spec>, args: seq<Arg>)
    requires AllValid(specs)
    ensures Packed(RenderAll(specs), args).Ok? <==> AllFit(specs, args)
    ensures Packed(RenderAll(specs), args).Err? ==>
              exists k :: FailsFirstAt(specs, args, k, Packed(RenderAll(specs), args).error)
  {
    PackedIsEncoded(specs, args);
    var k := FailurePosition(specs, args);
    if AllFit(specs, args) {
      FittingEncodes(specs, args);
    }
  }

  // ---------------------------------------------------------------- sizes

  /** Bytes taken by an element count: one below 128, else a count byte and the base-256 digits. */
  function LengthCodeSize(elements: nat): nat {
    if elements < 128 then 1 else 1 + |Digits(elements)|
  }

  function FieldSize(spec: Spec, arg: Arg): nat
    requires spec.Valid() && Fits(spec, arg)
  {
    if spec.Num? then 2 + LetterSize(spec.letter)
    else 13 + LengthCodeSize(|arg.bytes| / spec.ElemSize()) + spec.Capacity() * spec.ElemSize()
  }

  function TotalSize(specs: seq<Spec>, args: seq<Arg>): nat
    requires AllValid(specs) && AllFit(specs, args)
  {
    if specs == [] then 0 else FieldSize(specs[0], args[0]) + TotalSize(specs[1..], args[1..])
  }

  lemma {:induction false} PaddingIsNatural(spec: Spec, arg: Arg)
    requires spec.Valid() && !spec.Num? && Fits(spec, arg)
    ensures |arg.bytes| <= spec.Capacity() * spec.ElemSize()
    ensures |arg.bytes| == |arg.bytes| / spec.ElemSize() * spec.ElemSize()
  {
  }

  lemma {:induction false} FieldBytesSize(spec: Spec, arg: Arg)
    requires spec.Valid() && Fits(spec, arg)
    ensures |FieldBytes(spec, arg)| == FieldSize(spec, arg)
  {
    if !spec.Num? {
      PaddingIsNatural(spec, arg);
    }
  }

  /** The size of a packed payload depends on the format and the element counts alone. */
  lemma {:induction false} EncodedSize(specs: seq<Spec>, args: seq<Arg>)
    requires AllValid(specs) && AllFit(specs, args)
    ensures Encoded(specs, args).Ok? && |Encoded(specs, args).value| == TotalSize(specs, args)
    decreases |specs|
  {
    if specs != [] {
      FieldBytesSize(specs[0], args[0]);
      EncodedSize(specs[1..], args[1..]);
    }
  }

  // ---------------------------------------------------------------- round trip

  /** The byte count of a string specifier is within what the 32-bit count field can carry. */
  predicate Countable(spec: Spec)
    requires spec.Valid()
  {
    spec.Num? || spec.Capacity() * spec.ElemSize() < TWO_TO_THE_32
  }

  predicate AllCountable(specs: seq<Spec>)
    requires AllValid(specs)
  {
    forall i :: 0 <= i < |specs| ==> Countable(specs[i])
  }

  /** A string's element count reads the same in both byte orders; integers always survive. */
  predicate Survives(spec: Spec, arg: Arg)
    requires spec.Valid() && Fits(spec, arg)
  {
    spec.Num? || Palindromic(|arg.bytes| / spec.ElemSize())
  }

  /** The low bytes of a word that a size letter keeps. */
  function LowBytes(v: u32, letter: char): u32 {
    if letter == 'B' then v % 0x100 else if letter == 'H' then v % 0x1_0000 else v
  }

  /** What a surviving argument decodes to: integers cut to their width, strings as they were. */
  function Stripped(spec: Spec, arg: Arg): Value
    requires spec.Valid() && Fits(spec, arg)
  {
    if spec.Num? then Int(LowBytes(arg.number, spec.letter)) else Bytes(arg.bytes)
  }

  /** How decoding fails on a string that does not survive: its count is read backwards. */
  function Mismatch(spec: Spec, arg: Arg): CodecError
    requires spec.Valid() && !spec.Num? && Fits(spec, arg)
  {
    var count := spec.Capacity() * spec.ElemSize();
    PaddingIsNatural(spec, arg);
    StringLengthMismatch(count, Mirror(|arg.bytes| / spec.ElemSize()) * spec.ElemSize(), count - |arg.bytes|)
  }

  lemma {:induction false} LengthFieldOfLengthCode(n: nat, t: seq<byte>)
    requires n < TWO_TO_THE_32
    ensures LengthField(LengthCode(n) + t) == Got(Mirror(n), t)
  {
    if n < 128 {
      SmallPalindromes(n);
      MirrorFixedIffPalindromic(n);
    } else {
      Pow256Values();
      DigitCount(n, 4);
      var r := Reverse(Digits(n));
      var s := LengthCode(n) + t;
      assert s[0] % 16 == |r|;
      assert s[1..1 + |r|] == r && s[1 + |r|..] == t;
    }
  }

  lemma {:induction false} NumFieldDecodes(letter: char, v: u32, t: seq<byte>)
    requires LetterSize(letter) != 0
    ensures IntField(NumBytes(LetterSize(letter), v) + t) == Got(LowBytes(v, letter), t)
  {
    var w := LetterSize(letter);
    var s := NumBytes(w, v) + t;
    assert s[2..2 + w] == Be32(v)[4 - w..] && s[2 + w..] == t;
    assert Be32(v)[0..] == Be32(v);
    FromBeOfBe32(v);
  }

  /** The part of a string field behind its element count, read with `valid` payload bytes. */
  lemma {:induction false} StringBodyOf(valid: nat, count: u32, padding: u32, value: seq<byte>, t: seq<byte>)
    requires count == |value| + padding
    requires count == 0 ==> valid == 0
    ensures StringBody(valid, AsnInt(count) + AsnInt(padding) + value + Zeros(padding) + t)
            == if valid == |value| then Got(value, t)
               else Bad(StringLengthMismatch(count, valid, padding))
  {
    var payload := value + Zeros(padding) + t;
    assert AsnInt(count) + AsnInt(padding) + value + Zeros(padding) + t
        == AsnInt(count) + (AsnInt(padding) + payload);
    IntFieldOfAsnInt(count, AsnInt(padding) + payload);
    IntFieldOfAsnInt(padding, payload);
    assert payload[..|value|] == value && payload[|value| + padding..] == t;
  }

  lemma {:induction false} MulCancel(a: nat, b: nat, c: nat)
    requires c > 0
    ensures a * c == b * c <==> a == b
  {
  }

  lemma {:induction false} StringFieldHead(es: nat, elements: nat, body: seq<byte>)
    requires es in {1, 2, 4} && elements < TWO_TO_THE_32
    ensures StringField([StringTag(es)] + (LengthCode(elements) + body))
            == StringBody(Mirror(elements) * es, body)
  {
    var s := [StringTag(es)] + (LengthCode(elements) + body);
    assert s[0] == StringTag(es) && ElemSize(s[0]) == es;
    assert s[1..] == LengthCode(elements) + body;
    LengthFieldOfLengthCode(elements, body);
  }

  lemma {:induction false} Regroup<T>(a: seq<T>, b: seq<T>, c: seq<T>, d: seq<T>, e: seq<T>, f: seq<T>, t: seq<T>)
    ensures a + b + c + d + e + f + t == a + (b + (c + d + e + f + t))
  {
  }

  lemma {:induction false} StringLayoutParts(value: seq<byte>, es: nat, count: u32, t: seq<byte>)
    requires es > 0 && |value| <= count
    ensures StringLayout(value, es, count) + t
            == [StringTag(es)] + (LengthCode(|value| / es)
               + (AsnInt(count) + AsnInt(count - |value|) + value + Zeros(count - |value|) + t))
  {
    hide LengthCode, AsnInt, StringTag;
    Regroup([StringTag(es)], LengthCode(|value| / es), AsnInt(count), AsnInt(count - |value|),
            value, Zeros(count - |value|), t);
    assert count % TWO_TO_THE_32 == count && (count - |value|) % TWO_TO_THE_32 == count - |value|;
  }

  /** Read backwards, an element count gives the right number of bytes just when it is palindromic. */
  lemma {:induction false} MirrorOfLength(es: nat, elements: nat, length: nat)
    requires es in {1, 2, 4} && elements * es == length
    ensures Mirror(elements) * es == length <==> Palindromic(elements)
  {
    MirrorFixedIffPalindromic(elements);
    MulCancel(Mirror(elements), elements, es);
  }

  lemma {:induction false} MirrorOfZero()
    ensures Mirror(0) == 0
  {
  }

  lemma {:induction false} StringFieldOf(es: nat, elements: nat, valid: nat, count: u32, value: seq<byte>, t: seq<byte>)
    requires es in {1, 2, 4} && elements == |value| / es && elements < TWO_TO_THE_32
    requires valid == Mirror(elements) * es && |value| <= count
    requires count == 0 ==> valid == 0
    ensures StringField(StringLayout(value, es, count) + t)
            == if valid == |value| then Got(value, t)
               else Bad(StringLengthMismatch(count, valid, count - |value|))
  {
    StringLayoutParts(value, es, count, t);
    StringFieldHead(es, elements, AsnInt(count) + AsnInt(count - |value|) + value + Zeros(count - |value|) + t);
    StringBodyOf(valid, count, count - |value|, value, t);
  }

  lemma {:induction false} FieldBytesLayout(spec: Spec, arg: Arg)
    requires spec.Valid() && !spec.Num? && Fits(spec, arg)
    ensures |arg.bytes| <= spec.Capacity() * spec.ElemSize()
    ensures FieldBytes(spec, arg) == StringLayout(arg.bytes, spec.ElemSize(), spec.Capacity() * spec.ElemSize())
  {
    PaddingIsNatural(spec, arg);
  }

  lemma {:induction false} StringFieldDecodes(spec: Spec, arg: Arg, t: seq<byte>)
    requires spec.Valid() && !spec.Num? && Fits(spec, arg) && Countable(spec)
    ensures StringField(FieldBytes(spec, arg) + t)
            == if Survives(spec, arg) then Got(arg.bytes, t) else Bad(Mismatch(spec, arg))
  {
    hide StringField, StringLayout, FieldBytes, Mirror, Palindromic;
    var es := spec.ElemSize();
    var elements := |arg.bytes| / es;
    PaddingIsNatural(spec, arg);
    FieldBytesLayout(spec, arg);
    MirrorOfZero();
    MirrorOfLength(es, elements, |arg.bytes|);
    StringFieldOf(es, elements, Mirror(elements) * es, spec.Capacity() * es, arg.bytes, t);
  }

  lemma {:induction false} FieldDecodes(spec: Spec, arg: Arg, t: seq<byte>)
    requires spec.Valid() && Fits(spec, arg) && Countable(spec)
    ensures ValueField(FieldBytes(spec, arg) + t)
            == if Survives(spec, arg) then Got(Stripped(spec, arg), t) else Bad(Mismatch(spec, arg))
  {
    if spec.Num? {
      NumFieldDecodes(spec.letter, arg.number, t);
    } else {
      StringFieldDecodes(spec, arg, t);
      assert (FieldBytes(spec, arg) + t)[0] == StringTag(spec.ElemSize());
    }
  }

  /** The arguments as they come back, or the mismatch at the first one that does not survive. */
  function RoundTripped(specs: seq<Spec>, args: seq<Arg>): Result<seq<Value>, CodecError>
    requires AllValid(specs) && AllFit(specs, args)
  {
    if specs == [] then Ok([])
    else if !Survives(specs[0], args[0]) then Err(Mismatch(specs[0], args[0]))
    else Prepend([Stripped(specs[0], args[0])], RoundTripped(specs[1..], args[1..]))
  }

  /** Decoding a packed payload, for every format and all fitting arguments. */
  lemma {:induction false} RoundTrip(specs: seq<Spec>, args: seq<Arg>)
    requires AllValid(specs) && AllFit(specs, args) && AllCountable(specs)
    ensures Packed(RenderAll(specs), args).Ok?
    ensures Decoded(Packed(RenderAll(specs), args).value) == RoundTripped(specs, args)
    decreases |specs|
  {
    PackedIsEncoded(specs, args);
    if specs != [] {
      PackedIsEncoded(specs[1..], args[1..]);
      RoundTrip(specs[1..], args[1..]);
      FieldDecodes(specs[0], args[0], Encoded(specs[1..], args[1..]).value);
    }
  }

  predicate AllSurvive(specs: seq<Spec>, args: seq<Arg>)
    requires AllValid(specs) && AllFit(specs, args)
  {
    forall i :: 0 <= i < |specs| ==> Survives(specs[i], args[i])
  }

  lemma {:induction false} RoundTrippedIff(specs: seq<Spec>, args: seq<Arg>)
    requires AllValid(specs) && AllFit(specs, args)
    ensures AllSurvive(specs, args) <==> RoundTripped(specs, args).Ok?
    ensures RoundTripped(specs, args).Ok? ==>
              && |RoundTripped(specs, args).value| == |args|
              && forall i :: 0 <= i < |args| ==>
                   RoundTripped(specs, args).value[i] == Stripped(specs[i], args[i])
    ensures RoundTripped(specs, args).Err? ==>
              exists k: nat :: FirstLost(specs, args, k) && RoundTripped(specs, args).error == Mismatch(specs[k], args[k])
    decreases |specs|
  {
    hide Fits, Palindromic, Stripped, Mismatch, Spec.Valid;
    if specs != [] {
      RoundTrippedIff(specs[1..], args[1..]);
      assert forall i :: 1 <= i < |specs| ==> specs[i] == specs[1..][i - 1] && args[i] == args[1..][i - 1];
      if !Survives(specs[0], args[0]) {
        assert FirstLost(specs, args, 0);
      } else if RoundTripped(specs[1..], args[1..]).Err? {
        var k: nat :| FirstLost(specs[1..], args[1..], k)
                      && RoundTripped(specs[1..], args[1..]).error == Mismatch(specs[1..][k], args[1..][k]);
        assert FirstLost(specs, args, k + 1);
      }
    }
  }

  /** `k` is the first argument that does not survive. */
  ghost predicate FirstLost(specs: seq<Spec>, args: seq<Arg>, k: nat)
    requires AllValid(specs) && AllFit(specs, args)
  {
    k < |specs| && !Survives(specs[k], args[k]) && forall i :: 0 <= i < k ==> Survives(specs[i], args[i])
  }

  /** The round trip on the rendered form of any specifiers. */
  lemma {:induction false} RenderedRoundTripIff(specs: seq<Spec>, args: seq<Arg>)
    requires AllValid(specs) && AllFit(specs, args) && AllCountable(specs)
    ensures Packed(RenderAll(specs), args).Ok?
    ensures var r := Decoded(Packed(RenderAll(specs), args).value);
            && (r.Ok? <==> AllSurvive(specs, args))
            && (r.Ok? ==> |r.value| == |args|
                          && forall i :: 0 <= i < |args| ==> r.value[i] == Stripped(specs[i], args[i]))
            && (r.Err? ==> exists k: nat :: FirstLost(specs, args, k) && r.error == Mismatch(specs[k], args[k]))
  {
    RoundTrip(specs, args);
    RoundTrippedIff(specs, args);
  }

  // ---------------------------------------------------------------- every format string

  /** The specifier at the front of a format string, and how many characters it takes. */
  function FirstSpec(fmt: string): (r: Option<(Spec, nat)>)
    requires fmt != []
    ensures r.Some? ==> 0 < r.value.1 <= |fmt| && r.value.0.Valid() && r.value.0.Render() == fmt[..r.value.1]
  {
    if LetterSize(fmt[0]) != 0 then Some((Num(fmt[0]), 1))
    else if fmt[0] == 's' then
      var n := DigitRun(fmt[1..]);
      if n == 0 then None else Some((Str(fmt[1..1 + n]), 1 + n))
    else if fmt[0] == 'S' && |fmt| > 1 && LetterSize(fmt[1]) != 0 then
      var n := DigitRun(fmt[2..]);
      if n == 0 then None else Some((StrOf(fmt[1], fmt[2..2 + n]), 2 + n))
    else None
  }

  /** The specifiers a format string is made of, if it is well formed. */
  function SpecsOf(fmt: string): Option<seq<Spec>>
    decreases |fmt|
  {
    if fmt == [] then Some([])
    else
      match FirstSpec(fmt)
      case None => None
      case Some((spec, n)) => if SpecsOf(fmt[n..]).None? then None else Some([spec] + SpecsOf(fmt[n..]).value)
  }

  lemma {:induction false} RenderedJoin(spec: Spec, rest: seq<Spec>, fmt: string, n: nat)
    requires n <= |fmt| && spec.Valid() && spec.Render() == fmt[..n]
    requires AllValid(rest) && RenderAll(rest) == fmt[n..]
    ensures AllValid([spec] + rest) && RenderAll([spec] + rest) == fmt
  {
    assert ([spec] + rest)[1..] == rest;
    assert fmt == fmt[..n] + fmt[n..];
  }

  /** A well-formed format is the rendered form of its specifiers. */
  lemma {:induction false} SpecsRender(fmt: string)
    requires SpecsOf(fmt).Some?
    ensures AllValid(SpecsOf(fmt).value) && RenderAll(SpecsOf(fmt).value) == fmt
    decreases |fmt|
  {
    if fmt != [] {
      hide FirstSpec, AllValid, RenderAll;
      var (spec, n) := FirstSpec(fmt).value;
      SpecsRender(fmt[n..]);
      RenderedJoin(spec, SpecsOf(fmt[n..]).value, fmt, n);
    }
  }

  lemma {:induction false} FirstOfRenderedString(fmt: string, k: nat, digits: string, rest: string)
    requires k <= |fmt| && fmt[k..] == digits + rest && (rest != [] ==> !IsDigit(rest[0]))
    requires forall i :: 0 <= i < |digits| ==> IsDigit(digits[i])
    ensures DigitRun(fmt[k..]) == |digits| && fmt[k..k + |digits|] == digits
  {
    DigitRunOf(digits, rest);
  }

  lemma {:induction false} FirstOfRendered(spec: Spec, rest: string)
    requires spec.Valid() && (rest != [] ==> !IsDigit(rest[0]))
    ensures FirstSpec(spec.Render() + rest) == Some((spec, |spec.Render()|))
  {
    hide DigitRun, Decimal;
    var fmt := spec.Render() + rest;
    if !spec.Num? {
      FirstOfRenderedString(fmt, if spec.Str? then 1 else 2, spec.digits, rest);
    }
  }

  /** And no other specifiers have that rendered form. */
  lemma {:induction false} RenderedSpecs(specs: seq<Spec>)
    requires AllValid(specs)
    ensures SpecsOf(RenderAll(specs)) == Some(specs)
    decreases |specs|
  {
    if specs != [] {
      var first, rest := specs[0].Render(), RenderAll(specs[1..]);
      RenderedStart(specs[1..]);
      FirstOfRendered(specs[0], rest);
      RenderedSpecs(specs[1..]);
      assert first != [] && (first + rest)[|first|..] == rest;
      assert specs == [specs[0]] + specs[1..];
    }
  }

  /** A format packs no further than its first specifier is well formed. */
  lemma {:induction false} PackedFirst(fmt: string, args: seq<Arg>)
    requires fmt != [] && Packed(fmt, args).Ok?
    ensures FirstSpec(fmt).Some? && args != [] && Packed(fmt[FirstSpec(fmt).value.1..], args[1..]).Ok?
  {
    if LetterSize(fmt[0]) == 0 {
      var k := if fmt[0] == 's' then 1 else 2;
      var n := DigitRun(fmt[k..]);
      assert fmt[k..][n..] == fmt[k + n..];
    }
  }

  /** Only well-formed formats pack. */
  lemma {:induction false} PackedHasSpecs(fmt: string, args: seq<Arg>)
    requires Packed(fmt, args).Ok?
    ensures SpecsOf(fmt).Some?
    decreases |fmt|
  {
    hide FirstSpec, Packed;
    if fmt != [] {
      PackedFirst(fmt, args);
      PackedHasSpecs(fmt[FirstSpec(fmt).value.1..], args[1..]);
    }
  }

  /** For every format string: it packs exactly when it is well formed and its arguments fit. */
  lemma {:induction false} PacksIffFits(fmt: string, args: seq<Arg>)
    ensures Packed(fmt, args).Ok? <==>
              SpecsOf(fmt).Some? && AllValid(SpecsOf(fmt).value) && AllFit(SpecsOf(fmt).value, args)
  {
    if Packed(fmt, args).Ok? {
      PackedHasSpecs(fmt, args);
    }
    if SpecsOf(fmt).Some? {
      SpecsRender(fmt);
      PackedSucceedsIffAllFit(SpecsOf(fmt).value, args);
    }
  }

  /**
   * The round trip, exactly, for every format string and arguments that pack: the payload decodes if
   * and only if every string's element count has a palindromic base-256 numeral.  Then the arguments
   * come back one for one; otherwise decoding stops at the first string that does not qualify, with
   * its count read backwards.
   */
  lemma {:induction false} RoundTripIff(fmt: string, args: seq<Arg>)
    requires Packed(fmt, args).Ok?
    ensures SpecsOf(fmt).Some? && AllValid(SpecsOf(fmt).value) && AllFit(SpecsOf(fmt).value, args)
    ensures var specs, r := SpecsOf(fmt).value, Decoded(Packed(fmt, args).value);
            AllCountable(specs) ==>
              && (r.Ok? <==> AllSurvive(specs, args))
              && (r.Ok? ==> |r.value| == |args|
                            && forall i :: 0 <= i < |args| ==> r.value[i] == Stripped(specs[i], args[i]))
              && (r.Err? ==> exists k: nat :: FirstLost(specs, args, k) && r.error == Mismatch(specs[k], args[k]))
  {
    PacksIffFits(fmt, args);
    SpecsRender(fmt);
    if AllCountable(SpecsOf(fmt).value) {
      RenderedRoundTripIff(SpecsOf(fmt).value, args);
    }
  }

  lemma {:induction false} MirrorOf256()
    ensures Mirror(256) == 1
  {
    assert Digits(1) == [1] + Digits(0) == [1];
    assert Digits(256) == [0] + Digits(1) == [0, 1];
    assert [0, 1][1..] == [1];
    assert Reverse([1]) == Reverse([]) + [1];
    assert Reverse([0, 1]) == Reverse([1]) + [0] == [1, 0];
    assert [1, 0][1..] == [0] && [0][1..] == [];
    assert FromLe([0]) == 0 && FromLe([1, 0]) == 1;
  }

  lemma {:induction false} DecimalOf256()
    ensures Decimal("256") == 256
  {
    assert "256"[..2] == "25" && "25"[..1] == "2" && "2"[..0] == "";
    assert Decimal("2") == 2 && Decimal("25") == 25;
  }

  /** 256 bytes in a field of 256 pack but do not decode: the count 01 00 is read as 1. */
  lemma {:induction false} RoundTripFails(spec: Spec, arg: Arg)
    requires spec == Str("256") && arg.BytesArg? && |arg.bytes| == 256
    ensures RenderAll([spec]) == "s256"
    ensures var payload := Packed("s256", [arg]);
            payload.Ok? && Decoded(payload.value) == Err(StringLengthMismatch(256, 1, 0))
  {
    assert RenderAll([spec]) == spec.Render() + RenderAll([]) == "s256";
    DecimalOf256();
    MirrorOf256();
    MirrorFixedIffPalindromic(256);
    assert Fits(spec, arg) && !Survives(spec, arg) && Mismatch(spec, arg) == StringLengthMismatch(256, 1, 0);
    RoundTrip([spec], [arg]);
  }

  // ---------------------------------------------------------------- the bytes

  /** The bytes of an integer field: tag 2, the width, the low bytes of the value, highest first. */
  lemma {:induction false} IntegerLayout(letter: char, v: u32)
    requires letter in {'B', 'H', 'L'}
    ensures NumBytes(LetterSize(letter), v)
            == if letter == 'B' then [2, 1, v % 256]
               else if letter == 'H' then [2, 2, v / 256 % 256, v % 256]
               else [2, 4, v / 0x100_0000, v / 0x1_0000 % 256, v / 256 % 256, v % 256]
    ensures AsnInt(v) == [2, 4, v / 0x100_0000, v / 0x1_0000 % 256, v / 256 % 256, v % 256]
  {
    assert Be32(v)[3..] == [v % 256] && Be32(v)[2..] == [v / 256 % 256, v % 256] && Be32(v)[0..] == Be32(v);
  }

  /** The bytes of a string field: its tag, the element count, the two lengths, the value and zeros. */
  lemma {:induction false} TextLayout(value: seq<byte>, elemSize: nat, count: u32)
    requires elemSize in {1, 2, 4} && |value| <= count
    ensures StringLayout(value, elemSize, count)
            == [if elemSize == 1 then 0x55 else if elemSize == 2 then 0x56 else 0x57] + LengthCode(|value| / elemSize)
               + AsnInt(count) + AsnInt(count - |value|) + value + Zeros(count - |value|)
  {
    hide LengthCode, Zeros, AsnInt;
    assert count % TWO_TO_THE_32 == count && (count - |value|) % TWO_TO_THE_32 == count - |value|;
  }

  /** The bytes of an element count: itself below 128, below 65536 a count of digits and the digits. */
  lemma {:induction false} LengthCodeIs(n: nat)
    requires n < 0x1_0000
    ensures LengthCode(n)
            == if n < 128 then [n] else if n < 256 then [0x81, n] else [0x82, n / 256, n % 256]
  {
    if 128 <= n < 256 {
      assert Digits(n) == [n] + Digits(0) == [n];
      assert Reverse([n]) == Reverse([]) + [n];
    } else if n >= 256 {
      var high, low := n / 256, n % 256;
      assert n == 256 * high + low;
      TwoDigits(high, low);
      var d := Digits(n);
      assert |d| == 2 && LengthCode(n) == [130] + Reverse(d) == [130, high, low];
    }
  }

  lemma {:induction false} TwoDigits(high: nat, low: nat)
    requires 0 < high < 256 && low < 256
    ensures Digits(256 * high + low) == [low, high] && Reverse([low, high]) == [high, low]
  {
    assert Digits(high) == [high] + Digits(0) == [high];
    assert (256 * high + low) % 256 == low && (256 * high + low) / 256 == high;
    assert Digits(256 * high + low) == [low] + Digits(high);
    var two: seq<byte>, one: seq<byte> := [low, high], [high];
    assert two[1..] == one && one[1..] == [];
    assert Reverse(one) == Reverse(one[1..]) + [high] == one;
    assert Reverse(two) == Reverse(two[1..]) + [low];
  }
}
