/**
 * The attach-APN configuration payload, the largest request there is: 131 fields in four blocks of
 * 32, described by specifiers and rendered to the format string the encoder is given.
 */
module Apn {
  import opened Wrappers
  import opened ByteSeqs
  import opened Codec
  import opened PackingLaws
  import opened Requests

  /** Capacity of an APN field, in bytes. */
  const APN_MAX_LEN := 101

  /** The 22 integers of a block. */
  const INT_LETTERS := "HLLLLLLLLLLLLLLLLLLLLL"

  /** The format of one block, up to and with the capacity of its last string. */
  function BlockFormat(capacity: string): string {
    ("s260" + "L" + "s66" + "s65" + "s250" + "B" + "s252") + INT_LETTERS + ("s20" + "L" + ("s" + capacity))
  }

  /** The wire format string, block by block. */
  function Format(): string {
    "B" + BlockFormat("104") + BlockFormat("104") + BlockFormat("104") + BlockFormat("103") + "BL"
  }

  // ---------------------------------------------------------------- specifiers

  function HeadSpecs(): seq<Spec> {
    [Str("260"), Num('L'), Str("66"), Str("65"), Str("250"), Num('B'), Str("252")]
  }

  function TailSpecs(capacity: string): seq<Spec> {
    [Str("20"), Num('L'), Str(capacity)]
  }

  function BlockSpecs(capacity: string): seq<Spec> {
    HeadSpecs() + Nums(INT_LETTERS) + TailSpecs(capacity)
  }

  function Specs(): seq<Spec> {
    [Num('B')] + BlockSpecs("104") + BlockSpecs("104") + BlockSpecs("104") + BlockSpecs("103") + Nums("BL")
  }

  lemma {:induction false} RenderConcat(a: seq<Spec>, b: seq<Spec>)
    ensures RenderAll(a + b) == RenderAll(a) + RenderAll(b)
    decreases |a|
  {
    if a == [] {
      assert a + b == b;
    } else {
      assert (a + b)[1..] == a[1..] + b;
      RenderConcat(a[1..], b);
    }
  }

  lemma {:induction false} RenderOne(a: Spec)
    ensures RenderAll([a]) == a.Render()
  {
    assert RenderAll([a]) == a.Render() + RenderAll([]);
  }

  lemma {:induction false} RenderSeven(a: Spec, b: Spec, c: Spec, d: Spec, e: Spec, f: Spec, g: Spec)
    ensures RenderAll([a, b, c, d, e, f, g])
            == a.Render() + b.Render() + c.Render() + d.Render() + e.Render() + f.Render() + g.Render()
  {
    RenderThree(a, b, c);
    RenderThree(d, e, f);
    RenderOne(g);
    RenderConcat([a, b, c], [d, e, f]);
    RenderConcat([a, b, c] + [d, e, f], [g]);
    assert [a, b, c, d, e, f, g] == [a, b, c] + [d, e, f] + [g];
    assert (a.Render() + b.Render() + c.Render()) + (d.Render() + e.Render() + f.Render())
        == a.Render() + b.Render() + c.Render() + d.Render() + e.Render() + f.Render();
  }

  lemma {:induction false} RenderHead()
    ensures RenderAll(HeadSpecs()) == "s260" + "L" + "s66" + "s65" + "s250" + "B" + "s252"
  {
    RenderSeven(Str("260"), Num('L'), Str("66"), Str("65"), Str("250"), Num('B'), Str("252"));
  }

  lemma {:induction false} RenderTail(capacity: string)
    ensures RenderAll(TailSpecs(capacity)) == "s20" + "L" + ("s" + capacity)
  {
    RenderThree(Str("20"), Num('L'), Str(capacity));
  }

  lemma {:induction false} RenderJoin(a: seq<Spec>, letters: string, b: seq<Spec>)
    ensures RenderAll(a + Nums(letters) + b) == RenderAll(a) + letters + RenderAll(b)
  {
    RenderNums(letters);
    RenderConcat(a, Nums(letters));
    RenderConcat(a + Nums(letters), b);
  }

  lemma {:induction false} RenderBlock(capacity: string)
    ensures RenderAll(BlockSpecs(capacity)) == BlockFormat(capacity)
  {
    RenderHead();
    RenderTail(capacity);
    RenderJoin(HeadSpecs(), INT_LETTERS, TailSpecs(capacity));
  }

  /** Six lists of specifiers render to the concatenation of their renderings. */
  lemma {:induction false} RenderSix(a: seq<Spec>, b: seq<Spec>, c: seq<Spec>, d: seq<Spec>, e: seq<Spec>, f: seq<Spec>)
    ensures RenderAll(a + b + c + d + e + f)
            == RenderAll(a) + RenderAll(b) + RenderAll(c) + RenderAll(d) + RenderAll(e) + RenderAll(f)
  {
    RenderConcat(a, b);
    RenderConcat(a + b, c);
    RenderConcat(a + b + c, d);
    RenderConcat(a + b + c + d, e);
    RenderConcat(a + b + c + d + e, f);
  }

  /** The specifiers render to the format string of the source. */
  lemma {:induction false} SpecsRender()
    ensures RenderAll(Specs()) == Format()
  {
    RenderOne(Num('B'));
    RenderBlock("104");
    RenderBlock("103");
    RenderNums("BL");
    RenderSix([Num('B')], BlockSpecs("104"), BlockSpecs("104"), BlockSpecs("104"), BlockSpecs("103"), Nums("BL"));
  }

  // ---------------------------------------------------------------- arguments

  function IntArgs(ints: seq<u32>): (args: seq<Arg>)
    ensures |args| == |ints|
    ensures forall i :: 0 <= i < |ints| ==> args[i] == IntArg(ints[i])
  {
    if ints == [] then [] else [IntArg(ints[0])] + IntArgs(ints[1..])
  }

  function HeadArgs(): seq<Arg> {
    [BytesArg(Zeros(257)), IntArg(0), BytesArg(Zeros(65)), BytesArg(Zeros(65)), BytesArg(Zeros(250)),
     IntArg(0), BytesArg(Zeros(250))]
  }

  function TailArgs(kind: u32, apn: seq<byte>): seq<Arg> {
    [BytesArg(Zeros(20)), IntArg(kind), BytesArg(apn)]
  }

  function BlockArgs(ints: seq<u32>, kind: u32, apn: seq<byte>): seq<Arg> {
    HeadArgs() + IntArgs(ints) + TailArgs(kind, apn)
  }

  const IDLE: seq<u32> := [0, 0, 0, 0, 0, 0, 0, 0, 0, 0, 0, 0, 0, 0, 0, 0, 0, 0, 0, 0, 0, 0]
  const ACTIVE: seq<u32> := [0, 0, 0, 0, 0, 1, 0, 0, 0, 0, 0, 0, 0, 1, 0, 0, 1028, 1, 0, 1, 0, 0]

  /** Two idle blocks and two that carry the APN. */
  function AttachArgs(apn: seq<byte>): seq<Arg> {
    IntArgs([0]) + BlockArgs(IDLE, 0, Zeros(101)) + BlockArgs(IDLE, 0, Zeros(101))
    + BlockArgs(ACTIVE, 3, apn) + BlockArgs(ACTIVE, 3, apn) + IntArgs([3, 0])
  }

  /** An APN in its field: zeros fill it up. */
  function Padded(apn: seq<byte>): (p: seq<byte>)
    requires |apn| <= APN_MAX_LEN
    ensures |p| == APN_MAX_LEN
    ensures p[..|apn|] == apn && forall k :: |apn| <= k < APN_MAX_LEN ==> p[k] == 0
  {
    apn + Zeros(APN_MAX_LEN - |apn|)
  }

  /** The payload for an APN. */
  function AttachConfig(apn: seq<byte>): Result<seq<byte>, CodecError> {
    if |apn| > APN_MAX_LEN then Err(StringOverflow(|apn|, APN_MAX_LEN))
    else Packed(Format(), AttachArgs(Padded(apn)))
  }

  // ---------------------------------------------------------------- faithfulness

  function AsValue(arg: Arg): Value {
    match arg
    case IntArg(v) => Int(v)
    case BytesArg(b) => Bytes(b)
  }

  function AsValues(args: seq<Arg>): (values: seq<Value>)
    ensures |values| == |args|
    ensures forall i :: 0 <= i < |args| ==> values[i] == AsValue(args[i])
  {
    if args == [] then [] else [AsValue(args[0])] + AsValues(args[1..])
  }

  /** An argument that fits its specifier and comes back as it was. */
  predicate Faithful(spec: Spec, arg: Arg) {
    && spec.Valid() && Fits(spec, arg) && Countable(spec) && Survives(spec, arg)
    && Stripped(spec, arg) == AsValue(arg)
  }

  ghost predicate AllFaithful(specs: seq<Spec>, args: seq<Arg>) {
    |specs| == |args| && forall i :: 0 <= i < |specs| ==> Faithful(specs[i], args[i])
  }

  lemma {:induction false} FaithfulConcat(s1: seq<Spec>, a1: seq<Arg>, s2: seq<Spec>, a2: seq<Arg>)
    requires AllFaithful(s1, a1) && AllFaithful(s2, a2)
    ensures AllFaithful(s1 + s2, a1 + a2)
  {
  }

  lemma {:induction false} FaithfulBytes(digits: string, capacity: nat, value: seq<byte>)
    requires Str(digits).Valid() && Decimal(digits) == capacity < TWO_TO_THE_32
    requires |value| <= capacity && (|value| < 256 || |value| == 257)
    ensures Faithful(Str(digits), BytesArg(value))
  {
    SmallPalindromes(|value|);
    ByteStringFits(digits, capacity, value);
  }

  lemma {:induction false} FaithfulInts(letters: string, ints: seq<u32>)
    requires |letters| == |ints|
    requires forall i :: 0 <= i < |letters| ==> letters[i] in {'H', 'L'} && ints[i] < 0x1_0000
    ensures AllFaithful(Nums(letters), IntArgs(ints))
  {
    forall i | 0 <= i < |letters| ensures Faithful(Nums(letters)[i], IntArgs(ints)[i]) {
      FaithfulInt(letters[i], ints[i]);
    }
  }

  lemma {:induction false} IntLettersAreWide()
    ensures |INT_LETTERS| == 22 && forall i :: 0 <= i < 22 ==> INT_LETTERS[i] in {'H', 'L'}
  {
  }

  lemma {:induction false} EndsAreFaithful()
    ensures AllFaithful([Num('B')], IntArgs([0])) && AllFaithful(Nums("BL"), IntArgs([3, 0]))
  {
  }

  lemma {:induction false} FaithfulSeven(s0: Spec, s1: Spec, s2: Spec, s3: Spec, s4: Spec, s5: Spec, s6: Spec,
                      a0: Arg, a1: Arg, a2: Arg, a3: Arg, a4: Arg, a5: Arg, a6: Arg)
    requires Faithful(s0, a0) && Faithful(s1, a1) && Faithful(s2, a2) && Faithful(s3, a3)
    requires Faithful(s4, a4) && Faithful(s5, a5) && Faithful(s6, a6)
    ensures AllFaithful([s0, s1, s2, s3, s4, s5, s6], [a0, a1, a2, a3, a4, a5, a6])
  {
  }

  lemma {:induction false} FaithfulInt(letter: char, v: u32)
    requires LetterSize(letter) != 0 && LowBytes(v, letter) == v
    ensures Faithful(Num(letter), IntArg(v))
  {
  }

  lemma {:induction false} HeadStringsAreFaithful()
    ensures Faithful(Str("260"), BytesArg(Zeros(257)))
    ensures Faithful(Str("66"), BytesArg(Zeros(65))) && Faithful(Str("65"), BytesArg(Zeros(65)))
    ensures Faithful(Str("250"), BytesArg(Zeros(250))) && Faithful(Str("252"), BytesArg(Zeros(250)))
  {
    DecimalThree('2', '6', '0');
    DecimalTwo('6', '6');
    DecimalTwo('6', '5');
    DecimalThree('2', '5', '0');
    DecimalThree('2', '5', '2');
    FaithfulBytes("260", 260, Zeros(257));
    FaithfulBytes("66", 66, Zeros(65));
    FaithfulBytes("65", 65, Zeros(65));
    FaithfulBytes("250", 250, Zeros(250));
    FaithfulBytes("252", 252, Zeros(250));
  }

  lemma {:induction false} HeadIsFaithful()
    ensures AllFaithful(HeadSpecs(), HeadArgs())
  {
    HeadStringsAreFaithful();
    FaithfulInt('L', 0);
    FaithfulInt('B', 0);
    FaithfulSeven(Str("260"), Num('L'), Str("66"), Str("65"), Str("250"), Num('B'), Str("252"),
                  BytesArg(Zeros(257)), IntArg(0), BytesArg(Zeros(65)), BytesArg(Zeros(65)), BytesArg(Zeros(250)),
                  IntArg(0), BytesArg(Zeros(250)));
  }

  lemma {:induction false} TailIsFaithful(digits: string, capacity: nat, kind: u32, apn: seq<byte>)
    requires Str(digits).Valid() && Decimal(digits) == capacity < TWO_TO_THE_32
    requires |apn| == APN_MAX_LEN <= capacity
    ensures AllFaithful(TailSpecs(digits), TailArgs(kind, apn))
  {
    DecimalTwo('2', '0');
    FaithfulBytes("20", 20, Zeros(20));
    FaithfulBytes(digits, capacity, apn);
    assert Faithful(Num('L'), IntArg(kind));
  }

  lemma {:induction false} BlockIsFaithful(digits: string, capacity: nat, ints: seq<u32>, kind: u32, apn: seq<byte>)
    requires Str(digits).Valid() && Decimal(digits) == capacity < TWO_TO_THE_32
    requires |apn| == APN_MAX_LEN <= capacity
    requires |ints| == 22 && forall i :: 0 <= i < 22 ==> ints[i] < 0x1_0000
    ensures AllFaithful(BlockSpecs(digits), BlockArgs(ints, kind, apn))
  {
    IntLettersAreWide();
    FaithfulInts(INT_LETTERS, ints);
    HeadIsFaithful();
    TailIsFaithful(digits, capacity, kind, apn);
    FaithfulThree(HeadSpecs(), HeadArgs(), Nums(INT_LETTERS), IntArgs(ints), TailSpecs(digits), TailArgs(kind, apn));
  }

  lemma {:induction false} FaithfulThree(s0: seq<Spec>, a0: seq<Arg>, s1: seq<Spec>, a1: seq<Arg>, s2: seq<Spec>, a2: seq<Arg>)
    requires AllFaithful(s0, a0) && AllFaithful(s1, a1) && AllFaithful(s2, a2)
    ensures AllFaithful(s0 + s1 + s2, a0 + a1 + a2)
  {
    FaithfulConcat(s0, a0, s1, a1);
    FaithfulConcat(s0 + s1, a0 + a1, s2, a2);
  }

  lemma {:induction false} FaithfulSix(s0: seq<Spec>, s1: seq<Spec>, s2: seq<Spec>, s3: seq<Spec>, s4: seq<Spec>, s5: seq<Spec>,
                    a0: seq<Arg>, a1: seq<Arg>, a2: seq<Arg>, a3: seq<Arg>, a4: seq<Arg>, a5: seq<Arg>)
    requires AllFaithful(s0, a0) && AllFaithful(s1, a1) && AllFaithful(s2, a2)
    requires AllFaithful(s3, a3) && AllFaithful(s4, a4) && AllFaithful(s5, a5)
    ensures AllFaithful(s0 + s1 + s2 + s3 + s4 + s5, a0 + a1 + a2 + a3 + a4 + a5)
  {
    FaithfulConcat(s0, a0, s1, a1);
    FaithfulConcat(s0 + s1, a0 + a1, s2, a2);
    FaithfulConcat(s0 + s1 + s2, a0 + a1 + a2, s3, a3);
    FaithfulConcat(s0 + s1 + s2 + s3, a0 + a1 + a2 + a3, s4, a4);
    FaithfulConcat(s0 + s1 + s2 + s3 + s4, a0 + a1 + a2 + a3 + a4, s5, a5);
  }

  lemma {:induction false} IdleBlockIsFaithful()
    ensures AllFaithful(BlockSpecs("104"), BlockArgs(IDLE, 0, Zeros(101)))
  {
    DecimalThree('1', '0', '4');
    BlockIsFaithful("104", 104, IDLE, 0, Zeros(101));
  }

  lemma {:induction false} ActiveBlockIsFaithful(digits: string, capacity: nat, apn: seq<byte>)
    requires |apn| == APN_MAX_LEN
    requires (digits == "104" && capacity == 104) || (digits == "103" && capacity == 103)
    ensures AllFaithful(BlockSpecs(digits), BlockArgs(ACTIVE, 3, apn))
  {
    DecimalThree('1', '0', digits[2]);
    assert digits == ['1', '0', digits[2]];
    BlockIsFaithful(digits, capacity, ACTIVE, 3, apn);
  }

  lemma {:induction false} AttachIsFaithful(apn: seq<byte>)
    requires |apn| == APN_MAX_LEN
    ensures AllFaithful(Specs(), AttachArgs(apn))
  {
    EndsAreFaithful();
    IdleBlockIsFaithful();
    ActiveBlockIsFaithful("104", 104, apn);
    ActiveBlockIsFaithful("103", 103, apn);
    FaithfulSix([Num('B')], BlockSpecs("104"), BlockSpecs("104"), BlockSpecs("104"), BlockSpecs("103"), Nums("BL"),
                IntArgs([0]), BlockArgs(IDLE, 0, Zeros(101)), BlockArgs(IDLE, 0, Zeros(101)),
                BlockArgs(ACTIVE, 3, apn), BlockArgs(ACTIVE, 3, apn), IntArgs([3, 0]));
  }

  /** Faithful arguments pack and decode back to themselves. */
  lemma {:induction false} FaithfulRoundTrip(specs: seq<Spec>, args: seq<Arg>, fmt: string)
    requires AllFaithful(specs, args) && fmt == RenderAll(specs)
    ensures Packed(fmt, args).Ok? && Decoded(Packed(fmt, args).value) == Ok(AsValues(args))
  {
    RoundTripTo(specs, args, AsValues(args));
  }

  /** Every APN within the limit packs, and the payload decodes back to the argument list. */
  lemma {:induction false} AttachConfigDecodes(apn: seq<byte>)
    requires |apn| <= APN_MAX_LEN
    ensures AttachConfig(apn).Ok?
    ensures Decoded(AttachConfig(apn).value) == Ok(AsValues(AttachArgs(Padded(apn))))
  {
    SpecsRender();
    AttachIsFaithful(Padded(apn));
    FaithfulRoundTrip(Specs(), AttachArgs(Padded(apn)), Format());
  }

  /** Arguments of the same kinds and lengths. */
  ghost predicate Alike(a: seq<Arg>, b: seq<Arg>) {
    |a| == |b| && forall i :: 0 <= i < |a| && a[i].BytesArg? ==> b[i].BytesArg? && |a[i].bytes| == |b[i].bytes|
  }

  lemma {:induction false} AlikeConcat(a1: seq<Arg>, b1: seq<Arg>, a2: seq<Arg>, b2: seq<Arg>)
    requires Alike(a1, b1) && Alike(a2, b2)
    ensures Alike(a1 + a2, b1 + b2)
  {
  }

  /** Alike arguments make payloads of the same size. */
  lemma {:induction false} SameSize(specs: seq<Spec>, a: seq<Arg>, b: seq<Arg>)
    requires AllFaithful(specs, a) && AllFaithful(specs, b) && Alike(a, b)
    ensures AllValid(specs) && AllFit(specs, a) && AllFit(specs, b) && TotalSize(specs, a) == TotalSize(specs, b)
    decreases |specs|
  {
    if specs != [] {
      assert Faithful(specs[0], a[0]) && Faithful(specs[0], b[0]);
      assert forall i :: 0 <= i < |specs| - 1 ==>
        specs[1..][i] == specs[i + 1] && a[1..][i] == a[i + 1] && b[1..][i] == b[i + 1];
      SameSize(specs[1..], a[1..], b[1..]);
    }
  }

  lemma {:induction false} FaithfulSize(specs: seq<Spec>, args: seq<Arg>, fmt: string)
    requires AllFaithful(specs, args) && fmt == RenderAll(specs)
    ensures AllValid(specs) && AllFit(specs, args)
    ensures Packed(fmt, args).Ok? && |Packed(fmt, args).value| == TotalSize(specs, args)
  {
    PackedIsEncoded(specs, args);
    EncodedSize(specs, args);
  }

  lemma {:induction false} BlockAlike(ints: seq<u32>, kind: u32, a: seq<byte>, b: seq<byte>)
    requires |a| == |b|
    ensures Alike(BlockArgs(ints, kind, a), BlockArgs(ints, kind, b))
  {
    assert Alike(TailArgs(kind, a), TailArgs(kind, b));
    AlikeConcat(HeadArgs() + IntArgs(ints), HeadArgs() + IntArgs(ints), TailArgs(kind, a), TailArgs(kind, b));
  }

  lemma {:induction false} AlikeAround(front: seq<Arg>, blockA: seq<Arg>, blockB: seq<Arg>, back: seq<Arg>)
    requires Alike(blockA, blockB)
    ensures Alike(front + blockA + blockA + back, front + blockB + blockB + back)
  {
    AlikeConcat(front, front, blockA, blockB);
    AlikeConcat(front + blockA, front + blockB, blockA, blockB);
    AlikeConcat(front + blockA + blockA, front + blockB + blockB, back, back);
  }

  lemma {:induction false} AttachArgsAlike(a: seq<byte>, b: seq<byte>)
    requires |a| == |b|
    ensures Alike(AttachArgs(a), AttachArgs(b))
  {
    BlockAlike(ACTIVE, 3, a, b);
    AlikeAround(IntArgs([0]) + BlockArgs(IDLE, 0, Zeros(101)) + BlockArgs(IDLE, 0, Zeros(101)),
                BlockArgs(ACTIVE, 3, a), BlockArgs(ACTIVE, 3, b), IntArgs([3, 0]));
  }

  /** The payload length does not depend on the APN. */
  lemma {:induction false} AttachConfigSize(a: seq<byte>, b: seq<byte>)
    requires |a| <= APN_MAX_LEN && |b| <= APN_MAX_LEN
    ensures AttachConfig(a).Ok? && AttachConfig(b).Ok?
    ensures |AttachConfig(a).value| == |AttachConfig(b).value|
  {
    SpecsRender();
    AttachIsFaithful(Padded(a));
    AttachIsFaithful(Padded(b));
    FaithfulSize(Specs(), AttachArgs(Padded(a)), Format());
    FaithfulSize(Specs(), AttachArgs(Padded(b)), Format());
    AttachArgsAlike(Padded(a), Padded(b));
    SameSize(Specs(), AttachArgs(Padded(a)), AttachArgs(Padded(b)));
  }

  lemma {:induction false} BlockEndsWithApn(ints: seq<u32>, kind: u32, apn: seq<byte>)
    requires |ints| == 22
    ensures |BlockArgs(ints, kind, apn)| == 32 && BlockArgs(ints, kind, apn)[31] == BytesArg(apn)
  {
  }

  lemma {:induction false} LastOfThirdBlock(first: seq<Arg>, idle: seq<Arg>, block: seq<Arg>, back: seq<Arg>)
    requires |first| == 1 && |idle| == |block| == 32 && |back| == 2
    ensures var args := first + idle + idle + block + block + back;
            |args| == 131 && args[96] == block[31]
  {
  }

  lemma {:induction false} ApnPosition(apn: seq<byte>)
    ensures |AttachArgs(apn)| == 131 && AttachArgs(apn)[96] == BytesArg(apn)
  {
    BlockEndsWithApn(IDLE, 0, Zeros(101));
    BlockEndsWithApn(ACTIVE, 3, apn);
    LastOfThirdBlock(IntArgs([0]), BlockArgs(IDLE, 0, Zeros(101)), BlockArgs(ACTIVE, 3, apn), IntArgs([3, 0]));
  }

  /** Two APNs give the same payload exactly when they fill their field alike. */
  lemma {:induction false} AttachConfigInjective(a: seq<byte>, b: seq<byte>)
    requires |a| <= APN_MAX_LEN && |b| <= APN_MAX_LEN
    ensures AttachConfig(a) == AttachConfig(b) <==> Padded(a) == Padded(b)
  {
    AttachConfigDecodes(a);
    AttachConfigDecodes(b);
    ApnPosition(Padded(a));
    ApnPosition(Padded(b));
    if AttachConfig(a) == AttachConfig(b) {
      assert AsValues(AttachArgs(Padded(a)))[96] == AsValues(AttachArgs(Padded(b)))[96];
    }
  }

  // ---------------------------------------------------------------- the payload, value by value

  /** A string of `n` zeros. */
  ghost predicate IsBlank(v: Value, n: nat) {
    v.Bytes? && |v.bytes| == n && forall k :: 0 <= k < n ==> v.bytes[k] == 0
  }

  /** An APN at the front of its 101 bytes, zeros behind it. */
  ghost predicate HoldsApn(v: Value, apn: seq<byte>) {
    && v.Bytes? && |v.bytes| == 101 && |apn| <= 101 && v.bytes[..|apn|] == apn
    && forall k :: |apn| <= k < 101 ==> v.bytes[k] == 0
  }

  /** The integers of a block in which the APN is configured. */
  function ActiveInt(k: nat): u32 {
    if k in {5, 13, 17, 19} then 1 else if k == 16 then 1028 else 0
  }

  /** The 32 values of a block, the last of them left open. */
  ghost predicate IsBlock(vs: seq<Value>, active: bool) {
    && |vs| == 32
    && IsBlank(vs[0], 257) && vs[1] == Int(0) && IsBlank(vs[2], 65) && IsBlank(vs[3], 65) && IsBlank(vs[4], 250)
    && vs[5] == Int(0) && IsBlank(vs[6], 250)
    && (forall k :: 0 <= k < 22 ==> vs[7 + k] == Int(if active then ActiveInt(k) else 0))
    && IsBlank(vs[29], 20) && vs[30] == Int(if active then 3 else 0)
  }

  lemma {:induction false} Blank(n: nat)
    ensures IsBlank(AsValue(BytesArg(Zeros(n))), n)
  {
  }

  lemma {:induction false} HeadValues()
    ensures var vs := AsValues(HeadArgs());
            && |vs| == 7 && IsBlank(vs[0], 257) && vs[1] == Int(0) && IsBlank(vs[2], 65) && IsBlank(vs[3], 65)
            && IsBlank(vs[4], 250) && vs[5] == Int(0) && IsBlank(vs[6], 250)
  {
    hide IsBlank, Zeros;
    Blank(257);
    Blank(65);
    Blank(250);
    var args := HeadArgs();
    assert args[0] == BytesArg(Zeros(257)) && args[2] == args[3] == BytesArg(Zeros(65));
    assert args[4] == args[6] == BytesArg(Zeros(250));
  }

  lemma {:induction false} IntValues(active: bool)
    ensures var vs := AsValues(IntArgs(if active then ACTIVE else IDLE));
            |vs| == 22 && forall k :: 0 <= k < 22 ==> vs[k] == Int(if active then ActiveInt(k) else 0)
  {
    assert |ACTIVE| == |IDLE| == 22;
    assert forall k :: 0 <= k < 22 ==> ACTIVE[k] == ActiveInt(k) && IDLE[k] == 0;
  }

  lemma {:induction false} TailValues(kind: u32, apn: seq<byte>)
    ensures var vs := AsValues(TailArgs(kind, apn));
            |vs| == 3 && IsBlank(vs[0], 20) && vs[1] == Int(kind) && vs[2] == Bytes(apn)
  {
    hide IsBlank, Zeros;
    Blank(20);
    var args := TailArgs(kind, apn);
    assert args[0] == BytesArg(Zeros(20)) && args[1] == IntArg(kind) && args[2] == BytesArg(apn);
  }

  lemma {:induction false} AsValuesConcat(a: seq<Arg>, b: seq<Arg>)
    ensures AsValues(a + b) == AsValues(a) + AsValues(b)
  {
  }

  lemma {:induction false} Joined<T>(a: seq<T>, b: seq<T>, c: seq<T>)
    requires |a| == 7 && |b| == 22 && |c| == 3
    ensures var s := a + b + c;
            && |s| == 32 && (forall k :: 0 <= k < 7 ==> s[k] == a[k]) && (forall k :: 0 <= k < 22 ==> s[7 + k] == b[k])
            && s[29] == c[0] && s[30] == c[1] && s[31] == c[2]
  {
  }

  lemma {:induction false} JoinedIsBlock(a: seq<Value>, b: seq<Value>, c: seq<Value>, active: bool)
    requires |a| == 7 && |b| == 22 && |c| == 3
    requires IsBlank(a[0], 257) && a[1] == Int(0) && IsBlank(a[2], 65) && IsBlank(a[3], 65) && IsBlank(a[4], 250)
    requires a[5] == Int(0) && IsBlank(a[6], 250)
    requires forall k :: 0 <= k < 22 ==> b[k] == Int(if active then ActiveInt(k) else 0)
    requires IsBlank(c[0], 20) && c[1] == Int(if active then 3 else 0)
    ensures IsBlock(a + b + c, active) && (a + b + c)[31] == c[2]
  {
    hide IsBlank, ActiveInt;
    Joined(a, b, c);
  }

  lemma {:induction false} BlockValues(active: bool, apn: seq<byte>)
    ensures var vs := AsValues(BlockArgs(if active then ACTIVE else IDLE, if active then 3 else 0, apn));
            IsBlock(vs, active) && vs[31] == Bytes(apn)
  {
    hide IsBlank, ActiveInt, AsValues, HeadArgs, IntArgs, TailArgs, IsBlock;
    var ints, kind: u32 := if active then ACTIVE else IDLE, if active then 3 else 0;
    HeadValues();
    IntValues(active);
    TailValues(kind, apn);
    AsValuesConcat(HeadArgs(), IntArgs(ints));
    AsValuesConcat(HeadArgs() + IntArgs(ints), TailArgs(kind, apn));
    JoinedIsBlock(AsValues(HeadArgs()), AsValues(IntArgs(ints)), AsValues(TailArgs(kind, apn)), active);
  }

  /** Where the parts of the argument list stand. */
  lemma {:induction false} PartsAt<T>(first: seq<T>, idle: seq<T>, block: seq<T>, back: seq<T>)
    requires |first| == 1 && |idle| == |block| == 32 && |back| == 2
    ensures var args := first + idle + idle + block + block + back;
            && |args| == 131 && args[..1] == first && args[1..33] == idle && args[33..65] == idle
            && args[65..97] == block && args[97..129] == block && args[129..] == back
  {
  }

  lemma {:induction false} AsValuesSlice(args: seq<Arg>, i: nat, j: nat)
    requires i <= j <= |args|
    ensures AsValues(args)[i..j] == AsValues(args[i..j])
  {
  }

  /**
   * The payload for an APN, value by value: two blank blocks and two that carry the APN, at the front
   * of their last string, in positions 96 and 128; no other value has a part of it.
   */
  lemma {:induction false} AttachConfigValues(apn: seq<byte>)
    requires |apn| <= 101
    ensures AttachConfig(apn).Ok? && Decoded(AttachConfig(apn).value).Ok?
    ensures var vs := Decoded(AttachConfig(apn).value).value;
            && |vs| == 131 && vs[0] == Int(0) && vs[129] == Int(3) && vs[130] == Int(0)
            && IsBlock(vs[1..33], false) && IsBlock(vs[33..65], false) && IsBlank(vs[32], 101) && IsBlank(vs[64], 101)
            && IsBlock(vs[65..97], true) && IsBlock(vs[97..129], true) && HoldsApn(vs[96], apn) && HoldsApn(vs[128], apn)
  {
    hide AttachConfig, IsBlock, BlockArgs, Padded, Decoded;
    AttachConfigDecodes(apn);
    var field := Padded(apn);
    var idle, block := BlockArgs(IDLE, 0, Zeros(101)), BlockArgs(ACTIVE, 3, field);
    var args := AttachArgs(field);
    BlockValues(false, Zeros(101));
    BlockValues(true, field);
    BlockLength(IDLE, 0, Zeros(101));
    BlockLength(ACTIVE, 3, field);
    PartsAt(IntArgs([0]), idle, block, IntArgs([3, 0]));
    AsValuesSlice(args, 1, 33);
    AsValuesSlice(args, 33, 65);
    AsValuesSlice(args, 65, 97);
    AsValuesSlice(args, 97, 129);
    var vs := AsValues(args);
    assert vs[32] == vs[1..33][31] && vs[64] == vs[33..65][31] && vs[96] == vs[65..97][31] && vs[128] == vs[97..129][31];
    assert args[0] == args[..1][0] && args[129] == args[129..][0] && args[130] == args[129..][1];
  }

  lemma {:induction false} BlockLength(ints: seq<u32>, kind: u32, apn: seq<byte>)
    requires |ints| == 22
    ensures |BlockArgs(ints, kind, apn)| == 32
  {
  }

  /** The specifiers of a block, the capacity of the last string left open. */
  ghost predicate IsBlockFormat(specs: seq<Spec>, capacity: string) {
    && |specs| == 32
    && specs[0] == Str("260") && specs[1] == Num('L') && specs[2] == Str("66") && specs[3] == Str("65") && specs[4] == Str("250")
    && specs[5] == Num('B') && specs[6] == Str("252")
    && specs[7] == Num('H') && (forall k :: 8 <= k < 29 ==> specs[k] == Num('L'))
    && specs[29] == Str("20") && specs[30] == Num('L') && specs[31] == Str(capacity)
  }

  lemma {:induction false} BlockSpecsAre(capacity: string)
    ensures IsBlockFormat(BlockSpecs(capacity), capacity)
  {
    IntLettersAre();
    var head, ints, tail := HeadSpecs(), Nums(INT_LETTERS), TailSpecs(capacity);
    hide Nums;
    Joined(head, ints, tail);
    var specs := BlockSpecs(capacity);
    forall k | 8 <= k < 29 ensures specs[k] == Num('L') {
      assert specs[7 + (k - 7)] == ints[k - 7];
    }
  }

  lemma {:induction false} IntLettersAre()
    ensures |INT_LETTERS| == 22 && INT_LETTERS[0] == 'H' && forall k :: 0 < k < 22 ==> INT_LETTERS[k] == 'L'
  {
  }

  /** The format, specifier by specifier: an integer, four blocks with fields of 104, 104, 104 and 103, two integers. */
  lemma {:induction false} SpecsAre()
    ensures var specs := Specs();
            && RenderAll(specs) == Format() && |specs| == 131
            && specs[0] == Num('B') && IsBlockFormat(specs[1..33], "104") && IsBlockFormat(specs[33..65], "104")
            && IsBlockFormat(specs[65..97], "104") && IsBlockFormat(specs[97..129], "103")
            && specs[129] == Num('B') && specs[130] == Num('L')
  {
    SpecsRender();
    hide Format, RenderAll, BlockSpecs, IsBlockFormat, Nums;
    BlockSpecsAre("104");
    BlockSpecsAre("103");
    BlockSpecsLength("104");
    BlockSpecsLength("103");
    var block, last := BlockSpecs("104"), BlockSpecs("103");
    PartsOfSpecs([Num('B')], block, last, Nums("BL"));
    assert Specs()[0] == Specs()[..1][0] && Specs()[129] == Specs()[129..][0] && Specs()[130] == Specs()[129..][1];
  }

  lemma {:induction false} BlockSpecsLength(capacity: string)
    ensures |BlockSpecs(capacity)| == 32
  {
  }

  lemma {:induction false} PartsOfSpecs(first: seq<Spec>, block: seq<Spec>, last: seq<Spec>, back: seq<Spec>)
    requires |first| == 1 && |block| == |last| == 32 && |back| == 2
    ensures var specs := first + block + block + block + last + back;
            && |specs| == 131 && specs[..1] == first && specs[1..33] == block && specs[33..65] == block
            && specs[65..97] == block && specs[97..129] == last && specs[129..] == back
  {
  }
}
