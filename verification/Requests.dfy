/** Request payloads, and the decoding of the replies that carry addresses and versions. */
module Requests {
  import opened Wrappers
  import opened ByteSeqs
  import opened Codec
  import opened DecodingLaws
  import opened PackingLaws
  import Cursor

  // ---------------------------------------------------------------- requests of integers only

  /** The specifiers of a format that is all size letters. */
  function Nums(fmt: string): (specs: seq<Spec>)
    ensures |specs| == |fmt|
    ensures forall i :: 0 <= i < |fmt| ==> specs[i] == Num(fmt[i])
  {
    if fmt == [] then [] else [Num(fmt[0])] + Nums(fmt[1..])
  }

  lemma {:induction false} RenderNums(fmt: string)
    ensures RenderAll(Nums(fmt)) == fmt
    decreases |fmt|
  {
    if fmt != [] {
      RenderNums(fmt[1..]);
      assert fmt == [fmt[0]] + fmt[1..];
    }
  }

  /** When every argument fits and survives, the payload decodes to what the caller expects. */
  lemma {:induction false} RoundTripTo(specs: seq<Spec>, args: seq<Arg>, expected: seq<Value>)
    requires AllValid(specs) && |specs| == |args| == |expected|
    requires forall i :: 0 <= i < |specs| ==>
               && Fits(specs[i], args[i]) && Countable(specs[i]) && Survives(specs[i], args[i])
               && expected[i] == Stripped(specs[i], args[i])
    ensures Packed(RenderAll(specs), args).Ok?
    ensures Decoded(Packed(RenderAll(specs), args).value) == Ok(expected)
  {
    assert AllFit(specs, args);
    assert AllSurvive(specs, args);
    RenderedRoundTripIff(specs, args);
    var values := Decoded(Packed(RenderAll(specs), args).value).value;
    assert values == expected;
  }

  /** Integers pack, and come back cut to the width their letters give them. */
  lemma {:induction false} NumericRoundTrip(fmt: string, args: seq<Arg>, expected: seq<Value>)
    requires |fmt| == |args| == |expected|
    requires forall i :: 0 <= i < |fmt| ==>
               && LetterSize(fmt[i]) != 0 && args[i].IntArg?
               && expected[i] == Int(LowBytes(args[i].number, fmt[i]))
    ensures Packed(fmt, args).Ok? && Decoded(Packed(fmt, args).value) == Ok(expected)
  {
    RenderNums(fmt);
    RoundTripTo(Nums(fmt), args, expected);
  }

  const NET_ATTACH_ARGS: seq<Arg> :=
    [IntArg(0), IntArg(0), IntArg(0), IntArg(0), IntArg(0), IntArg(0xffff), IntArg(0xffff), IntArg(0), IntArg(0)]

  const THREE_ZEROS: seq<Arg> := [IntArg(0), IntArg(0), IntArg(0)]

  const PS_CONNECT_ARGS: seq<Arg> := [IntArg(0), IntArg(6), IntArg(0), IntArg(0)]

  lemma {:induction false} NetAttachPacks()
    ensures Packed("BLLLLHHLL", NET_ATTACH_ARGS).Ok?
    ensures Decoded(Packed("BLLLLHHLL", NET_ATTACH_ARGS).value)
            == Ok([Int(0), Int(0), Int(0), Int(0), Int(0), Int(0xffff), Int(0xffff), Int(0), Int(0)])
  {
    hide Packed, Decoded;
    NumericRoundTrip("BLLLLHHLL", NET_ATTACH_ARGS,
                     [Int(0), Int(0), Int(0), Int(0), Int(0), Int(0xffff), Int(0xffff), Int(0), Int(0)]);
  }

  function NetAttach(): (b: seq<byte>)
    ensures Packed("BLLLLHHLL", NET_ATTACH_ARGS) == Ok(b)
    ensures Decoded(b)
            == Ok([Int(0), Int(0), Int(0), Int(0), Int(0), Int(0xffff), Int(0xffff), Int(0), Int(0)])
  {
    NetAttachPacks();
    Packed("BLLLLHHLL", NET_ATTACH_ARGS).value
  }

  lemma {:induction false} ThreeZerosPacks()
    ensures Packed("BLL", THREE_ZEROS).Ok?
    ensures Decoded(Packed("BLL", THREE_ZEROS).value) == Ok([Int(0), Int(0), Int(0)])
  {
    hide Packed, Decoded;
    NumericRoundTrip("BLL", THREE_ZEROS, [Int(0), Int(0), Int(0)]);
  }

  function GetNegIp(): (b: seq<byte>)
    ensures Packed("BLL", THREE_ZEROS) == Ok(b)
    ensures Decoded(b) == Ok([Int(0), Int(0), Int(0)])
  {
    ThreeZerosPacks();
    Packed("BLL", THREE_ZEROS).value
  }

  function GetNegDns(): (b: seq<byte>)
    ensures Packed("BLL", THREE_ZEROS) == Ok(b)
    ensures Decoded(b) == Ok([Int(0), Int(0), Int(0)])
  {
    ThreeZerosPacks();
    Packed("BLL", THREE_ZEROS).value
  }

  lemma {:induction false} PsConnectPacks()
    ensures Packed("BLLL", PS_CONNECT_ARGS).Ok?
    ensures Decoded(Packed("BLLL", PS_CONNECT_ARGS).value) == Ok([Int(0), Int(6), Int(0), Int(0)])
  {
    hide Packed, Decoded;
    NumericRoundTrip("BLLL", PS_CONNECT_ARGS, [Int(0), Int(6), Int(0), Int(0)]);
  }

  function PsConnect(): (b: seq<byte>)
    ensures Packed("BLLL", PS_CONNECT_ARGS) == Ok(b)
    ensures Decoded(b) == Ok([Int(0), Int(6), Int(0), Int(0)])
  {
    PsConnectPacks();
    Packed("BLLL", PS_CONNECT_ARGS).value
  }

  lemma {:induction false} ModeSetPacks(mode: u32)
    ensures Packed("LLL", [IntArg(0), IntArg(15), IntArg(mode)]).Ok?
    ensures Decoded(Packed("LLL", [IntArg(0), IntArg(15), IntArg(mode)]).value) == Ok([Int(0), Int(15), Int(mode)])
  {
    hide Packed, Decoded;
    NumericRoundTrip("LLL", [IntArg(0), IntArg(15), IntArg(mode)], [Int(0), Int(15), Int(mode)]);
  }

  /** The payload of a mode change: no transaction, the tool's fixed id 15, the mode. */
  function ModeSet(mode: u32): (b: seq<byte>)
    ensures Packed("LLL", [IntArg(0), IntArg(15), IntArg(mode)]) == Ok(b)
    ensures Decoded(b) == Ok([Int(0), Int(15), Int(mode)])
  {
    ModeSetPacks(mode);
    Packed("LLL", [IntArg(0), IntArg(15), IntArg(mode)]).value
  }

  // ---------------------------------------------------------------- requests with strings

  lemma {:induction false} RenderThree(a: Spec, b: Spec, c: Spec)
    ensures RenderAll([a, b, c]) == a.Render() + b.Render() + c.Render()
  {
    assert [a, b, c][1..] == [b, c] && [b, c][1..] == [c] && [c][1..] == [];
    assert RenderAll([c]) == c.Render() + RenderAll([]) == c.Render();
    assert RenderAll([b, c]) == b.Render() + c.Render();
  }

  lemma {:induction false} DecimalOne(a: char)
    requires IsDigit(a)
    ensures Decimal([a]) == DigitValue(a)
  {
    assert [a][..0] == [];
  }

  lemma {:induction false} DecimalTwo(a: char, b: char)
    requires IsDigit(a) && IsDigit(b)
    ensures Decimal([a, b]) == 10 * DigitValue(a) + DigitValue(b)
  {
    DecimalOne(a);
    assert [a, b][..1] == [a];
  }

  lemma {:induction false} DecimalThree(a: char, b: char, c: char)
    requires IsDigit(a) && IsDigit(b) && IsDigit(c)
    ensures Decimal([a, b, c]) == 100 * DigitValue(a) + 10 * DigitValue(b) + DigitValue(c)
  {
    DecimalTwo(a, b);
    assert [a, b, c][..2] == [a, b];
  }

  /** A byte string fits a field of bytes when it is no longer than the capacity. */
  lemma {:induction false} ByteStringFits(digits: string, capacity: nat, value: seq<byte>)
    requires Str(digits).Valid() && Decimal(digits) == capacity < TWO_TO_THE_32
    ensures Fits(Str(digits), BytesArg(value)) <==> |value| <= capacity
    ensures Countable(Str(digits))
    ensures !Fits(Str(digits), BytesArg(value)) ==>
              Misfit(Str(digits), BytesArg(value)) == StringOverflow(|value|, capacity)
    ensures Fits(Str(digits), BytesArg(value)) && Palindromic(|value|) ==> Survives(Str(digits), BytesArg(value))
  {
  }

  lemma {:induction false} SysGetInfoPacks(index: u32)
    ensures Packed("Ls0L", [IntArg(0), BytesArg([]), IntArg(index)]).Ok?
    ensures Decoded(Packed("Ls0L", [IntArg(0), BytesArg([]), IntArg(index)]).value)
            == Ok([Int(0), Bytes([]), Int(index)])
  {
    var specs := [Num('L'), Str("0"), Num('L')];
    var args := [IntArg(0), BytesArg([]), IntArg(index)];
    RenderThree(specs[0], specs[1], specs[2]);
    DecimalOne('0');
    SmallPalindromes(0);
    ByteStringFits("0", 0, []);
    assert RenderAll(specs) == "Ls0L";
    RoundTripTo(specs, args, [Int(0), Bytes([]), Int(index)]);
  }

  function SysGetInfo(index: u32): (b: seq<byte>)
    ensures Packed("Ls0L", [IntArg(0), BytesArg([]), IntArg(index)]) == Ok(b)
    ensures Decoded(b) == Ok([Int(0), Bytes([]), Int(index)])
  {
    SysGetInfoPacks(index);
    Packed("Ls0L", [IntArg(0), BytesArg([]), IntArg(index)]).value
  }

  /** A data-channel path packs exactly when it leaves room for its terminator, and then comes back. */
  lemma {:induction false} DatachannelPathFits(path: seq<byte>)
    ensures var r := Packed("s24", [BytesArg(path + [0])]);
            if |path| < 24 then r.Ok? && Decoded(r.value) == Ok([Bytes(path + [0])])
            else r == Err(StringOverflow(|path| + 1, 24))
  {
    hide Packed, Decoded;
    var spec, arg := Str("24"), BytesArg(path + [0]);
    assert RenderAll([spec]) == spec.Render() + RenderAll([]) == "s24";
    DecimalTwo('2', '4');
    ByteStringFits("24", 24, path + [0]);
    PackedIsEncoded([spec], [arg]);
    if |path| < 24 {
      SmallPalindromes(|path| + 1);
      RoundTripTo([spec], [arg], [Bytes(path + [0])]);
    }
  }

  /** The request for a data channel: the path and its terminator in a field of 24 bytes. */
  method ConnectToDatachannel(path: seq<byte>) returns (r: Result<seq<byte>, CodecError>)
    ensures r == Packed("s24", [BytesArg(path + [0])])
    ensures if |path| < 24 then r.Ok? && Decoded(r.value) == Ok([Bytes(path + [0])])
            else r == Err(StringOverflow(|path| + 1, 24))
  {
    DatachannelPathFits(path);
    var buffer := path;
    buffer := buffer + [0];
    r := Cursor.Pack("s24", [BytesArg(buffer)]);
  }

  // ---------------------------------------------------------------- replies

  type Ipv4 = a: seq<byte> | |a| == 4 witness [0, 0, 0, 0]
  type Ipv6 = a: seq<byte> | |a| == 16 witness [0, 0, 0, 0, 0, 0, 0, 0, 0, 0, 0, 0, 0, 0, 0, 0]

  const UNSPECIFIED: Ipv4 := [0, 0, 0, 0]

  function Get<T>(s: seq<T>, i: nat): Option<T> {
    if i < |s| then Some(s[i]) else None
  }

  function BytesAt(values: seq<Value>, i: nat): Option<seq<byte>> {
    if i < |values| then values[i].AsBytes() else None
  }

  function IntAt(values: seq<Value>, i: nat): Option<u32> {
    if i < |values| then values[i].AsInt() else None
  }

  /** The three candidate addresses of a reply. */
  function ParsedNegIp(body: seq<byte>): Result<seq<Ipv4>, CodecError> {
    match Unpacked("nsnnnn", body)
    case Err(e) => Err(e)
    case Ok(values) =>
      match BytesAt(values, 1)
      case None => Err(MissingArgument)
      case Some(addresses) =>
        if |addresses| < 12 then Err(UnexpectedEof)
        else Ok([addresses[0..4], addresses[4..8], addresses[8..12]])
  }

  function ParsedSysInfo(body: seq<byte>): Result<seq<byte>, CodecError> {
    match Unpacked("nns", body)
    case Err(e) => Err(e)
    case Ok(values) =>
      match BytesAt(values, if values == [] then 0 else |values| - 1)
      case None => Err(MissingArgument)
      case Some(b) => Ok(b)
  }

  /** Values an unpack returns have the kinds of its format, position by position. */
  lemma {:induction false} UnpackedKinds(fmt: string, body: seq<byte>)
    requires Unpacked(fmt, body).Ok?
    ensures |Unpacked(fmt, body).value| == |fmt|
    ensures forall i :: 0 <= i < |fmt| ==> fmt[i] == if Unpacked(fmt, body).value[i].Int? then 'n' else 's'
  {
    UnpackedShape(fmt, body);
  }

  /** The missing-argument branches of the parsers are never taken: unpacking or shortness decides. */
  lemma {:induction false} NoArgumentIsMissing(body: seq<byte>)
    ensures Unpacked("nsnnnn", body).Ok? ==>
              |Unpacked("nsnnnn", body).value| == 6 && Unpacked("nsnnnn", body).value[1].Bytes?
    ensures ParsedNegIp(body)
            == match Unpacked("nsnnnn", body)
               case Err(e) => Err(e)
               case Ok(vs) =>
                 var b := vs[1].bytes;
                 if |b| >= 12 then Ok([b[0..4], b[4..8], b[8..12]]) else Err(UnexpectedEof)
    ensures Unpacked("nns", body).Ok? ==>
              |Unpacked("nns", body).value| == 3 && Unpacked("nns", body).value[2].Bytes?
    ensures ParsedSysInfo(body)
            == match Unpacked("nns", body)
               case Err(e) => Err(e)
               case Ok(vs) => Ok(vs[2].bytes)
  {
    if Unpacked("nsnnnn", body).Ok? {
      UnpackedKinds("nsnnnn", body);
    }
    if Unpacked("nns", body).Ok? {
      UnpackedKinds("nns", body);
    }
  }

  /** The kinds of a value list start with those a format asks for. */
  predicate HasKinds(values: seq<Value>, fmt: string) {
    |fmt| <= |values| && forall k :: 0 <= k < |fmt| ==> (fmt[k] == 'n' && values[k].Int?) || (fmt[k] == 's' && values[k].Bytes?)
  }

  /** What an unpack of a reply that decodes comes to: its first values, if they are of the right kinds. */
  lemma {:induction false} UnpackedOfDecoded(fmt: string, body: seq<byte>)
    requires Decoded(body).Ok?
    ensures Unpacked(fmt, body).Ok? <==> HasKinds(Decoded(body).value, fmt)
    ensures Unpacked(fmt, body).Ok? ==> Unpacked(fmt, body).value == Decoded(body).value[..|fmt|]
  {
    UnpackedAgrees(fmt, body);
    var shape := Shape(Decoded(body).value);
    if HasKinds(Decoded(body).value, fmt) {
      assert fmt == shape[..|fmt|];
    }
  }

  /**
   * An address reply that decodes parses exactly when its first six values are an integer, a string
   * of at least 12 bytes and four integers; the candidates are the string's first three quadruples.
   */
  lemma {:induction false} NegIpOfDecoded(body: seq<byte>)
    requires Decoded(body).Ok?
    ensures var vs := Decoded(body).value;
            ParsedNegIp(body).Ok? <==>
              |vs| >= 6 && vs[0].Int? && vs[1].Bytes? && vs[2].Int? && vs[3].Int? && vs[4].Int? && vs[5].Int? && |vs[1].bytes| >= 12
    ensures ParsedNegIp(body).Ok? ==>
              var b := Decoded(body).value[1].bytes;
              ParsedNegIp(body).value == [[b[0], b[1], b[2], b[3]], [b[4], b[5], b[6], b[7]], [b[8], b[9], b[10], b[11]]]
  {
    hide Decoded, Unpacked;
    UnpackedOfDecoded("nsnnnn", body);
    NoArgumentIsMissing(body);
    var vs := Decoded(body).value;
    if ParsedNegIp(body).Ok? {
      var b := vs[1].bytes;
      assert b[0..4] == [b[0], b[1], b[2], b[3]] && b[4..8] == [b[4], b[5], b[6], b[7]] && b[8..12] == [b[8], b[9], b[10], b[11]];
    }
    assert HasKinds(vs, "nsnnnn") <==>
             |vs| >= 6 && vs[0].Int? && vs[1].Bytes? && vs[2].Int? && vs[3].Int? && vs[4].Int? && vs[5].Int?;
  }

  // ---------------------------------------------------------------- name servers

  datatype DnsServers = DnsServers(v4: seq<Ipv4>, v6: seq<Ipv6>)

  function Repeat(s: string, n: nat): (r: string)
    ensures |r| == n * |s|
  {
    if n == 0 then [] else s + Repeat(s, n - 1)
  }

  function DnsFormat(): string {
    "n" + Repeat("sn", 16) + "nsnnnn"
  }

  lemma {:induction false} RepeatAt(n: nat, i: nat)
    requires i < n
    ensures Repeat("sn", n)[2 * i] == 's' && Repeat("sn", n)[2 * i + 1] == 'n'
    decreases n
  {
    if i > 0 {
      RepeatAt(n - 1, i - 1);
    }
  }

  lemma {:induction false} DnsFormatSlots(i: nat)
    requires i < 16
    ensures |DnsFormat()| == 39
    ensures DnsFormat()[2 * i + 1] == 's' && DnsFormat()[2 * i + 2] == 'n'
  {
    RepeatAt(16, i);
    assert DnsFormat()[1..33] == Repeat("sn", 16);
  }

  lemma {:induction false} DnsFormatEnds()
    ensures |DnsFormat()| == 39 && DnsFormat()[0] == 'n'
    ensures DnsFormat()[33] == 'n' && DnsFormat()[34] == 's'
    ensures DnsFormat()[35] == 'n' && DnsFormat()[36] == 'n' && DnsFormat()[37] == 'n' && DnsFormat()[38] == 'n'
  {
    var slots := Repeat("sn", 16);
    hide Repeat;
    assert DnsFormat() == "n" + slots + "nsnnnn" && |slots| == 32;
  }

  /** The format of a name-server reply: strings at 1, 3, up to 31 and at 34, integers elsewhere. */
  lemma {:induction false} DnsFormatIs(k: nat)
    requires k < 39
    ensures |DnsFormat()| == 39
    ensures DnsFormat()[k] == if (k < 33 && k % 2 == 1) || k == 34 then 's' else 'n'
  {
    hide DnsFormat;
    DnsFormatEnds();
    if 1 <= k <= 32 {
      DnsFormatSlots((k - 1) / 2);
    }
  }

  /** A name-server reply that decodes unpacks exactly when its first 39 values are of those kinds. */
  lemma {:induction false} DnsOfDecoded(body: seq<byte>)
    requires Decoded(body).Ok?
    ensures var vs := Decoded(body).value;
            Unpacked(DnsFormat(), body).Ok? <==>
              |vs| >= 39 && forall k :: 0 <= k < 39 ==> (vs[k].Bytes? <==> (k < 33 && k % 2 == 1) || k == 34)
    ensures Unpacked(DnsFormat(), body).Ok? ==> Unpacked(DnsFormat(), body).value == Decoded(body).value[..39]
  {
    hide Decoded, Unpacked, DnsFormat;
    UnpackedOfDecoded(DnsFormat(), body);
    forall k: nat | k < 39
      ensures |DnsFormat()| == 39 && DnsFormat()[k] == if (k < 33 && k % 2 == 1) || k == 34 then 's' else 'n'
    {
      DnsFormatIs(k);
    }
    DnsFormatIs(0);
  }

  /** A reply with its 16 slots in place: every slot a string and then its kind. */
  predicate HasSlots(values: seq<Value>) {
    |values| == 39 && forall i :: 0 <= i < 16 ==> values[2 * i + 1].Bytes? && values[2 * i + 2].Int?
  }

  /** The IPv4 servers of the first `n` slots: those of kind 1 with at least 4 bytes, in order. */
  function V4Slots(values: seq<Value>, n: nat): seq<Ipv4>
    requires HasSlots(values) && n <= 16
  {
    if n == 0 then []
    else
      var bytes, kind := values[2 * (n - 1) + 1].bytes, values[2 * (n - 1) + 2].value;
      V4Slots(values, n - 1) + if kind == 1 && |bytes| >= 4 then [bytes[..4]] else []
  }

  /** The IPv6 servers of the first `n` slots: those of kind 2 with at least 16 bytes, in order. */
  function V6Slots(values: seq<Value>, n: nat): seq<Ipv6>
    requires HasSlots(values) && n <= 16
  {
    if n == 0 then []
    else
      var bytes, kind := values[2 * (n - 1) + 1].bytes, values[2 * (n - 1) + 2].value;
      V6Slots(values, n - 1) + if kind == 2 && |bytes| >= 16 then [bytes[..16]] else []
  }

  lemma {:induction false} SlotCount(values: seq<Value>, n: nat)
    requires HasSlots(values) && n <= 16
    ensures |V4Slots(values, n)| + |V6Slots(values, n)| <= n
    decreases n
  {
    if n > 0 {
      SlotCount(values, n - 1);
    }
  }

  /** A slot that carries a server of a family: its kind, and a string of at least the address size. */
  predicate Carries(values: seq<Value>, i: int, kind: u32, size: nat)
    requires HasSlots(values) && 0 <= i < 16
  {
    values[2 * i + 2] == Int(kind) && |values[2 * i + 1].bytes| >= size
  }

  /** `slots` are all the slots of a family, in order, and `servers` their addresses. */
  ghost predicate Lists(values: seq<Value>, n: nat, kind: u32, size: nat, slots: seq<int>, servers: seq<seq<byte>>)
    requires HasSlots(values) && n <= 16
  {
    && |servers| == |slots|
    && (forall k :: 0 <= k < |slots| ==> 0 <= slots[k] < n && Carries(values, slots[k], kind, size)
                                         && servers[k] == values[2 * slots[k] + 1].bytes[..size])
    && (forall j, k :: 0 <= j < k < |slots| ==> slots[j] < slots[k])
    && (forall i :: 0 <= i < n && Carries(values, i, kind, size) ==> i in slots)
  }

  lemma {:induction false} ListsOneMore(values: seq<Value>, n: nat, kind: u32, size: nat, slots: seq<int>, servers: seq<seq<byte>>)
    requires HasSlots(values) && n < 16 && Lists(values, n, kind, size, slots, servers)
    ensures Carries(values, n, kind, size) ==>
              Lists(values, n + 1, kind, size, slots + [n], servers + [values[2 * n + 1].bytes[..size]])
    ensures !Carries(values, n, kind, size) ==> Lists(values, n + 1, kind, size, slots, servers)
  {
    hide Carries;
    if Carries(values, n, kind, size) {
      assert n in slots + [n] && forall i :: i in slots ==> i in slots + [n];
      assert forall i :: 0 <= i < n + 1 && Carries(values, i, kind, size) ==> i in slots + [n];
    }
  }

  /** The IPv4 servers are the first 4 bytes of all slots of kind 1 with as many, in order. */
  lemma {:induction false} V4SlotsListed(values: seq<Value>, n: nat) returns (slots: seq<int>)
    requires HasSlots(values) && n <= 16
    ensures Lists(values, n, 1, 4, slots, V4Slots(values, n))
    decreases n
  {
    slots := [];
    if n > 0 {
      slots := V4SlotsListed(values, n - 1);
      ListsOneMore(values, n - 1, 1, 4, slots, V4Slots(values, n - 1));
      if Carries(values, n - 1, 1, 4) {
        slots := slots + [n - 1];
      } else {
        assert V4Slots(values, n) == V4Slots(values, n - 1) + [] == V4Slots(values, n - 1);
      }
    }
  }

  /** The IPv6 servers are the first 16 bytes of all slots of kind 2 with as many, in order. */
  lemma {:induction false} V6SlotsListed(values: seq<Value>, n: nat) returns (slots: seq<int>)
    requires HasSlots(values) && n <= 16
    ensures Lists(values, n, 2, 16, slots, V6Slots(values, n))
    decreases n
  {
    slots := [];
    if n > 0 {
      slots := V6SlotsListed(values, n - 1);
      ListsOneMore(values, n - 1, 2, 16, slots, V6Slots(values, n - 1));
      if Carries(values, n - 1, 2, 16) {
        slots := slots + [n - 1];
      } else {
        assert V6Slots(values, n) == V6Slots(values, n - 1) + [] == V6Slots(values, n - 1);
      }
    }
  }

  /** A reply that unpacks has all its slots. */
  lemma {:induction false} DnsReplyHasSlots(body: seq<byte>)
    requires Unpacked(DnsFormat(), body).Ok?
    ensures HasSlots(Unpacked(DnsFormat(), body).value)
  {
    UnpackedKinds(DnsFormat(), body);
    var values := Unpacked(DnsFormat(), body).value;
    DnsFormatSlots(0);
    forall i | 0 <= i < 16 ensures values[2 * i + 1].Bytes? && values[2 * i + 2].Int? {
      DnsFormatSlots(i);
      assert DnsFormat()[2 * i + 1] == if values[2 * i + 1].Int? then 'n' else 's';
      assert DnsFormat()[2 * i + 2] == if values[2 * i + 2].Int? then 'n' else 's';
    }
  }

  /** Decode the negotiated name servers: the 16 slots filtered by kind and length, order kept. */
  method ParseDns(body: seq<byte>) returns (r: Result<DnsServers, CodecError>)
    ensures match Unpacked(DnsFormat(), body)
            case Err(e) => r == Err(e)
            case Ok(values) =>
              && HasSlots(values)
              && r == Ok(DnsServers(V4Slots(values, 16), V6Slots(values, 16)))
              && |r.value.v4| + |r.value.v6| <= 16
  {
    var values :- Cursor.Unpack(DnsFormat(), body);
    DnsReplyHasSlots(body);
    SlotCount(values, 16);
    var servers := CollectServers(values);
    r := Ok(servers);
  }

  lemma {:induction false} SlotStep(values: seq<Value>, i: nat)
    requires HasSlots(values) && i < 16
    ensures var bytes, kind := values[2 * i + 1].bytes, values[2 * i + 2].value;
            && V4Slots(values, i + 1)
               == V4Slots(values, i) + (if kind == 1 && |bytes| >= 4 then [bytes[..4]] else [])
            && V6Slots(values, i + 1)
               == V6Slots(values, i) + (if kind == 2 && |bytes| >= 16 then [bytes[..16]] else [])
  {
  }

  /** The loop of `ParseDns`: neither of its early exits is ever taken. */
  method CollectServers(values: seq<Value>) returns (servers: DnsServers)
    requires HasSlots(values)
    ensures servers == DnsServers(V4Slots(values, 16), V6Slots(values, 16))
  {
    var v4: seq<Ipv4> := [];
    var v6: seq<Ipv6> := [];
    for i := 0 to 16
      invariant v4 == V4Slots(values, i) && v6 == V6Slots(values, i)
    {
      SlotStep(values, i);
      var value := Get(values, 2 * i + 1);
      if value.None? {
        break;
      }
      var kind := IntAt(values, 2 * i + 2);
      if kind.None? {
        break;
      }
      var bytes := value.value.AsBytes();
      if kind == Some(1) && bytes.Some? && |bytes.value| >= 4 {
        v4 := v4 + [bytes.value[..4]];
      } else if kind == Some(2) && bytes.Some? && |bytes.value| >= 16 {
        v6 := v6 + [bytes.value[..16]];
      }
    }
    servers := DnsServers(v4, v6);
  }
}
