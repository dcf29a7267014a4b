/** Bytes, 32-bit words and the base-256 numerals the firmware protocol is built from. */
module ByteSeqs {

  type byte = x: int | 0 <= x < 256

  const TWO_TO_THE_32 := 0x1_0000_0000

  type u32 = x: int | 0 <= x < TWO_TO_THE_32

  /** Big-endian bytes of a 32-bit word. */
  function Be32(v: u32): (b: seq<byte>)
    ensures |b| == 4
  {
    [v / 0x100_0000, v / 0x1_0000 % 256, v / 0x100 % 256, v % 256]
  }

  /** Little-endian bytes of a 32-bit word. */
  function Le32(v: u32): (b: seq<byte>)
    ensures |b| == 4
  {
    [v % 256, v / 0x100 % 256, v / 0x1_0000 % 256, v / 0x100_0000]
  }

  /** The number a byte string denotes, most significant byte first. */
  function FromBe(s: seq<byte>): nat {
    if s == [] then 0 else FromBe(s[..|s| - 1]) * 256 + s[|s| - 1]
  }

  /** The number a byte string denotes, least significant byte first. */
  function FromLe(s: seq<byte>): nat {
    if s == [] then 0 else s[0] + 256 * FromLe(s[1..])
  }

  /** 256 to the power `n`. */
  function Pow256(n: nat): (p: nat)
    ensures p > 0
  {
    if n == 0 then 1 else 256 * Pow256(n - 1)
  }

  function Zeros(n: nat): (s: seq<byte>)
    ensures |s| == n
  {
    seq(n, _ => 0)
  }

  function Reverse<T>(s: seq<T>): (r: seq<T>)
    ensures |r| == |s|
  {
    if s == [] then [] else Reverse(s[1..]) + [s[0]]
  }

  /** Minimal base-256 numeral of `n`, least significant digit first; empty for zero. */
  function Digits(n: nat): (d: seq<byte>)
    ensures FromLe(d) == n
  {
    if n == 0 then [] else [n % 256] + Digits(n / 256)
  }

  /** The number whose base-256 numeral is that of `n` read backwards. */
  function Mirror(n: nat): nat {
    FromLe(Reverse(Digits(n)))
  }

  /** The base-256 numeral of `n` reads the same both ways. */
  predicate Palindromic(n: nat) {
    Reverse(Digits(n)) == Digits(n)
  }

  lemma {:induction false} FromBeBound(s: seq<byte>)
    ensures FromBe(s) < Pow256(|s|)
  {
    if s != [] {
      FromBeBound(s[..|s| - 1]);
    }
  }

  lemma {:induction false} Pow256Values()
    ensures Pow256(0) == 1 && Pow256(1) == 0x100 && Pow256(2) == 0x1_0000
    ensures Pow256(3) == 0x100_0000 && Pow256(4) == TWO_TO_THE_32
  {
    assert Pow256(1) == 256 * Pow256(0);
    assert Pow256(2) == 256 * Pow256(1);
    assert Pow256(3) == 256 * Pow256(2);
    assert Pow256(4) == 256 * Pow256(3);
  }

  lemma {:induction false} Pow256Monotone(m: nat, n: nat)
    requires m <= n
    ensures Pow256(m) <= Pow256(n)
    decreases n
  {
    if m < n {
      Pow256Monotone(m, n - 1);
    }
  }

  /** Four bytes or fewer always fit a 32-bit word. */
  lemma {:induction false} FromBeFits(s: seq<byte>)
    requires |s| <= 4
    ensures FromBe(s) < TWO_TO_THE_32
  {
    FromBeBound(s);
    Pow256Values();
    Pow256Monotone(|s|, 4);
  }

  lemma {:induction false} FromBeFour(b0: byte, b1: byte, b2: byte, b3: byte)
    ensures FromBe([b3]) == b3
    ensures FromBe([b2, b3]) == 256 * b2 as int + b3
    ensures FromBe([b0, b1, b2, b3]) == 0x100_0000 * b0 as int + 0x1_0000 * b1 as int + 256 * b2 as int + b3
  {
    assert [b0, b1, b2, b3][..3] == [b0, b1, b2] && [b0, b1, b2][..2] == [b0, b1] && [b0, b1][..1] == [b0];
    assert [b2, b3][..1] == [b2];
    assert forall b: byte :: [b][..0] == [];
    assert FromBe([b0]) == b0 && FromBe([b2]) == b2 && FromBe([b3]) == b3;
    assert FromBe([b0, b1]) == FromBe([b0]) * 256 + b1;
    assert FromBe([b0, b1, b2]) == FromBe([b0, b1]) * 256 + b2;
  }

  lemma {:induction false} FromLeFour(b0: byte, b1: byte, b2: byte, b3: byte)
    ensures FromLe([b0, b1, b2, b3]) == b0 + 256 * b1 as int + 0x1_0000 * b2 as int + 0x100_0000 * b3 as int
  {
    assert [b0, b1, b2, b3][1..] == [b1, b2, b3] && [b1, b2, b3][1..] == [b2, b3] && [b2, b3][1..] == [b3];
    assert [b3][1..] == [];
    assert FromLe([b3]) == b3;
    assert FromLe([b2, b3]) == b2 + 256 * FromLe([b3]);
    assert FromLe([b1, b2, b3]) == b1 + 256 * FromLe([b2, b3]);
  }

  lemma {:induction false} BytesOfWord(v: u32)
    ensures 0x100_0000 * (v / 0x100_0000) + 0x1_0000 * (v / 0x1_0000 % 256) + 256 * (v / 0x100 % 256) + v % 256 == v
    ensures 256 * (v / 0x100 % 256) + v % 256 == v % 0x1_0000
  {
  }

  lemma {:induction false} FromBeOfBe32(v: u32)
    ensures FromBe(Be32(v)) == v
    ensures FromBe(Be32(v)[2..]) == v % 0x1_0000
    ensures FromBe(Be32(v)[3..]) == v % 0x100
  {
    var b := Be32(v);
    FromBeFour(b[0], b[1], b[2], b[3]);
    BytesOfWord(v);
    assert b[2..] == [b[2], b[3]] && b[3..] == [b[3]];
  }

  lemma {:induction false} FromLeOfLe32(v: u32)
    ensures FromLe(Le32(v)) == v
  {
    var b := Le32(v);
    FromLeFour(b[0], b[1], b[2], b[3]);
    BytesOfWord(v);
  }

  lemma {:induction false} FromLeSnoc(s: seq<byte>, b: byte)
    ensures FromLe(s + [b]) == FromLe(s) + b * Pow256(|s|)
  {
    if s == [] {
      assert ([b])[1..] == [];
      assert s + [b] == [b];
    } else {
      assert (s + [b])[1..] == s[1..] + [b];
      FromLeSnoc(s[1..], b);
      calc {
        FromLe(s + [b]);
        s[0] + 256 * (FromLe(s[1..]) + b * Pow256(|s| - 1));
        s[0] + 256 * FromLe(s[1..]) + b * (256 * Pow256(|s| - 1));
        FromLe(s) + b * Pow256(|s|);
      }
    }
  }

  /** Numerals of the same length denote the same number only when they are equal. */
  lemma {:induction false} FromLeInjective(a: seq<byte>, b: seq<byte>)
    requires |a| == |b| && FromLe(a) == FromLe(b)
    ensures a == b
  {
    if a != [] {
      assert a[0] == FromLe(a) % 256 && b[0] == FromLe(b) % 256;
      FromLeInjective(a[1..], b[1..]);
      assert a == [a[0]] + a[1..] && b == [b[0]] + b[1..];
    }
  }

  /** Reading a numeral backwards keeps its value exactly when the numeral is a palindrome. */
  lemma {:induction false} MirrorFixedIffPalindromic(n: nat)
    ensures Mirror(n) == n <==> Palindromic(n)
  {
    if Mirror(n) == n {
      FromLeInjective(Reverse(Digits(n)), Digits(n));
    }
  }

  lemma {:induction false} DigitCount(n: nat, k: nat)
    requires n < Pow256(k)
    ensures |Digits(n)| <= k
    decreases k
  {
    if n != 0 {
      DigitCount(n / 256, k - 1);
    }
  }

  /** Every number below 256 is palindromic, and so is 257, whose numeral is 01 01. */
  lemma {:induction false} SmallPalindromes(n: nat)
    requires n < 256 || n == 257
    ensures Palindromic(n)
  {
    if 0 < n < 256 {
      assert Digits(n) == [n] + Digits(0) == [n];
      assert Reverse([n]) == Reverse([]) + [n];
    } else if n == 257 {
      assert Digits(1) == [1] + Digits(0) == [1];
      assert Digits(257) == [1] + Digits(1) == [1, 1];
      assert [1, 1][1..] == [1];
      assert Reverse([1]) == Reverse([]) + [1];
      assert Reverse([1, 1]) == Reverse([1]) + [1];
    }
  }

  lemma {:induction false} CancelFront<T>(front: seq<T>, a: seq<T>, b: seq<T>)
    requires front + a == front + b
    ensures a == b
  {
    assert (front + a)[|front|..] == a;
    assert (front + b)[|front|..] == b;
  }

  lemma {:induction false} CancelBack<T>(a: seq<T>, b: seq<T>, back: seq<T>)
    requires a + back == b + back
    ensures a == b
  {
    assert |a| == |b|;
    assert (a + back)[..|a|] == a;
    assert (b + back)[..|b|] == b;
  }

  lemma {:induction false} Associate<T>(a: seq<T>, b: seq<T>, c: seq<T>)
    ensures a + (b + c) == a + b + c
  {
  }
}
