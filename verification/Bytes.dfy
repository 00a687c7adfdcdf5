/** Bytes, their bits, and the little arithmetic the drivers do on them.  A byte is a number below 256;
    bit lists run least significant bit first, as the C2 wire carries them. */
module Bytes {

  type byte = x: int | 0 <= x < 256

  datatype Option<+T> = None | Some(value: T)

  function Pow2(n: nat): (r: nat)
    ensures r > 0
  {
    if n == 0 then 1 else 2 * Pow2(n - 1)
  }

  function BitValue(b: bool): nat {
    if b then 1 else 0
  }

  /** The n lowest bits of v, lowest first. */
  function Bits(v: nat, n: nat): (s: seq<bool>)
    ensures |s| == n
  {
    if n == 0 then [] else [v % 2 == 1] + Bits(v / 2, n - 1)
  }

  /** The number a bit list denotes, lowest bit first. */
  function Value(s: seq<bool>): nat {
    if s == [] then 0 else BitValue(s[0]) + 2 * Value(s[1..])
  }

  /** Number and bit list are the same information. */
  lemma {:induction false} ValueOfBits(v: nat, n: nat)
    requires v < Pow2(n)
    ensures Value(Bits(v, n)) == v
  {
    if n > 0 {
      ValueOfBits(v / 2, n - 1);
    }
  }

  lemma {:induction false} ValueBound(s: seq<bool>)
    ensures Value(s) < Pow2(|s|)
  {
    if s != [] {
      ValueBound(s[1..]);
    }
  }

  lemma {:induction false} ValueSnoc(s: seq<bool>, b: bool)
    ensures Value(s + [b]) == Value(s) + Pow2(|s|) * BitValue(b)
  {
    if s == [] {
      assert s + [b] == [b];
    } else {
      assert (s + [b])[1..] == s[1..] + [b];
      ValueSnoc(s[1..], b);
    }
  }

  lemma Pow2Values()
    ensures Pow2(7) == 128 && Pow2(8) == 256
  {
    assert Pow2(2) == 4;
    assert Pow2(4) == 16;
    assert Pow2(6) == 64;
  }

  lemma ByteOfBits(v: byte)
    ensures Value(Bits(v, 8)) == v
  {
    Pow2Values();
    ValueOfBits(v, 8);
  }

  lemma ByteBound(s: seq<bool>)
    requires |s| <= 8
    ensures Value(s) < 256
  {
    Pow2Values();
    ValueBound(s);
    Pow2Mono(|s|, 8);
  }

  lemma {:induction false} Pow2Mono(m: nat, n: nat)
    requires m <= n
    ensures Pow2(m) <= Pow2(n)
    decreases n - m
  {
    if m < n {
      Pow2Mono(m + 1, n);
    }
  }

  lemma BitsHead(v: nat, n: nat)
    requires n > 0
    ensures Bits(v, n) == [v % 2 == 1] + Bits(v / 2, n - 1)
  {
  }

  /** n zero bits. */
  function Zeros(n: nat): (s: seq<bool>)
    ensures |s| == n && forall i | 0 <= i < n :: !s[i]
    ensures Value(s) == 0
  {
    if n == 0 then [] else [false] + Zeros(n - 1)
  }

  /** Bitwise AND. */
  function And(a: nat, b: nat): nat {
    if a == 0 || b == 0 then 0
    else BitValue(a % 2 == 1 && b % 2 == 1) + 2 * And(a / 2, b / 2)
  }

  lemma {:induction false} AndBound(a: nat, b: nat)
    ensures And(a, b) <= a && And(a, b) <= b
  {
    if a != 0 && b != 0 {
      AndBound(a / 2, b / 2);
    }
  }

  /** A bit is set in the conjunction exactly if it is set in both. */
  lemma {:induction false} AndBitAt(a: nat, b: nat, n: nat, k: nat)
    requires k < n
    ensures Bits(And(a, b), n)[k] <==> Bits(a, n)[k] && Bits(b, n)[k]
  {
    if a == 0 || b == 0 {
      BitsZero(n, k);
    } else {
      AndHalf(a, b);
      if k > 0 {
        AndBitAt(a / 2, b / 2, n - 1, k - 1);
      }
    }
  }

  lemma AndHalf(a: nat, b: nat)
    requires a > 0 && b > 0
    ensures And(a, b) / 2 == And(a / 2, b / 2) && (And(a, b) % 2 == 1 <==> a % 2 == 1 && b % 2 == 1)
  {
  }

  lemma {:induction false} BitsZero(n: nat, k: nat)
    requires k < n
    ensures !Bits(0, n)[k]
  {
    if k > 0 {
      BitsZero(n - 1, k - 1);
    }
  }

  lemma {:induction false} AndOnes(n: nat, b: nat)
    requires b < Pow2(n)
    ensures And(Pow2(n) - 1, b) == b
  {
    if n > 0 && b > 0 {
      assert (Pow2(n) - 1) % 2 == 1 && (Pow2(n) - 1) / 2 == Pow2(n - 1) - 1;
      AndOnes(n - 1, b / 2);
    }
  }

  /** Programming an erased byte stores the data. */
  lemma AndErased(b: byte)
    ensures And(0xFF, b) == b
  {
    Pow2Values();
    AndOnes(8, b);
  }
}
