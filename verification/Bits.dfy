/** Bit strings and the numbers they denote, most significant bit first. */
module Bits {
  function Pow2(n: nat): (r: nat)
    ensures r > 0
  {
    if n == 0 then 1 else 2 * Pow2(n - 1)
  }

  function Val(bs: seq<bool>): nat {
    if bs == [] then 0 else 2 * Val(bs[..|bs| - 1]) + if bs[|bs| - 1] then 1 else 0
  }

  function BitsOf(n: nat, v: nat): (bs: seq<bool>)
    ensures |bs| == n
  {
    if n == 0 then [] else BitsOf(n - 1, v / 2) + [v % 2 == 1]
  }

  function Fill(n: nat, b: bool): (bs: seq<bool>)
    ensures |bs| == n && forall i :: 0 <= i < n ==> bs[i] == b
  {
    seq(n, _ => b)
  }

  lemma {:induction false} ValBound(bs: seq<bool>)
    ensures Val(bs) < Pow2(|bs|)
  {
    if bs != [] {
      ValBound(bs[..|bs| - 1]);
    }
  }

  lemma {:induction false} ValOfBits(n: nat, v: nat)
    requires v < Pow2(n)
    ensures Val(BitsOf(n, v)) == v
  {
    if n > 0 {
      ValOfBits(n - 1, v / 2);
      assert BitsOf(n, v)[..n - 1] == BitsOf(n - 1, v / 2);
    }
  }

  lemma {:induction false} BitsOfVal(bs: seq<bool>)
    ensures BitsOf(|bs|, Val(bs)) == bs
  {
    if bs != [] {
      BitsOfVal(bs[..|bs| - 1]);
      assert bs == bs[..|bs| - 1] + [bs[|bs| - 1]];
    }
  }

  lemma {:induction false} ValConcat(a: seq<bool>, b: seq<bool>)
    ensures Val(a + b) == Val(a) * Pow2(|b|) + Val(b)
  {
    if b == [] {
      assert a + b == a;
    } else {
      var b' := b[..|b| - 1];
      assert (a + b)[..|a + b| - 1] == a + b';
      ValConcat(a, b');
      assert Val(a) * Pow2(|b|) == 2 * (Val(a) * Pow2(|b'|));
    }
  }

  lemma {:induction false} ValFill(n: nat)
    ensures Val(Fill(n, true)) == Pow2(n) - 1
    ensures Val(Fill(n, false)) == 0
  {
    if n > 0 {
      ValFill(n - 1);
      assert Fill(n, true)[..n - 1] == Fill(n - 1, true);
      assert Fill(n, false)[..n - 1] == Fill(n - 1, false);
    }
  }

  /** Splitting a bit string splits its number into quotient and remainder. */
  lemma ValSplit(bs: seq<bool>, k: nat)
    requires k <= |bs|
    ensures Val(bs[..k]) == Val(bs) / Pow2(|bs| - k)
    ensures Val(bs[k..]) == Val(bs) % Pow2(|bs| - k)
  {
    var d := Pow2(|bs| - k);
    assert bs == bs[..k] + bs[k..];
    ValConcat(bs[..k], bs[k..]);
    ValBound(bs[k..]);
    DivModUnique(Val(bs), d, Val(bs[..k]), Val(bs[k..]));
  }

  /** Clearing or setting the low bits rounds the number down or up to the ends of its block. */
  lemma ValBlock(bs: seq<bool>, k: nat)
    requires k <= |bs|
    ensures Val(bs[..k] + Fill(|bs| - k, false)) == Val(bs[..k]) * Pow2(|bs| - k)
    ensures Val(bs[..k] + Fill(|bs| - k, true)) == Val(bs[..k]) * Pow2(|bs| - k) + Pow2(|bs| - k) - 1
  {
    ValConcat(bs[..k], Fill(|bs| - k, false));
    ValConcat(bs[..k], Fill(|bs| - k, true));
    ValFill(|bs| - k);
  }

  lemma DivModUnique(v: nat, d: nat, q: nat, r: nat)
    requires d > 0 && v == q * d + r && r < d
    ensures q == v / d && r == v % d
  {
    var p := v / d;
    assert v == d * p + v % d;
    if q > p {
      MulStep(p, q, d);
    } else if q < p {
      MulStep(q, p, d);
    }
  }

  lemma MulStep(x: nat, y: nat, d: nat)
    requires x < y
    ensures x * d + d <= y * d
  {
    assert y * d == x * d + (y - x) * d;
    assert (y - x) * d == d + (y - x - 1) * d;
  }

  /** The bits of a big-endian byte string; bit i is bit 7 - i % 8 of byte i / 8. */
  predicate TestBit(b: bv8, i: nat)
    requires i < 8
  {
    b & (1 << (7 - i)) != 0
  }

  function BytesToBits(bytes: seq<bv8>): (bs: seq<bool>)
    ensures |bs| == 8 * |bytes|
  {
    seq(8 * |bytes|, i requires 0 <= i < 8 * |bytes| => TestBit(bytes[i / 8], i % 8))
  }

  function PackByte(bs: seq<bool>): bv8
    requires |bs| == 8
  {
    (if bs[0] then 128 else 0) | (if bs[1] then 64 else 0) | (if bs[2] then 32 else 0) | (if bs[3] then 16 else 0) |
    (if bs[4] then 8 else 0) | (if bs[5] then 4 else 0) | (if bs[6] then 2 else 0) | (if bs[7] then 1 else 0)
  }

  function PackBytes(bs: seq<bool>): (bytes: seq<bv8>)
    requires |bs| % 8 == 0
    ensures |bytes| == |bs| / 8
  {
    seq(|bs| / 8, i requires 0 <= i < |bs| / 8 => PackByte(bs[8 * i..8 * i + 8]))
  }

  lemma PackByteBit(bs: seq<bool>, i: nat)
    requires |bs| == 8 && i < 8
    ensures TestBit(PackByte(bs), i) == bs[i]
  {
    if i == 0 {
    } else if i == 1 {
    } else if i == 2 {
    } else if i == 3 {
    } else if i == 4 {
    } else if i == 5 {
    } else if i == 6 {
    } else {
      assert i == 7;
    }
  }

  lemma UnpackPacked(bs: seq<bool>)
    requires |bs| % 8 == 0
    ensures BytesToBits(PackBytes(bs)) == bs
  {
    forall i | 0 <= i < |bs| ensures BytesToBits(PackBytes(bs))[i] == bs[i] {
      PackByteBit(bs[8 * (i / 8)..8 * (i / 8) + 8], i % 8);
    }
  }

  /** Or-ing one shifted bit into a byte sets that bit and no other. */
  lemma SetOneBit(b: bv8, j: nat, i: nat)
    requires i < 8 && j < 8
    ensures TestBit(b | (1 << (7 - j)), i) == (i == j || TestBit(b, i))
  {
    hide TestBit;
    SetOneBitAt(b, 1 << (7 - j), i);
    SingleBit(j, i);
  }

  lemma SingleBit(j: nat, i: nat)
    requires i < 8 && j < 8
    ensures TestBit(1 << (7 - j), i) == (i == j)
  {
    if i == 0 {
    } else if i == 1 {
    } else if i == 2 {
    } else if i == 3 {
    } else if i == 4 {
    } else if i == 5 {
    } else if i == 6 {
    } else {
      assert i == 7;
    }
  }

  lemma SetOneBitAt(b: bv8, m: bv8, i: nat)
    requires i < 8
    ensures TestBit(b | m, i) == (TestBit(m, i) || TestBit(b, i))
  {
    if i == 0 {
    } else if i == 1 {
    } else if i == 2 {
    } else if i == 3 {
    } else if i == 4 {
    } else if i == 5 {
    } else if i == 6 {
    } else {
      assert i == 7;
    }
  }
}
