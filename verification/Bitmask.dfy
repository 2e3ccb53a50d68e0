/** Chunk masks: the unsigned words in which the protocols note which chunks have arrived. */
module Bitmask {

  /** `mask & (1 << i)` */
  predicate Bit(mask: nat, i: nat) {
    if i == 0 then mask % 2 == 1 else Bit(mask / 2, i - 1)
  }

  /** `mask | (1 << i)` */
  function SetBit(mask: nat, i: nat): nat {
    if i == 0 then mask / 2 * 2 + 1 else SetBit(mask / 2, i - 1) * 2 + mask % 2
  }

  /** `(1 << n) - 1`, which for n == 32 is the largest 32-bit word. */
  function AllOnes(n: nat): nat {
    if n == 0 then 0 else AllOnes(n - 1) * 2 + 1
  }

  /** `a ^ b` */
  function Xor(a: nat, b: nat): nat {
    if a == 0 && b == 0 then 0 else (a + b) % 2 + 2 * Xor(a / 2, b / 2)
  }

  lemma {:induction false} BitOfXor(a: nat, b: nat, i: nat)
    ensures Bit(Xor(a, b), i) <==> Bit(a, i) != Bit(b, i)
    decreases i
  {
    hide Xor;
    XorHalves(a, b);
    if i == 0 {
      OddSum(a, b);
    } else {
      BitOfXor(a / 2, b / 2, i - 1);
    }
  }

  lemma OddSum(a: nat, b: nat)
    ensures (a + b) % 2 == 1 <==> (a % 2 == 1) != (b % 2 == 1)
  {
  }

  lemma {:induction false} XorStaysBelow(a: nat, b: nat, bits: nat)
    requires a <= AllOnes(bits) && b <= AllOnes(bits)
    ensures Xor(a, b) <= AllOnes(bits)
  {
    if bits > 0 {
      XorStaysBelow(a / 2, b / 2, bits - 1);
    }
  }

  lemma {:induction false} XorIsInjective(a: nat, b: nat, c: nat)
    requires Xor(a, b) == Xor(a, c)
    ensures b == c
    decreases a + b + c
  {
    hide Xor;
    if a + b + c > 0 {
      XorHalves(a, b);
      XorHalves(a, c);
      Halves(a + b + c, a / 2 + b / 2 + c / 2, a, b, c);
      XorIsInjective(a / 2, b / 2, c / 2);
      SameHalves(a, b, c);
    }
  }

  lemma Halves(sum: nat, halves: nat, a: nat, b: nat, c: nat)
    requires sum == a + b + c > 0 && halves == a / 2 + b / 2 + c / 2
    ensures halves < sum
  {
    assert a / 2 <= a && b / 2 <= b && c / 2 <= c;
    assert a > 0 ==> a / 2 < a;
    assert b > 0 ==> b / 2 < b;
    assert c > 0 ==> c / 2 < c;
  }

  lemma SameHalves(a: nat, b: nat, c: nat)
    requires (a + b) % 2 == (a + c) % 2 && b / 2 == c / 2
    ensures b == c
  {
    assert b % 2 == c % 2;
  }

  lemma XorHalves(a: nat, b: nat)
    ensures Xor(a, b) / 2 == Xor(a / 2, b / 2) && Xor(a, b) % 2 == (a + b) % 2
  {
  }

  lemma {:induction false} BitAfterSet(mask: nat, i: nat, j: nat)
    ensures Bit(SetBit(mask, i), j) <==> i == j || Bit(mask, j)
  {
    if i > 0 && j > 0 {
      BitAfterSet(mask / 2, i - 1, j - 1);
    }
  }

  lemma {:induction false} ZeroHasNoBits(j: nat)
    ensures !Bit(0, j)
  {
    if j > 0 {
      ZeroHasNoBits(j - 1);
    }
  }

  lemma {:induction false} NonzeroHasABit(mask: nat) returns (j: nat)
    requires mask > 0
    ensures Bit(mask, j)
  {
    if mask % 2 == 1 {
      j := 0;
    } else {
      j := NonzeroHasABit(mask / 2);
      j := j + 1;
    }
  }

  ghost predicate HasAllBelow(mask: nat, n: nat) {
    forall j: nat :: j < n ==> Bit(mask, j)
  }

  ghost predicate HasNoneFrom(mask: nat, n: nat) {
    forall j: nat :: j >= n ==> !Bit(mask, j)
  }

  /** Both statements are about the bits of mask / 2, one place down. */
  lemma Halved(mask: nat, n: nat)
    requires n > 0
    ensures HasNoneFrom(mask, n) ==> HasNoneFrom(mask / 2, n - 1)
    ensures HasAllBelow(mask, n) <==> mask % 2 == 1 && HasAllBelow(mask / 2, n - 1)
  {
    forall j: nat
      ensures Bit(mask / 2, j) == Bit(mask, j + 1)
    {
    }
    forall j: nat | j > 0
      ensures Bit(mask, j) == Bit(mask / 2, j - 1)
    {
    }
    assert Bit(mask, 0) <==> mask % 2 == 1;
  }

  /** A mask without bits from n on is full exactly when it has every bit below n,
      and it never exceeds the full one. */
  lemma {:induction false} FullExactlyWhenEveryBit(mask: nat, n: nat)
    requires HasNoneFrom(mask, n)
    ensures mask <= AllOnes(n)
    ensures mask == AllOnes(n) <==> HasAllBelow(mask, n)
  {
    if n == 0 {
      if mask > 0 {
        var j := NonzeroHasABit(mask);
      }
    } else {
      Halved(mask, n);
      FullExactlyWhenEveryBit(mask / 2, n - 1);
    }
  }

  lemma ThirtyTwoOnes()
    ensures AllOnes(32) == 0xFFFF_FFFF
  {
    assert AllOnes(8) == 0xFF;
    assert AllOnes(16) == 0xFFFF;
    assert AllOnes(24) == 0xFF_FFFF;
  }
}
