/** The bit operations of cw_align_ptr on 64-bit words, and what they compute. */
module MachineWords {
  import opened PoolModel

  /** The low n bits of x & y. */
  function And(x: nat, y: nat, n: nat): nat {
    if n == 0 then 0 else 2 * And(x / 2, y / 2, n - 1) + if x % 2 == 1 && y % 2 == 1 then 1 else 0
  }

  /** The low n bits of ~x. */
  function Not(x: nat, n: nat): nat {
    if n == 0 then 0 else 2 * Not(x / 2, n - 1) + if x % 2 == 1 then 0 else 1
  }

  function Power2(n: nat): nat {
    if n == 0 then 1 else 2 * Power2(n - 1)
  }

  /** cw_align_ptr as it is written: the sum wraps, then the mask clears the low bits. */
  function AlignMask(p: nat, a: nat): nat
    requires a >= 1
  {
    And((p + (a - 1)) % TOP, Not(a - 1, 64), 64)
  }

  lemma {:induction false} AndOnes(x: nat, n: nat)
    requires x < Power2(n)
    ensures And(x, Not(0, n), n) == x
    decreases n
  {
    if n > 0 {
      AndOnes(x / 2, n - 1);
      assert Not(0, n) / 2 == Not(0, n - 1);
    }
  }

  /** One more low bit in the mask clears one more low bit of the word. */
  lemma ClearBit(x: nat, y: nat, n: nat)
    requires n > 0 && x < Power2(n)
    ensures And(x, Not(2 * y + 1, n), n) == 2 * And(x / 2, Not(y, n - 1), n - 1)
    ensures x / 2 < Power2(n - 1)
  {
    var z := 2 * y + 1;
    assert Not(z, n) / 2 == Not(y, n - 1) && Not(z, n) % 2 == 0;
  }

  lemma WordIsPower()
    ensures Power2(64) == TOP
  {
    assert Power2(4) == 0x10;
    assert Power2(8) == 0x100;
    assert Power2(12) == 0x1000;
    assert Power2(16) == 0x1_0000;
    assert Power2(20) == 0x10_0000;
    assert Power2(24) == 0x100_0000;
    assert Power2(28) == 0x1000_0000;
    assert Power2(32) == 0x1_0000_0000;
    assert Power2(36) == 0x10_0000_0000;
    assert Power2(40) == 0x100_0000_0000;
    assert Power2(44) == 0x1000_0000_0000;
    assert Power2(48) == 0x1_0000_0000_0000;
    assert Power2(52) == 0x10_0000_0000_0000;
    assert Power2(56) == 0x100_0000_0000_0000;
    assert Power2(60) == 0x1000_0000_0000_0000;
  }

  /** The mask is the rounding of the model, as a word: where the sum wraps, both are 0. */
  lemma MaskIsAlignPtr(p: nat, a: nat)
    requires IsAlignment(a) && p < TOP
    ensures AlignMask(p, a) == AlignPtr(p, a)
  {
    hide And, Not, Power2, AlignPtr;
    WordIsPower();
    var x := (p + (a - 1)) % TOP;
    ClearLow(x, a);
    Multiples(x);
    RoundedWord(p, a);
  }

  lemma RoundedWord(p: nat, a: nat)
    requires IsAlignment(a) && p < TOP
    ensures var x := (p + (a - 1)) % TOP; AlignPtr(p, a) == if a == 16 then 16 * (x / 16) else 8 * (x / 8)
  {
    var sum := p + (a - 1);
    if sum < TOP {
      assert sum % TOP == sum;
      assert 0 <= AlignUp(p, a) < TOP;
    } else {
      assert sum % TOP == sum - TOP && 0 <= sum - TOP < a;
      assert AlignUp(p, a) == TOP;
    }
  }

  /** The mask a - 1 clears three or four bits. */
  lemma ClearLow(x: nat, a: nat)
    requires IsAlignment(a) && x < Power2(64)
    ensures And(x, Not(a - 1, 64), 64) == if a == 16 then 16 * (x / 2 / 2 / 2 / 2) else 8 * (x / 2 / 2 / 2)
  {
    hide And, Not, Power2;
    var k := if a == 16 then 7 else 3;
    ClearBit(x, k, 64);
    ClearBit(x / 2, k / 2, 63);
    ClearBit(x / 2 / 2, k / 4, 62);
    if a == 16 {
      ClearBit(x / 2 / 2 / 2, 0, 61);
      AndOnes(x / 2 / 2 / 2 / 2, 60);
    } else {
      AndOnes(x / 2 / 2 / 2, 61);
    }
  }

  lemma Multiples(x: nat)
    ensures x / 2 / 2 / 2 == x / 8 && x / 2 / 2 / 2 / 2 == x / 16
  {
  }
}
