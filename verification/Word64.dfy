/** The C operators &, |, ~ and >> on unsigned words, and what the masks of this program compute. */
module Word64 {

  const TWO_64: nat := 0x1_0000_0000_0000_0000

  type Word = x: nat | x < 0x1_0000_0000_0000_0000

  function Pow2(k: nat): (r: nat)
    ensures r > 0
  {
    if k == 0 then 1 else 2 * Pow2(k - 1)
  }

  function Shr(x: nat, k: nat): nat {
    if k == 0 then x else Shr(x / 2, k - 1)
  }

  function And(x: nat, y: nat): nat
    decreases x
  {
    if x == 0 || y == 0 then 0
    else 2 * And(x / 2, y / 2) + (if x % 2 == 1 && y % 2 == 1 then 1 else 0)
  }

  function Or(x: nat, y: nat): nat
    decreases x + y
  {
    if x == 0 && y == 0 then 0
    else 2 * Or(x / 2, y / 2) + (if x % 2 == 1 || y % 2 == 1 then 1 else 0)
  }

  /** The 64-bit complement. */
  function Not(x: Word): Word {
    TWO_64 - 1 - x
  }

  lemma {:induction false} MultipleIsLarge(a: nat, d: nat)
    requires a > 0
    ensures a * d >= d
  {
    assert a * d == (a - 1) * d + d;
  }

  lemma {:induction false} DivModUnique(x: nat, d: nat, q: nat, r: nat)
    requires 0 <= r < d && x == q * d + r
    ensures x / d == q && x % d == r
  {
    var q', r' := x / d, x % d;
    assert x == q' * d + r' && 0 <= r' < d;
    if q' > q {
      assert (q' - q) * d == q' * d - q * d;
      MultipleIsLarge(q' - q, d);
    } else if q' < q {
      assert (q - q') * d == q * d - q' * d;
      MultipleIsLarge(q - q', d);
    }
  }

  /** Division by 2p in two steps. */
  lemma {:induction false} Halve(x: nat, p: nat)
    requires p > 0
    ensures x / (2 * p) == (x / 2) / p
    ensures x % (2 * p) == 2 * ((x / 2) % p) + x % 2
  {
    var q, r := (x / 2) / p, (x / 2) % p;
    assert x / 2 == q * p + r;
    assert q * (2 * p) == 2 * (q * p);
    DivModUnique(x, 2 * p, q, 2 * r + x % 2);
  }

  lemma {:induction false} ShrIsDivision(x: nat, k: nat)
    ensures Shr(x, k) == x / Pow2(k)
  {
    if k > 0 {
      ShrIsDivision(x / 2, k - 1);
      Halve(x, Pow2(k - 1));
    }
  }

  /** Masking with 2^k - 1 is the remainder. */
  lemma {:induction false} AndLowMask(x: nat, k: nat)
    ensures And(x, Pow2(k) - 1) == x % Pow2(k)
  {
    if k == 0 {
      assert x % 1 == 0;
    } else if x == 0 {
      DivModUnique(0, Pow2(k), 0, 0);
    } else {
      AndLowMask(x / 2, k - 1);
      var y, z := Pow2(k) - 1, Pow2(k - 1) - 1;
      assert y / 2 == z && y % 2 == 1;
      assert And(x, y) == 2 * And(x / 2, z) + x % 2;
      Halve(x, Pow2(k - 1));
    }
  }

  /** A mask and its complement split a k-bit number. */
  lemma {:induction false} AndComplement(x: nat, y: nat, k: nat)
    requires x < Pow2(k) && y < Pow2(k)
    ensures And(x, Pow2(k) - 1 - y) == x - And(x, y)
  {
    if k > 0 {
      AndComplement(x / 2, y / 2, k - 1);
      var z := Pow2(k) - 1 - y;
      assert z / 2 == Pow2(k - 1) - 1 - y / 2;
      assert z % 2 == 1 - y % 2;
    }
  }

  /** OR of numbers with no common bit is their sum, for a multiple of 2^k and a k-bit number. */
  lemma {:induction false} OrDisjoint(x: nat, y: nat, k: nat)
    requires x % Pow2(k) == 0 && y < Pow2(k)
    ensures Or(x, y) == x + y
    decreases k, x
  {
    if k == 0 {
      if x > 0 {
        assert x / 2 % 1 == 0;
        OrDisjoint(x / 2, 0, 0);
      }
    } else {
      Halve(x, Pow2(k - 1));
      OrDisjoint(x / 2, y / 2, k - 1);
    }
  }

  lemma {:induction false} OrAssociative(x: nat, y: nat, z: nat)
    ensures Or(Or(x, y), z) == Or(x, Or(y, z))
    decreases x + y + z
  {
    if x + y + z > 0 {
      var a, b := Or(x, y), Or(y, z);
      assert a / 2 == Or(x / 2, y / 2) && b / 2 == Or(y / 2, z / 2);
      OrAssociative(x / 2, y / 2, z / 2);
    }
  }

  /** OR with 2^k - 1 sets the last k bits. */
  lemma {:induction false} OrLowMask(x: nat, k: nat)
    ensures Or(x, Pow2(k) - 1) == x - x % Pow2(k) + Pow2(k) - 1
  {
    if k == 0 {
      assert x % 1 == 0;
      OrDisjoint(x, 0, 0);
    } else {
      var y, z := Pow2(k) - 1, Pow2(k - 1) - 1;
      assert y / 2 == z && y % 2 == 1;
      OrLowMask(x / 2, k - 1);
      assert Or(x, y) == 2 * Or(x / 2, z) + 1;
      Halve(x, Pow2(k - 1));
    }
  }

  /** Setting the bits 1, 4 and 2 in turn sets the last three bits, whatever they held. */
  lemma {:induction false} FlagBits(x: nat)
    ensures Or(Or(Or(x, 1), 4), 2) == x - x % 8 + 7
  {
    OrAssociative(x, 1, 4);
    OrAssociative(x, 5, 2);
    assert Or(1, 4) == 5 && Or(5, 2) == 7;
    PageConstants();
    OrLowMask(x, 3);
  }

  lemma {:induction false} PowerSum(a: nat, b: nat)
    ensures Pow2(a + b) == Pow2(a) * Pow2(b)
  {
    if b > 0 {
      PowerSum(a, b - 1);
    }
  }

  lemma {:induction false} PageConstants()
    ensures Pow2(1) == 2 && Pow2(3) == 8 && Pow2(9) == 0x200 && Pow2(12) == 0x1000
  {
  }

  /** One table level further up: nine more bits. */
  lemma {:induction false} NextLevel(k: nat)
    ensures Pow2(k + 9) == 0x200 * Pow2(k)
  {
    PageConstants();
    PowerSum(k, 9);
  }

  lemma {:induction false} LevelConstants()
    ensures Pow2(21) == 0x20_0000 && Pow2(30) == 0x4000_0000 && Pow2(39) == 0x80_0000_0000
  {
    PageConstants();
    NextLevel(12);
    NextLevel(21);
    NextLevel(30);
  }

  lemma {:induction false} WordConstant()
    ensures Pow2(64) == TWO_64
  {
    LevelConstants();
    NextLevel(39);
    NextLevel(48);
    PowerSum(57, 7);
  }

  lemma {:induction false} MaskConstants()
    ensures Pow2(1) == 2 && Pow2(3) == 8 && Pow2(9) == 0x200 && Pow2(12) == 0x1000
    ensures Pow2(21) == 0x20_0000 && Pow2(30) == 0x4000_0000 && Pow2(39) == 0x80_0000_0000
    ensures Pow2(64) == TWO_64
  {
    PageConstants();
    LevelConstants();
    WordConstant();
  }
}
