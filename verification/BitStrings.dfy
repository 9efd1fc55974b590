/** Sequences of bits, most significant bit first, and the bit operations of the stream code. */
module BitStrings {

  type Byte = x: int | 0 <= x < 256

  type Bits = seq<bool>

  function Pow2(n: nat): (r: nat)
    ensures r > 0
  {
    if n == 0 then 1 else 2 * Pow2(n - 1)
  }

  // The n lowest bits of v.
  function BitsOf(v: nat, n: nat): (b: Bits)
    ensures |b| == n
  {
    if n == 0 then [] else BitsOf(v / 2, n - 1) + [v % 2 == 1]
  }

  function ValueOf(b: Bits): (v: nat)
    ensures v < Pow2(|b|)
  {
    if b == [] then 0 else 2 * ValueOf(b[..|b| - 1]) + if b[|b| - 1] then 1 else 0
  }

  function Zeros(n: nat): (b: Bits)
    ensures |b| == n
    ensures forall i :: 0 <= i < n ==> !b[i]
  {
    seq(n, _ => false)
  }

  // a | b
  function Or(a: nat, b: nat): nat {
    if a == 0 && b == 0 then 0
    else 2 * Or(a / 2, b / 2) + if a % 2 == 1 || b % 2 == 1 then 1 else 0
  }

  // v & mask != 0, for a mask with a single bit
  predicate HasBit(v: nat, mask: nat)
    requires mask > 0
  {
    v / mask % 2 == 1
  }

  lemma {:induction false} ValueOfBitsOf(v: nat, n: nat)
    requires v < Pow2(n)
    ensures ValueOf(BitsOf(v, n)) == v
  {
    if n > 0 {
      ValueOfBitsOf(v / 2, n - 1);
      assert BitsOf(v, n)[..n - 1] == BitsOf(v / 2, n - 1);
    }
  }

  lemma {:induction false} BitsOfValueOf(b: Bits)
    ensures BitsOf(ValueOf(b), |b|) == b
  {
    if b != [] {
      BitsOfValueOf(b[..|b| - 1]);
      assert b == b[..|b| - 1] + [b[|b| - 1]];
    }
  }

  lemma DivideTwice(v: nat, m: nat)
    requires m > 0
    ensures v / 2 / m == v / (2 * m)
  {
    var q, r := v / 2 / m, v / 2 % m;
    assert v / 2 == m * q + r;
    assert v == (2 * m) * q + (2 * r + v % 2);
    DivideUnique(v, 2 * m, q, 2 * r + v % 2);
  }

  lemma DivideUnique(v: nat, m: nat, q: nat, r: nat)
    requires m > 0 && v == m * q + r && r < m
    ensures v / m == q && v % m == r
  {
    var q', r' := v / m, v % m;
    assert m * (q' - q) == r - r';
    if q' != q {
      MultipleIsLarge(m, q' - q);
      assert false;
    }
  }

  lemma {:induction false} MultipleIsLarge(m: int, k: int)
    requires m >= 0 && k != 0
    ensures k > 0 ==> m * k >= m
    ensures k < 0 ==> m * k <= -m
    decreases if k > 0 then k else -k
  {
    if k > 1 {
      MultipleIsLarge(m, k - 1);
    } else if k < -1 {
      MultipleIsLarge(m, k + 1);
    }
  }

  // Bit i from the front is the one selected by the mask shifted i + 1 times to the right.
  lemma {:induction false} BitAt(v: nat, n: nat, i: nat)
    requires i < n
    ensures BitsOf(v, n)[i] == HasBit(v, Pow2(n - 1 - i))
  {
    if i < n - 1 {
      BitAt(v / 2, n - 1, i);
      DivideTwice(v, Pow2(n - 2 - i));
    }
  }

  // Where a only has bits below k and b none of them, a | b is a + b.
  lemma {:induction false} OrDisjoint(a: nat, b: nat, k: nat)
    requires a < Pow2(k) && b % Pow2(k) == 0
    ensures Or(a, b) == a + b
  {
    if a == 0 && b == 0 {
    } else if k > 0 {
      var m := Pow2(k - 1);
      var q := b / Pow2(k);
      assert b == (2 * m) * q;
      assert b / 2 == m * q && b % 2 == 0;
      DivideUnique(b / 2, m, q, 0);
      OrDisjoint(a / 2, b / 2, k - 1);
    } else {
      OrWithZero(b);
    }
  }

  lemma {:induction false} OrWithZero(b: nat)
    ensures Or(0, b) == b
  {
    if b > 0 {
      OrWithZero(b / 2);
    }
  }

  lemma OrCommutes(a: nat, b: nat)
    ensures Or(a, b) == Or(b, a)
  {
  }

  lemma Pow2Adds(a: nat, b: nat)
    ensures Pow2(a + b) == Pow2(a) * Pow2(b)
  {
    if a > 0 {
      Pow2Adds(a - 1, b);
    }
  }

  lemma Multiple(q: nat, m: nat)
    requires m > 0
    ensures q * m % m == 0
  {
    DivideUnique(q * m, m, q, 0);
  }

  lemma {:induction false} ValueOfPadded(b: Bits, k: nat)
    ensures ValueOf(b + Zeros(k)) == ValueOf(b) * Pow2(k)
  {
    if k == 0 {
      assert b + Zeros(0) == b;
    } else {
      ValueOfPadded(b, k - 1);
      var longer, shorter := b + Zeros(k), b + Zeros(k - 1);
      assert longer[..|longer| - 1] == shorter && !longer[|longer| - 1];
      Reassociate(ValueOf(b), Pow2(k - 1));
    }
  }

  lemma Reassociate(a: nat, b: nat)
    ensures 2 * (a * b) == a * (2 * b)
  {
  }

  lemma ValueOfLonger(b: Bits, v: bool)
    ensures ValueOf(b + [v]) == 2 * ValueOf(b) + if v then 1 else 0
  {
    assert (b + [v])[..|b|] == b;
  }

  lemma SetLowest(value: nat, mask: nat, k: nat)
    requires mask == Pow2(k)
    ensures Or(value * Pow2(k + 1), mask) == (2 * value + 1) * mask
  {
    Multiple(value, Pow2(k + 1));
    OrDisjoint(mask, value * Pow2(k + 1), k + 1);
    OrCommutes(mask, value * Pow2(k + 1));
    hide Or;
    assert (2 * value + 1) * mask == value * (2 * mask) + mask;
  }

  lemma DoubledPower(value: nat, k: nat)
    ensures value * Pow2(k + 1) == (2 * value) * Pow2(k)
  {
    Reassociate(value, Pow2(k));
  }
}
