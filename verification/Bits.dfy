/** Bit strings, least significant bit first. */
module Bits {
  import opened Arith
  import opened Bytes

  type Bits = seq<bool>

  /** The low `k` bits of `x`. */
  function Field(x: nat, k: nat): (s: Bits)
    ensures |s| == k
  {
    if k == 0 then [] else [x % 2 == 1] + Field(x / 2, k - 1)
  }

  function Val(s: Bits): (v: nat) {
    if s == [] then 0 else (if s[0] then 1 else 0) + 2 * Val(s[1..])
  }

  /** `x >> k` */
  function Shr(x: nat, k: nat): (r: nat)
    decreases k
  {
    if k == 0 then x else Shr(x / 2, k - 1)
  }

  lemma {:induction false} ShrDivides(x: nat, k: nat)
    ensures Shr(x, k) == x / Pow2(k)
    decreases k
  {
    if k > 0 {
      ShrDivides(x / 2, k - 1);
      HalveDivide(x, Pow2(k - 1));
    }
  }

  /** All bits of a byte string. */
  function Unpack(s: seq<Byte>): (b: Bits)
    ensures |b| == 8 * |s|
  {
    if s == [] then [] else Field(s[0], 8) + Unpack(s[1..])
  }

  lemma {:induction false} ValField(x: nat, k: nat)
    ensures Val(Field(x, k)) == x % Pow2(k)
    decreases k
  {
    if k > 0 {
      ValField(x / 2, k - 1);
      assert Field(x, k)[1..] == Field(x / 2, k - 1);
      DoubleRemainder(x / 2, x % 2, Pow2(k - 1));
    }
  }

  lemma ValSmall(x: nat, k: nat)
    requires x < Pow2(k)
    ensures Val(Field(x, k)) == x
  {
    ValField(x, k);
    Quotient(x, Pow2(k), 0, x);
  }

  /** Taking the low bits, dropping them. */
  lemma {:induction false} SplitField(x: nat, n: nat, k: nat)
    requires k <= n
    ensures Field(x, n)[..k] == Field(x, k)
    ensures Field(x, n)[k..] == Field(Shr(x, k), n - k)
    decreases k
  {
    if k > 0 {
      SplitField(x / 2, n - 1, k - 1);
      assert Field(x, n)[..k] == [x % 2 == 1] + Field(x / 2, n - 1)[..k - 1];
      assert Field(x, n)[k..] == Field(x / 2, n - 1)[k - 1..];
    }
  }

  /** Appending above the high end. */
  lemma {:induction false} JoinFields(x: nat, k: nat, y: nat, j: nat)
    requires x < Pow2(k)
    ensures Field(x + y * Pow2(k), k + j) == Field(x, k) + Field(y, j)
    decreases k
  {
    if k == 0 {
      assert Field(x, 0) + Field(y, j) == Field(y, j);
      assert x + y * Pow2(0) == y;
    } else {
      var p := Pow2(k - 1);
      assert y * (2 * p) == 2 * (y * p);
      JoinFields(x / 2, k - 1, y, j);
      assert (x + y * Pow2(k)) / 2 == x / 2 + y * p && (x + y * Pow2(k)) % 2 == x % 2;
      assert Field(x, k) + Field(y, j) == [x % 2 == 1] + (Field(x / 2, k - 1) + Field(y, j));
    }
  }

  /** Only the low bits matter. */
  lemma {:induction false} FieldOfRemainder(x: nat, k: nat)
    ensures Field(x % Pow2(k), k) == Field(x, k)
    decreases k
  {
    if k > 0 {
      var y := x % Pow2(k);
      DoubleRemainder(x / 2, x % 2, Pow2(k - 1));
      assert y / 2 == x / 2 % Pow2(k - 1) && y % 2 == x % 2;
      FieldOfRemainder(x / 2, k - 1);
    }
  }

  lemma {:induction false} UnpackLast(s: seq<Byte>, b: Byte)
    ensures Unpack(s + [b]) == Unpack(s) + Field(b, 8)
  {
    hide Field;
    if s == [] {
      assert (s + [b])[1..] == [];
    } else {
      UnpackLast(s[1..], b);
      assert (s + [b])[1..] == s[1..] + [b];
    }
  }
}
