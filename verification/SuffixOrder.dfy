/**
 The Burrows-Wheeler transform of `LZBuffer` level 3, for any correct suffix array, and
 why the position counted by the inverse transform is the right one.

 Row 0 stands for the empty suffix, row r for suffix sa[r-1].
 */
module SuffixOrder {
  import opened Bytes

  /** Suffix p sorts before suffix q; a proper prefix sorts first. */
  predicate Before(s: seq<Byte>, p: nat, q: nat)
    requires p <= |s| && q <= |s|
    decreases |s| - p
  {
    if q == |s| then false
    else if p == |s| then true
    else s[p] < s[q] || (s[p] == s[q] && Before(s, p + 1, q + 1))
  }

  lemma {:induction false} BeforeIsStrict(s: seq<Byte>, p: nat, q: nat)
    requires p <= |s| && q <= |s|
    ensures !(Before(s, p, q) && Before(s, q, p))
    decreases |s| - p
  {
    if p < |s| && q < |s| {
      BeforeIsStrict(s, p + 1, q + 1);
    }
  }

  ghost predicate Indexes(s: seq<Byte>, sa: seq<nat>) {
    |sa| == |s| && forall k :: 0 <= k < |sa| ==> sa[k] < |s|
  }

  lemma Indexed(s: seq<Byte>, sa: seq<nat>)
    requires IsSuffixArray(s, sa)
    ensures Indexes(s, sa)
  {
  }

  /** What divsufsort promises: every position once, in increasing order of suffixes. */
  ghost predicate IsSuffixArray(s: seq<Byte>, sa: seq<nat>) {
    && Indexes(s, sa)
    && (forall p :: 0 <= p < |s| ==> p in sa)
    && (forall k, l :: 0 <= k < l < |sa| ==> Before(s, sa[k], sa[l]))
  }

  /** The suffix in row r. */
  function At(s: seq<Byte>, sa: seq<nat>, r: nat): (p: nat)
    requires Indexes(s, sa) && r <= |s|
    ensures p <= |s|
  {
    if r == 0 then |s| else sa[r - 1]
  }

  /** The row of suffix p. */
  ghost function Row(s: seq<Byte>, sa: seq<nat>, p: nat): (r: nat)
    requires IsSuffixArray(s, sa) && p <= |s|
    ensures r <= |s| && At(s, sa, r) == p && (p < |s| ==> r > 0)
  {
    if p == |s| then 0
    else
      assert p in sa;
      var k :| 0 <= k < |sa| && sa[k] == p;
      k + 1
  }

  lemma RowsAreOrdered(s: seq<Byte>, sa: seq<nat>, i: nat, j: nat)
    requires IsSuffixArray(s, sa) && i <= |s| && j <= |s|
    ensures i < j <==> Before(s, At(s, sa, i), At(s, sa, j))
  {
    BeforeIsStrict(s, At(s, sa, i), At(s, sa, j));
    if i == 0 && j > 0 {
      assert At(s, sa, j) < |s|;
    }
    if j < i && j > 0 {
      assert Before(s, sa[j - 1], sa[i - 1]);
    }
    if 0 < i < j {
      assert Before(s, sa[i - 1], sa[j - 1]);
    }
  }

  lemma RowsAreDistinct(s: seq<Byte>, sa: seq<nat>, i: nat, j: nat)
    requires IsSuffixArray(s, sa) && i <= |s| && j <= |s| && At(s, sa, i) == At(s, sa, j)
    ensures i == j
  {
    RowsAreOrdered(s, sa, i, j);
    RowsAreOrdered(s, sa, j, i);
  }

  // ---- The transform

  /** The byte before suffix At(r), or the 255 that stands for the end of the string. */
  function LastByte(s: seq<Byte>, sa: seq<nat>, r: nat): (b: Byte)
    requires Indexes(s, sa) && r <= |s|
  {
    if At(s, sa, r) == 0 then 255 else s[At(s, sa, r) - 1]
  }

  function Bwt(s: seq<Byte>, sa: seq<nat>): (l: seq<Byte>)
    requires Indexes(s, sa)
    ensures |l| == |s| + 1 && forall r :: 0 <= r <= |s| ==> l[r] == LastByte(s, sa, r)
  {
    seq(|s| + 1, r requires 0 <= r <= |s| => LastByte(s, sa, r))
  }

  /** The row of the whole string, where the transform holds the end mark. */
  ghost function Start(s: seq<Byte>, sa: seq<nat>): (r: nat)
    requires IsSuffixArray(s, sa)
    ensures r <= |s| && At(s, sa, r) == 0
  {
    Row(s, sa, 0)
  }

  /** From the row of a suffix to the row of the suffix one byte longer. */
  ghost function Longer(s: seq<Byte>, sa: seq<nat>, r: nat): (r': nat)
    requires IsSuffixArray(s, sa) && r <= |s| && r != Start(s, sa)
    ensures 0 < r' <= |s| && At(s, sa, r) > 0 && At(s, sa, r') == At(s, sa, r) - 1
  {
    StartIsOnly(s, sa, r);
    Row(s, sa, At(s, sa, r) - 1)
  }

  lemma StartIsOnly(s: seq<Byte>, sa: seq<nat>, r: nat)
    requires IsSuffixArray(s, sa) && r <= |s|
    ensures At(s, sa, r) == 0 <==> r == Start(s, sa)
  {
    if At(s, sa, r) == 0 {
      RowsAreDistinct(s, sa, r, Start(s, sa));
    }
  }

  /** The longer suffixes are ordered by first byte, then as the rows they come from. */
  lemma LongerIsOrdered(s: seq<Byte>, sa: seq<nat>, i: nat, j: nat)
    requires IsSuffixArray(s, sa) && i <= |s| && j <= |s| && i != Start(s, sa) && j != Start(s, sa)
    ensures var l := Bwt(s, sa);
      Longer(s, sa, i) < Longer(s, sa, j) <==> l[i] < l[j] || (l[i] == l[j] && i < j)
  {
    RowsAreOrdered(s, sa, Longer(s, sa, i), Longer(s, sa, j));
    RowsAreOrdered(s, sa, i, j);
  }

  // ---- Counting

  /** How many j < k satisfy p. */
  function Count(p: nat -> bool, k: nat): (n: nat)
    ensures n <= k
  {
    if k == 0 then 0 else Count(p, k - 1) + (if p(k - 1) then 1 else 0)
  }

  lemma {:induction false} CountSame(p: nat -> bool, q: nat -> bool, k: nat)
    requires forall j: nat :: j < k ==> p(j) == q(j)
    ensures Count(p, k) == Count(q, k)
    decreases k
  {
    if k > 0 {
      CountSame(p, q, k - 1);
    }
  }

  lemma {:induction false} CountEither(p: nat -> bool, q: nat -> bool, r: nat -> bool, k: nat)
    requires forall j: nat :: j < k ==> r(j) == (p(j) || q(j)) && !(p(j) && q(j))
    ensures Count(r, k) == Count(p, k) + Count(q, k)
    decreases k
  {
    if k > 0 {
      CountEither(p, q, r, k - 1);
    }
  }

  lemma {:induction false} CountNone(p: nat -> bool, k: nat)
    requires forall j: nat :: j < k ==> !p(j)
    ensures Count(p, k) == 0
    decreases k
  {
    if k > 0 {
      CountNone(p, k - 1);
    }
  }

  lemma {:induction false} CountOne(p: nat -> bool, k: nat, only: nat)
    requires only < k && forall j: nat :: j < k ==> p(j) == (j == only)
    ensures Count(p, k) == 1
    decreases k
  {
    if only == k - 1 {
      CountNone(p, k - 1);
    } else {
      CountOne(p, k - 1, only);
    }
  }

  /** Counting only below `k` what holds nowhere from `k` on. */
  lemma {:induction false} CountBelow(p: nat -> bool, k: nat, m: nat)
    requires k <= m && forall j: nat :: k <= j < m ==> !p(j)
    ensures Count(p, m) == Count(p, k)
    decreases m
  {
    if k < m {
      CountBelow(p, k, m - 1);
    }
  }

  /** Rows other than Start whose longer suffix is in a row before t. */
  ghost function LongerBelow(s: seq<Byte>, sa: seq<nat>, t: nat): (p: nat -> bool)
    requires IsSuffixArray(s, sa)
  {
    (j: nat) => j <= |s| && j != Start(s, sa) && Longer(s, sa, j) < t
  }

  ghost function LongerIs(s: seq<Byte>, sa: seq<nat>, t: nat): (p: nat -> bool)
    requires IsSuffixArray(s, sa)
  {
    (j: nat) => j <= |s| && j != Start(s, sa) && Longer(s, sa, j) == t
  }

  /** Every row but row 0 is reached from exactly one row. */
  lemma ReachedOnce(s: seq<Byte>, sa: seq<nat>, t: nat)
    requires IsSuffixArray(s, sa) && 1 <= t <= |s|
    ensures Count(LongerIs(s, sa, t), |s| + 1) == 1
  {
    hide Longer; hide LongerIs; hide Count; hide IsSuffixArray; hide Row; hide At;
    var only := OnlyRow(s, sa, t);
    forall j: nat | j < |s| + 1
      ensures LongerIs(s, sa, t)(j) == (j == only)
    {
      ReachedFrom(s, sa, t, j);
    }
    CountOne(LongerIs(s, sa, t), |s| + 1, only);
  }

  /** The row of the suffix one byte shorter. */
  ghost function OnlyRow(s: seq<Byte>, sa: seq<nat>, t: nat): (r: nat)
    requires IsSuffixArray(s, sa) && 1 <= t <= |s|
    ensures r <= |s| && At(s, sa, r) == At(s, sa, t) + 1
  {
    Row(s, sa, At(s, sa, t) + 1)
  }

  lemma ReachedFrom(s: seq<Byte>, sa: seq<nat>, t: nat, j: nat)
    requires IsSuffixArray(s, sa) && 1 <= t <= |s| && j <= |s|
    ensures LongerIs(s, sa, t)(j) == (j == OnlyRow(s, sa, t))
  {
    hide Row; hide IsSuffixArray; hide At;
    var only := OnlyRow(s, sa, t);
    StartIsOnly(s, sa, only);
    RowsAreDistinct(s, sa, Longer(s, sa, only), t);
    if LongerIs(s, sa, t)(j) {
      RowsAreDistinct(s, sa, j, only);
    }
  }

  lemma {:induction false} CountLonger(s: seq<Byte>, sa: seq<nat>, t: nat)
    requires IsSuffixArray(s, sa) && 1 <= t <= |s| + 1
    ensures Count(LongerBelow(s, sa, t), |s| + 1) == t - 1
    decreases t
  {
    if t == 1 {
      CountNone(LongerBelow(s, sa, t), |s| + 1);
    } else {
      CountLonger(s, sa, t - 1);
      ReachedOnce(s, sa, t - 1);
      CountEither(LongerBelow(s, sa, t - 1), LongerIs(s, sa, t - 1), LongerBelow(s, sa, t), |s| + 1);
    }
  }

  // ---- The position the inverse transform computes

  /** Rows holding a byte below c; the end mark, being 255, is never below one. */
  function Smaller(l: seq<Byte>, c: int): (p: nat -> bool) {
    (j: nat) => j < |l| && l[j] < c
  }

  /** Rows before the end mark's or after it that hold c. */
  function Equal(l: seq<Byte>, idx: nat, c: int): (p: nat -> bool) {
    (j: nat) => j < |l| && j != idx && l[j] == c
  }

  function Same(l: seq<Byte>, c: int): (p: nat -> bool) {
    (j: nat) => j < |l| && l[j] == c
  }

  /** The first row of suffixes starting with c. */
  function First(l: seq<Byte>, c: int): (r: nat) {
    1 + Count(Smaller(l, c), |l|)
  }

  lemma FirstNext(l: seq<Byte>, c: int)
    ensures First(l, c + 1) == First(l, c) + Count(Same(l, c), |l|)
  {
    CountEither(Smaller(l, c), Same(l, c), Smaller(l, c + 1), |l|);
  }

  lemma FirstZero(l: seq<Byte>)
    ensures First(l, 0) == 1
  {
    CountNone(Smaller(l, 0), |l|);
  }

  /** The list slot for row j: behind all smaller bytes and all equal ones in earlier rows. */
  function Slot(l: seq<Byte>, idx: nat, j: nat): (r: nat)
    requires j < |l|
  {
    First(l, l[j]) + Count(Equal(l, idx, l[j]), j)
  }

  ghost function Early(l: seq<Byte>, idx: nat, j: nat): (p: nat -> bool)
    requires j < |l|
  {
    (k: nat) => k < j && k != idx && l[k] == l[j]
  }

  lemma SlotPoint(s: seq<Byte>, sa: seq<nat>, j: nat, k: nat)
    requires IsSuffixArray(s, sa) && j <= |s| && j != Start(s, sa) && k <= |s|
    ensures var l, idx := Bwt(s, sa), Start(s, sa);
      && LongerBelow(s, sa, Longer(s, sa, j))(k) == (Smaller(l, l[j])(k) || Early(l, idx, j)(k))
      && !(Smaller(l, l[j])(k) && Early(l, idx, j)(k))
  {
    hide Longer;
    StartIsOnly(s, sa, k);
    if k != Start(s, sa) {
      LongerIsOrdered(s, sa, k, j);
    } else {
      assert Bwt(s, sa)[k] == 255;
    }
  }

  /** It is the row of the suffix one byte longer. */
  lemma SlotIsLonger(s: seq<Byte>, sa: seq<nat>, j: nat)
    requires IsSuffixArray(s, sa) && j <= |s| && j != Start(s, sa)
    ensures Slot(Bwt(s, sa), Start(s, sa), j) == Longer(s, sa, j)
  {
    hide Longer; hide LongerBelow; hide Smaller; hide Early; hide Start; hide Count; hide Bwt;
    var l, idx, t := Bwt(s, sa), Start(s, sa), Longer(s, sa, j);
    CountLonger(s, sa, t);
    forall k: nat | k < |l|
      ensures LongerBelow(s, sa, t)(k) == (Smaller(l, l[j])(k) || Early(l, idx, j)(k))
      ensures !(Smaller(l, l[j])(k) && Early(l, idx, j)(k))
    {
      SlotPoint(s, sa, j, k);
    }
    CountEither(Smaller(l, l[j]), Early(l, idx, j), LongerBelow(s, sa, t), |l|);
    EarlyCount(l, idx, j);
  }

  lemma EarlyCount(l: seq<Byte>, idx: nat, j: nat)
    requires j < |l|
    ensures Count(Early(l, idx, j), |l|) == Count(Equal(l, idx, l[j]), j)
  {
    CountBelow(Early(l, idx, j), j, |l|);
    CountSame(Early(l, idx, j), Equal(l, idx, l[j]), j);
  }
}
