/**
 `LZBuffer::fill` with its writers.  The search for matches is left open: any choice of
 matches whose bytes really agree is covered.  The output buffer holds 2^14 bytes; `fill`
 returns when it is half full and is called again when the buffer has been drained.
 */
module LzEncoder {
  import opened Arith
  import opened Bytes
  import opened Wrappers
  import opened Bits
  import opened Lz77
  import opened BitPackedLz
  import opened ByteAlignedLz

  const BUFSIZE := 0x4000
  const MAX_MATCH := 3 * BUFSIZE
  const MAX_LITERAL := BUFSIZE / 4

  /** The outcome of the search at one position: nothing, or bp, blit, blen. */
  datatype Pick = NoMatch | Found(bp: nat, blit: nat, blen: nat)

  /** What the search loops and the guard before `write_match` establish. */
  predicate Genuine(input: seq<Byte>, i: nat, pick: Pick, minMatch: nat, lookahead: nat) {
    pick.Found? ==>
      && SameBytes(input, pick.bp, i, pick.blit, pick.blen)
      && pick.blit <= lookahead && pick.blen - pick.blit >= minMatch && pick.blen <= MAX_MATCH
  }

  // ---- The suffix-array search

  /** `score=score*5/8`, h times; the division truncates. */
  function Discounted(score: int, h: nat): (r: int)
    decreases h
  {
    if h == 0 then score
    else Discounted(if score >= 0 then score * 5 / 8 else -(-score * 5 / 8), h - 1)
  }

  /** The search that steps h = 0..lookahead: a pick has a positive score after as many discounts as h. */
  predicate SuffixPick(input: seq<Byte>, i: nat, pick: Pick, minMatch: nat, lookahead: nat, lit: nat) {
    && Genuine(input, i, pick, minMatch, lookahead)
    && (pick.Found? ==> exists h: nat :: pick.blit <= h <= lookahead && SuffixScore(i, pick, lit, h) > 0)
  }

  function SuffixScore(i: nat, pick: Pick, lit: nat, h: nat): (r: int)
    requires pick.Found? && pick.bp <= i
  {
    Discounted(RawScore(i, pick, lit), h)
  }

  function RawScore(i: nat, pick: Pick, lit: nat): (r: int)
    requires pick.Found? && pick.bp <= i
    ensures r <= 8 * (pick.blen - pick.blit)
  {
    (pick.blen - pick.blit) * 8 - Lg(i - pick.bp) - (if lit == 0 && pick.blit > 0 then 4 else 0) - 11
  }

  lemma {:induction false} DiscountedGrows(x: int, y: int, h: nat)
    requires x <= y && y >= 0
    ensures Discounted(x, h) <= Discounted(y, h)
    decreases h
  {
    if h > 0 {
      DiscountedGrows(if x >= 0 then x * 5 / 8 else -(-x * 5 / 8), y * 5 / 8, h - 1);
    }
  }

  lemma {:induction false} DiscountedMore(x: int, g: nat, h: nat)
    requires g <= h && Discounted(x, g) <= 0
    ensures Discounted(x, h) <= 0
    decreases h
  {
    if g > 0 {
      DiscountedMore(if x >= 0 then x * 5 / 8 else -(-x * 5 / 8), g - 1, h - 1);
    } else if h > 0 {
      DiscountedMore(-(-x * 5 / 8), 0, h - 1);
    }
  }

  lemma DiscountOnce(x: nat, h: nat)
    requires h > 0
    ensures Discounted(x, h) == Discounted(x * 5 / 8, h - 1)
  {
  }

  /** Even the longest match is worth nothing after 26 discounts. */
  lemma LongestDiscounted()
    ensures Discounted(8 * MAX_MATCH, 26) == 0
  {
    hide Discounted;
    DiscountOnce(393216, 26); DiscountOnce(245760, 25); DiscountOnce(153600, 24); DiscountOnce(96000, 23);
    DiscountOnce(60000, 22); DiscountOnce(37500, 21); DiscountOnce(23437, 20); DiscountOnce(14648, 19);
    DiscountOnce(9155, 18); DiscountOnce(5721, 17); DiscountOnce(3575, 16); DiscountOnce(2234, 15);
    DiscountOnce(1396, 14); DiscountOnce(872, 13); DiscountOnce(545, 12); DiscountOnce(340, 11);
    DiscountOnce(212, 10); DiscountOnce(132, 9); DiscountOnce(82, 8); DiscountOnce(51, 7);
    DiscountOnce(31, 6); DiscountOnce(19, 5); DiscountOnce(11, 4); DiscountOnce(6, 3);
    DiscountOnce(3, 2); DiscountOnce(1, 1);
    NotDiscounted();
  }

  lemma NotDiscounted()
    ensures Discounted(0, 0) == 0
  {
  }

  /** So this search never puts more than 25 literals before a match, whatever the look-ahead. */
  lemma SuffixPickIsShort(input: seq<Byte>, i: nat, pick: Pick, minMatch: nat, lookahead: nat, lit: nat)
    requires SuffixPick(input, i, pick, minMatch, lookahead, lit)
    ensures Genuine(input, i, pick, minMatch, 25)
  {
    hide Discounted; hide RawScore;
    if pick.Found? {
      var h: nat :| pick.blit <= h <= lookahead && SuffixScore(i, pick, lit, h) > 0;
      FewDiscounts(RawScore(i, pick, lit), h);
    }
  }

  lemma FewDiscounts(s: int, h: nat)
    requires s <= 8 * MAX_MATCH && Discounted(s, h) > 0
    ensures h <= 25
  {
    hide Discounted;
    DiscountedGrows(s, 8 * MAX_MATCH, h);
    if h >= 26 {
      LongestDiscounted();
      DiscountedMore(8 * MAX_MATCH, 26, h);
    }
  }

  /** Every item can be written. */
  ghost predicate AllCodable(rb: nat, items: seq<Item>) {
    forall i :: 0 <= i < |items| ==> Codable(rb, items[i])
  }

  lemma CodesFirst(rb: nat, item: Item, items: seq<Item>)
    requires Codable(rb, item) && AllCodable(rb, items)
    ensures AllCodable(rb, [item] + items) && Codes(rb, [item] + items) == Code(rb, item) + Codes(rb, items)
  {
    hide Code; hide Codable;
    assert ([item] + items)[1..] == items;
  }

  lemma {:induction false} CodesLast(rb: nat, items: seq<Item>, item: Item)
    requires Codable(rb, item) && AllCodable(rb, items)
    ensures AllCodable(rb, items + [item])
    ensures Codes(rb, items + [item]) == Codes(rb, items) + Code(rb, item)
    decreases |items|
  {
    hide Code; hide Codable; hide Codes;
    if items == [] {
      CodesFirst(rb, item, []);
      NoCodes(rb);
      assert items + [item] == [item] + [];
    } else {
      var first, rest := items[0], items[1..];
      CodesLast(rb, rest, item);
      CodesFirst(rb, first, rest);
      CodesFirst(rb, first, rest + [item]);
      assert items == [first] + rest && items + [item] == [first] + (rest + [item]);
    }
  }

  lemma NoCodes(rb: nat)
    ensures Codes(rb, []) == []
  {
  }

  lemma {:induction false} ShrHalves(x: nat, k: nat)
    ensures Shr(x, k) / 2 == Shr(x, k + 1)
    decreases k
  {
    if k > 0 {
      ShrHalves(x / 2, k - 1);
    }
  }

  lemma {:induction false} ShrTop(x: nat)
    requires x > 0
    ensures Shr(x, Lg(x) - 1) == 1
  {
    hide Pow2;
    if x > 1 {
      ShrTop(x / 2);
      assert Lg(x) == 1 + Lg(x / 2);
    } else {
      assert Lg(1) == 1 + Lg(0);
    }
  }

  lemma {:induction false} GammaSize(x: nat)
    requires x >= 1
    ensures |Gamma(x)| == 2 * (Lg(x) - 1)
  {
    if x > 1 {
      GammaSize(x / 2);
    } else {
      assert Lg(1) == 1 + Lg(0);
    }
  }

  // ---- Sizes, in bits

  /** What `write_literal` writes for `lit` pending literals. */
  function LiteralSize(level: int, lit: nat): (n: nat) {
    if lit == 0 then 0
    else if level == 1 then 3 + 2 * (Lg(lit) - 1) + 8 * lit
    else 8 * (lit + (lit + 63) / 64)
  }

  /** What `write_match` writes. */
  function MatchSize(level: int, minMatch: nat, rb: nat, len: nat, off: nat): (n: int)
    requires len >= 4 || level != 1
  {
    if level == 1 then 8 + 2 * (Lg(len / 4) - 1) + rb + OffsetBits(rb, off)
    else 8 * (PieceSize(off) * Ceil(len, minMatch + 63))
  }

  /** What a round of `fill` at position i writes. */
  function RoundSize(level: int, minMatch: nat, rb: nat, i: nat, lit: nat, pick: Pick): (n: int)
    requires pick.Found? ==> pick.bp <= i && pick.blit <= pick.blen && (level == 1 ==> pick.blen - pick.blit >= 4)
  {
    match pick
    case Found(bp, blit, blen) =>
      LiteralSize(level, lit + blit) + MatchSize(level, minMatch, rb, blen - blit, i - bp)
    case NoMatch => if lit + 1 == MAX_LITERAL then LiteralSize(level, MAX_LITERAL) else 0
  }

  /** A round of `fill` that writes a match: bits in `buf` before it, literals pending, blit, length and offset. */
  datatype Turn = Turn(used: nat, lit: nat, blit: nat, len: nat, off: nat)

  /** The literals and the match find room in `buf`. */
  predicate TurnFits(level: int, minMatch: nat, rb: nat, t: Turn)
    requires t.len >= 4 || level != 1
  {
    t.used + LiteralSize(level, t.lit + t.blit) + MatchSize(level, minMatch, rb, t.len, t.off) <= 8 * BUFSIZE
  }

  // ---- When the buffer is large enough

  /** The most bytes after a round of level 2 with `blit` leading literals, from a buffer that is not yet half full. */
  function SecondPeak(minMatch: nat, blit: nat): (n: nat)
    requires blit <= MAX_MATCH
  {
    var lit := MAX_LITERAL - 1 + blit;
    BUFSIZE / 2 - 1 + lit + (lit + 63) / 64 + 5 * Ceil(MAX_MATCH - blit, minMatch + 63)
  }

  /** The most bits after a round of level 1 with `blit` leading literals, from a buffer that is not yet half full. */
  function FirstPeak(rb: nat, blit: nat): (n: int)
    requires blit <= MAX_MATCH
  {
    var lit := MAX_LITERAL - 1 + blit;
    4 * BUFSIZE - 1 + LiteralSize(1, lit) + 8 + 2 * (Lg((MAX_MATCH - blit) / 4) - 1) + rb + 23
  }

  /** What a caller can check: no round writes past `buf`, see FirstLevelFitsIff and SecondLevelFitsIff. */
  predicate LeavesRoom(level: int, minMatch: nat, rb: nat, lookahead: nat) {
    forall b: nat :: b <= lookahead && b + minMatch <= MAX_MATCH ==>
      if level == 1 then FirstPeak(rb, b) <= 8 * BUFSIZE else SecondPeak(minMatch, b) <= BUFSIZE
  }

  /** A round that the loop of `fill` allows: `buf` is less than half full. */
  predicate Allowed(level: int, minMatch: nat, rb: nat, lookahead: nat, t: Turn) {
    && t.used < 4 * BUFSIZE && t.lit < MAX_LITERAL && t.blit <= lookahead
    && minMatch <= t.len && t.blit + t.len <= MAX_MATCH && t.off >= 1
    && (level == 1 ==> t.len >= 4 && Shifted(rb, t.off) < Pow2(24 + rb))
    && (level == 2 ==> t.used % 8 == 0 && t.off <= 0x1_0000_0000)
  }

  lemma LgIs(x: nat, k: nat)
    requires k > 0 && Pow2(k - 1) <= x < Pow2(k)
    ensures Lg(x) == k
  {
    var l := Lg(x);
    if l < k { PowGrows(l, k - 1); }
    if l > k { PowGrows(k, l - 1); }
  }

  lemma LgAtMost(x: nat, k: nat)
    requires x < Pow2(k)
    ensures Lg(x) <= k
  {
    hide Pow2;
    if Lg(x) > k {
      PowGrows(k, Lg(x) - 1);
    }
  }

  lemma LgGrows(x: nat, y: nat)
    requires x <= y
    ensures Lg(x) <= Lg(y)
  {
    hide Lg;
    LgAtMost(x, Lg(y));
  }

  lemma FirstLevelFits(minMatch: nat, rb: nat, lookahead: nat, t: Turn)
    requires Allowed(1, minMatch, rb, lookahead, t) && LeavesRoom(1, minMatch, rb, lookahead)
    ensures TurnFits(1, minMatch, rb, t)
  {
    hide Lg; hide OffsetBits; hide Pow2;
    assert FirstPeak(rb, t.blit) <= 8 * BUFSIZE;
    LgGrows(t.lit + t.blit, MAX_LITERAL - 1 + t.blit);
    LgGrows(t.len / 4, (MAX_MATCH - t.blit) / 4);
    OffsetBitsRange(rb, t.off);
  }

  /** Level 1: every round that the loop allows fits exactly when no peak passes the end. */
  lemma FirstLevelFitsIff(minMatch: nat, rb: nat, lookahead: nat)
    requires minMatch >= 4
    ensures LeavesRoom(1, minMatch, rb, lookahead) <==>
      forall t :: Allowed(1, minMatch, rb, lookahead, t) ==> TurnFits(1, minMatch, rb, t)
  {
    hide TurnFits; hide FirstPeak; hide Allowed;
    if LeavesRoom(1, minMatch, rb, lookahead) {
      forall t | Allowed(1, minMatch, rb, lookahead, t)
        ensures t.len >= 4 && TurnFits(1, minMatch, rb, t)
      {
        LongEnough(minMatch, rb, lookahead, t);
        FirstLevelFits(minMatch, rb, lookahead, t);
      }
    } else {
      var b: nat :| b <= lookahead && b + minMatch <= MAX_MATCH && FirstPeak(rb, b) > 8 * BUFSIZE;
      FirstLevelOverflows(minMatch, rb, lookahead, b);
    }
  }

  lemma LongEnough(minMatch: nat, rb: nat, lookahead: nat, t: Turn)
    requires Allowed(1, minMatch, rb, lookahead, t)
    ensures t.len >= 4
  {
  }

  /** The first offset whose high part takes lo bits. */
  function OffsetOf(rb: nat, lo: nat): (off: nat)
    ensures off >= 1
  {
    PowGrows(rb, lo + rb);
    Pow2(lo + rb) - Pow2(rb) + 1
  }

  lemma OffsetOfBits(rb: nat, lo: nat)
    requires lo <= 23
    ensures OffsetBits(rb, OffsetOf(rb, lo)) == lo && Shifted(rb, OffsetOf(rb, lo)) < Pow2(24 + rb)
    ensures OffsetOf(rb, lo) <= OffsetOf(rb, 23)
  {
    hide Lg; hide Pow2; hide OffsetOf; hide Shifted;
    OffsetOfShifts(rb, lo);
    OffsetOfShifts(rb, 23);
    PowNext(lo + rb);
    PowGrows(lo + rb + 1, 24 + rb);
    PowGrows(lo + rb, 23 + rb);
    LgIs(Pow2(lo + rb), lo + rb + 1);
  }

  lemma OffsetOfShifts(rb: nat, lo: nat)
    ensures Shifted(rb, OffsetOf(rb, lo)) == Pow2(lo + rb) && OffsetOf(rb, lo) == Pow2(lo + rb) - Pow2(rb) + 1
  {
    hide Pow2;
  }

  /** One bit short of half full, 4095 literals pending, the longest codes. */
  function FirstTurn(rb: nat, blit: nat): (t: Turn)
    requires blit <= MAX_MATCH
  {
    Turn(4 * BUFSIZE - 1, MAX_LITERAL - 1, blit, MAX_MATCH - blit, OffsetOf(rb, 23))
  }

  /** The round that passes the end. */
  lemma FirstLevelOverflows(minMatch: nat, rb: nat, lookahead: nat, blit: nat)
    requires minMatch >= 4 && blit <= lookahead && blit + minMatch <= MAX_MATCH && FirstPeak(rb, blit) > 8 * BUFSIZE
    ensures Allowed(1, minMatch, rb, lookahead, FirstTurn(rb, blit)) && !TurnFits(1, minMatch, rb, FirstTurn(rb, blit))
  {
    hide Lg; hide Pow2; hide OffsetBits; hide OffsetOf;
    OffsetOfBits(rb, 23);
  }

  /** For all but the longest minimum matches the condition on the look-ahead is linear. */
  lemma FirstLevelLookahead(minMatch: nat, rb: nat, lookahead: nat)
    ensures 8 * lookahead + rb <= 32693 ==> LeavesRoom(1, minMatch, rb, lookahead)
    ensures minMatch <= 45065 && rb <= 8 && 8 * lookahead + rb > 32693 ==> !LeavesRoom(1, minMatch, rb, lookahead)
  {
    hide FirstPeak;
    forall b: nat | 8 * b + rb <= 32693
      ensures FirstPeak(rb, b) <= 8 * BUFSIZE
    {
      FirstPeakOf(rb, b);
    }
    if rb <= 8 && 8 * lookahead + rb > 32693 {
      FirstPeakOf(rb, if lookahead < 4087 then lookahead else 4087);
    }
  }

  lemma FirstPeakOf(rb: nat, b: nat)
    requires b <= 4087
    ensures FirstPeak(rb, b) <= 8 * BUFSIZE + (8 * b + rb - 32693)
    ensures b > 0 ==> FirstPeak(rb, b) == 8 * BUFSIZE + (8 * b + rb - 32693)
  {
    hide Lg; hide Pow2;
    Powers();
    LgAtMost(4095 + b, 13);
    LgIs((MAX_MATCH - b) / 4, 14);
    if b > 0 {
      LgIs(4095 + b, 13);
    }
  }

  lemma Powers()
    ensures Pow2(11) == 2048 && Pow2(12) == 4096 && Pow2(13) == 8192 && Pow2(14) == 16384
  {
  }

  lemma SecondLevelFits(minMatch: nat, rb: nat, lookahead: nat, t: Turn)
    requires Allowed(2, minMatch, rb, lookahead, t) && LeavesRoom(2, minMatch, rb, lookahead)
    ensures TurnFits(2, minMatch, rb, t)
  {
    hide Ceil; hide PieceSize;
    assert SecondPeak(minMatch, t.blit) <= BUFSIZE;
    var q := minMatch + 63;
    CeilGrows(t.len, MAX_MATCH - t.blit, q);
    AtMostFive(PieceSize(t.off), Ceil(t.len, q), Ceil(MAX_MATCH - t.blit, q));
  }

  lemma AtMostFive(w: nat, n: nat, m: nat)
    requires w <= 5 && n <= m
    ensures w * n <= 5 * m
  {
    assert (5 - w) * n >= 0;
  }

  /** Level 2: every round that the loop allows fits exactly when no peak passes the end. */
  lemma SecondLevelFitsIff(minMatch: nat, lookahead: nat)
    ensures LeavesRoom(2, minMatch, 0, lookahead) <==>
      forall t :: Allowed(2, minMatch, 0, lookahead, t) ==> TurnFits(2, minMatch, 0, t)
  {
    hide TurnFits; hide Allowed; hide SecondPeak;
    if LeavesRoom(2, minMatch, 0, lookahead) {
      forall t | Allowed(2, minMatch, 0, lookahead, t)
        ensures TurnFits(2, minMatch, 0, t)
      {
        SecondLevelFits(minMatch, 0, lookahead, t);
      }
    } else {
      var b: nat :| b <= lookahead && b + minMatch <= MAX_MATCH && SecondPeak(minMatch, b) > BUFSIZE;
      SecondLevelOverflows(minMatch, lookahead, b);
    }
  }

  lemma SecondLevelOverflows(minMatch: nat, lookahead: nat, blit: nat)
    requires blit <= lookahead && blit + minMatch <= MAX_MATCH && SecondPeak(minMatch, blit) > BUFSIZE
    ensures var t := Turn(65528, 4095, blit, MAX_MATCH - blit, 0x100_0001);
      Allowed(2, minMatch, 0, lookahead, t) && !TurnFits(2, minMatch, 0, t)
  {
    hide Ceil;
  }

  /** Look-aheads up to 205 leave room at level 2 whatever the minimum match, and 206 does not at minimum match 1. */
  lemma SecondLevelLookahead(minMatch: nat, lookahead: nat)
    requires 1 <= minMatch
    ensures lookahead <= 205 ==> LeavesRoom(2, minMatch, 0, lookahead)
    ensures minMatch == 1 && lookahead >= 206 ==> !LeavesRoom(2, minMatch, 0, lookahead)
  {
    hide Ceil; hide SecondPeak;
    forall b: nat | b <= 205
      ensures SecondPeak(minMatch, b) <= BUFSIZE
    {
      PeakOf(minMatch, b);
    }
    PeakOf(1, 206);
  }

  lemma PeakOf(minMatch: nat, b: nat)
    requires minMatch >= 1 && b <= 206
    ensures b <= 205 ==> SecondPeak(minMatch, b) <= BUFSIZE
    ensures b == 206 && minMatch == 1 ==> SecondPeak(minMatch, b) > BUFSIZE
  {
    hide Ceil;
    CeilShrinks(MAX_MATCH - b, 64, minMatch + 63);
    CeilOf64(MAX_MATCH - b);
  }

  // ---- The items the picks call for

  /** The pick moves on and stays inside the input. */
  predicate Forward(input: seq<Byte>, i: nat, pick: Pick) {
    pick.Found? ==> pick.bp < i && pick.blit < pick.blen && i + pick.blen <= |input|
  }

  ghost predicate Advances(input: seq<Byte>, find: (nat, nat) -> Pick) {
    forall j: nat, l: nat :: j < |input| ==> Forward(input, j, find(j, l))
  }

  lemma GenuineAdvances(input: seq<Byte>, find: (nat, nat) -> Pick, minMatch: nat, lookahead: nat)
    requires forall j: nat, l: nat :: j < |input| ==> Genuine(input, j, find(j, l), minMatch, lookahead)
    requires minMatch >= 1
    ensures Advances(input, find)
  {
    forall j: nat, l: nat | j < |input|
      ensures Forward(input, j, find(j, l))
    {
      assert Genuine(input, j, find(j, l), minMatch, lookahead);
    }
  }

  /** The `lit` bytes before `at`, as one item. */
  function Pending(input: seq<Byte>, at: nat, lit: nat): (items: seq<Item>)
    requires lit <= at <= |input|
  {
    if lit == 0 then [] else [Literals(input[at - lit..at])]
  }

  /** What one round has to write when `lit` literals are pending before `i`. */
  function RoundItems(input: seq<Byte>, i: nat, lit: nat, pick: Pick): (items: seq<Item>)
    requires lit <= i < |input| && Forward(input, i, pick)
  {
    match pick
    case Found(bp, blit, blen) => Pending(input, i + blit, lit + blit) + [Match(blen - blit, i - bp)]
    case NoMatch => if lit + 1 == MAX_LITERAL then Pending(input, i + 1, MAX_LITERAL) else []
  }

  /** Literals pending after a round. */
  function Kept(lit: nat, pick: Pick): (n: nat) {
    if pick.Found? || lit + 1 == MAX_LITERAL then 0 else lit + 1
  }

  function Reach(pick: Pick): (n: nat) { if pick.Found? then pick.blen else 1 }

  /** All items from position `i` on, with `lit` literals pending, as the picks dictate them. */
  ghost function Dictated(input: seq<Byte>, find: (nat, nat) -> Pick, i: nat, lit: nat): (items: seq<Item>)
    requires lit <= i <= |input| && Advances(input, find)
    decreases |input| - i
  {
    if i == |input| then Pending(input, i, lit)
    else
      var pick := find(i, lit);
      assert Forward(input, i, pick);
      RoundItems(input, i, lit, pick) + Dictated(input, find, i + Reach(pick), Kept(lit, pick))
  }

  lemma DictatedOnce(input: seq<Byte>, find: (nat, nat) -> Pick, i: nat, lit: nat)
    requires lit <= i < |input| && Advances(input, find)
    ensures var pick := find(i, lit);
      && Forward(input, i, pick)
      && Dictated(input, find, i, lit) ==
         RoundItems(input, i, lit, pick) + Dictated(input, find, i + Reach(pick), Kept(lit, pick))
  {
    hide Forward; hide RoundItems;
  }

  lemma DictatedEnd(input: seq<Byte>, find: (nat, nat) -> Pick, lit: nat)
    requires lit <= |input| && Advances(input, find)
    ensures Dictated(input, find, |input|, lit) == Pending(input, |input|, lit)
  {
  }

  /** A match with the position of the first byte it covers. */
  datatype Placed = Placed(at: nat, len: nat, off: nat)

  /** The matches among items whose first byte is at `at`. */
  function Matches(items: seq<Item>, at: nat): (ms: seq<Placed>) {
    if items == [] then []
    else match items[0]
      case Literals(bytes) => Matches(items[1..], at + |bytes|)
      case Match(len, off) => [Placed(at, len, off)] + Matches(items[1..], at + len)
  }

  /** The picks that are found, each search starting where the pick before ended. */
  ghost function Finds(input: seq<Byte>, find: (nat, nat) -> Pick, i: nat, lit: nat): (ms: seq<Placed>)
    requires lit <= i <= |input| && Advances(input, find)
    decreases |input| - i
  {
    if i == |input| then []
    else
      var pick := find(i, lit);
      assert Forward(input, i, pick);
      (if pick.Found? then [Placed(i + pick.blit, pick.blen - pick.blit, i - pick.bp)] else [])
      + Finds(input, find, i + Reach(pick), Kept(lit, pick))
  }

  lemma MatchesBehindLiterals(input: seq<Byte>, at: nat, lit: nat, rest: seq<Item>)
    requires lit <= at <= |input|
    ensures Matches(Pending(input, at, lit) + rest, at - lit) == Matches(rest, at)
  {
    if lit > 0 {
      assert (Pending(input, at, lit) + rest)[1..] == rest;
    } else {
      assert Pending(input, at, lit) + rest == rest;
    }
  }

  lemma MatchFirst(m: Item, rest: seq<Item>, at: nat)
    requires m.Match?
    ensures Matches([m] + rest, at) == [Placed(at, m.len, m.off)] + Matches(rest, at + m.len)
  {
    assert ([m] + rest)[1..] == rest;
  }

  /**
   The matches among the dictated items are exactly the picks found, in order, each with its
   length and offset, behind the literals that lead up to it.
   */
  lemma {:induction false} MatchesAreFinds(input: seq<Byte>, find: (nat, nat) -> Pick, i: nat, lit: nat)
    requires lit <= i <= |input| && Advances(input, find)
    ensures Matches(Dictated(input, find, i, lit), i - lit) == Finds(input, find, i, lit)
    decreases |input| - i
  {
    hide Matches; hide Pending; hide RoundItems; hide Dictated;
    if i == |input| {
      DictatedEnd(input, find, lit);
      MatchesBehindLiterals(input, i, lit, []);
      assert Pending(input, i, lit) + [] == Pending(input, i, lit);
      NoMatches(i);
    } else {
      var pick := find(i, lit);
      DictatedOnce(input, find, i, lit);
      MatchesAreFinds(input, find, i + Reach(pick), Kept(lit, pick));
      MatchesOfRound(input, i, lit, pick, Dictated(input, find, i + Reach(pick), Kept(lit, pick)));
    }
  }

  lemma MatchesOfRound(input: seq<Byte>, i: nat, lit: nat, pick: Pick, rest: seq<Item>)
    requires lit <= i < |input| && Forward(input, i, pick)
    ensures Matches(RoundItems(input, i, lit, pick) + rest, i - lit) ==
      (if pick.Found? then [Placed(i + pick.blit, pick.blen - pick.blit, i - pick.bp)] else [])
      + Matches(rest, i + Reach(pick) - Kept(lit, pick))
  {
    hide Matches; hide Pending;
    match pick
    case Found(bp, blit, blen) =>
      var m := Match(blen - blit, i - bp);
      MatchesBehindLiterals(input, i + blit, lit + blit, [m] + rest);
      assert RoundItems(input, i, lit, pick) + rest == Pending(input, i + blit, lit + blit) + ([m] + rest);
      MatchFirst(m, rest, i + blit);
    case NoMatch =>
      if lit + 1 == MAX_LITERAL {
        MatchesBehindLiterals(input, i + 1, MAX_LITERAL, rest);
      } else {
        assert [] + rest == rest;
      }
  }

  lemma NoMatches(at: nat)
    ensures Matches([], at) == []
  {
  }

  class LZBuffer {
    const input: seq<Byte>
    const level: int
    const minMatch: nat
    const lookahead: nat
    const rb: nat
    var i: nat
    var bits: nat
    var nbits: nat
    var wpos: nat           // bytes in buf
    var out: seq<Byte>      // all bytes handed to the reader, then buf[..wpos]
    ghost var items: seq<Item>

    constructor (input: seq<Byte>, level: int, minMatch: nat, lookahead: nat, rb: nat)
      ensures this.input == input && this.level == level && this.minMatch == minMatch
      ensures this.lookahead == lookahead && this.rb == rb && i == 0 && wpos == 0 && nbits == 0 && out == []
      ensures items == []
      ensures Proper() ==> Finished() || (i < |input| && Writing() && Done(i))
    {
      this.input, this.level, this.minMatch, this.lookahead, this.rb := input, level, minMatch, lookahead, rb;
      i, bits, nbits, wpos, out, items := 0, 0, 0, 0, [], [];
    }

    /** The parameters the format allows; blocks are small enough for every offset to be coded. */
    ghost predicate Proper() {
      && (level == 1 || level == 2)
      && (level == 1 ==> minMatch >= 4 && rb <= 8 && |input| + Pow2(rb) < Pow2(24 + rb) + 2)
      && (level == 2 ==> 1 <= minMatch <= 64 && |input| <= 0x1_0000_0000)
    }

    ghost predicate Coded()
      requires Proper()
      reads this`items, this`out, this`bits, this`nbits
    {
      && (level == 1 ==> (forall k :: 0 <= k < |items| ==> Codable(rb, items[k])) && Stream() == Codes(rb, items))
      && (level == 2 ==>
            (forall k :: 0 <= k < |items| ==> Writable(minMatch, items[k])) && out == AllBytes(minMatch, items))
    }

    /** The bits written so far (level 1). */
    ghost function Stream(): (s: Bits)
      reads this`out, this`bits, this`nbits
    {
      Unpack(out) + Field(bits, nbits)
    }

    /** Between calls of the writers. */
    ghost predicate Writing()
      reads this`items, this`out, this`bits, this`nbits, this`wpos
    {
      && Proper() && nbits <= 7 && bits < Pow2(nbits) && (level == 2 ==> nbits == 0)
      && 8 * wpos + nbits <= 8 * BUFSIZE
      && Coded()
    }

    /** Everything before `at` has been written. */
    ghost predicate Done(at: nat)
      requires at <= |input|
      reads this`items
    {
      Rebuilds([], items, input[..at])
    }

    /** write k bits of x */
    method Putb(x: nat, k: nat)
      requires nbits <= 7 && bits < Pow2(nbits) && k <= 24 && 8 * wpos + nbits + k <= 8 * BUFSIZE
      modifies this`bits, this`nbits, this`wpos, this`out
      ensures nbits <= 7 && bits < Pow2(nbits)
      ensures 8 * wpos + nbits == old(8 * wpos + nbits) + k
      ensures Stream() == old(Stream()) + Field(x, k)
    {
      hide Field; hide Pow2; hide Unpack;
      ghost var s := Stream();
      var y := x % Pow2(k);
      FieldOfRemainder(x, k);
      JoinFields(bits, nbits, y, k);
      OrBound(bits, nbits, y, k);
      bits := bits + y * Pow2(nbits);
      nbits := nbits + k;
      assert Stream() == s + Field(x, k);
      Spill();
    }

    /** Whole bytes go to the buffer. */
    method Spill()
      requires bits < Pow2(nbits) && 8 * wpos + nbits <= 8 * BUFSIZE
      modifies this`bits, this`nbits, this`wpos, this`out
      ensures nbits <= 7 && bits < Pow2(nbits)
      ensures 8 * wpos + nbits == old(8 * wpos + nbits) && Stream() == old(Stream())
    {
      hide LZBuffer.Stream; hide Pow2;
      while nbits > 7
        invariant bits < Pow2(nbits)
        invariant 8 * wpos + nbits == old(8 * wpos + nbits) && Stream() == old(Stream())
      {
        SpillOne();
      }
    }

    method SpillOne()
      requires bits < Pow2(nbits) && nbits > 7 && wpos < BUFSIZE
      modifies this`bits, this`nbits, this`wpos, this`out
      ensures nbits == old(nbits) - 8 && wpos == old(wpos) + 1 && bits < Pow2(nbits) && Stream() == old(Stream())
    {
      hide Field; hide Pow2; hide Unpack;
      ghost var o, b, n := out, bits, nbits;
      SpillByte(bits, nbits);
      UnpackLast(out, bits % 256);
      out := out + [bits % 256];
      bits := bits / 256;
      nbits := nbits - 8;
      wpos := wpos + 1;
      assert Unpack(o) + Field(b % 256, 8) + Field(bits, nbits) == Unpack(o) + (Field(b % 256, 8) + Field(bits, nbits));
    }

    /** The bits of x below its leading 1, each behind a 1. */
    method PutGamma(x: nat)
      requires nbits <= 7 && bits < Pow2(nbits) && x > 0 && 8 * wpos + nbits + |Gamma(x)| <= 8 * BUFSIZE
      modifies this`bits, this`nbits, this`wpos, this`out
      ensures nbits <= 7 && bits < Pow2(nbits)
      ensures 8 * wpos + nbits == old(8 * wpos + nbits) + |Gamma(x)|
      ensures Stream() == old(Stream()) + Gamma(x)
    {
      hide LZBuffer.Stream; hide Shr; hide Pow2; hide Gamma; hide Lg;
      LgIsPositive(x);
      var ll := Lg(x) - 1;
      ghost var s := Stream();
      ShrTop(x);
      GammaOfOne();
      assert s + [] == s;
      while ll > 0
        invariant 0 <= ll && Shr(x, ll) >= 1
        invariant nbits <= 7 && bits < Pow2(nbits)
        invariant |Gamma(Shr(x, ll))| <= |Gamma(x)|
        invariant 8 * wpos + nbits == old(8 * wpos + nbits) + |Gamma(Shr(x, ll))|
        invariant Stream() == s + Gamma(Shr(x, ll))
      {
        ll := ll - 1;
        ShrHalves(x, ll);
        GammaShorter(x, ll);
        var y := Shr(x, ll);
        GammaNext(y, s);
        PutPair(y % 2);
      }
      ShrNone(x);
    }

    /** A bit behind a 1. */
    method PutPair(y: nat)
      requires nbits <= 7 && bits < Pow2(nbits) && y < 2 && 8 * wpos + nbits + 2 <= 8 * BUFSIZE
      modifies this`bits, this`nbits, this`wpos, this`out
      ensures nbits <= 7 && bits < Pow2(nbits)
      ensures 8 * wpos + nbits == old(8 * wpos + nbits) + 2
      ensures Stream() == old(Stream()) + [true, y == 1]
    {
      hide LZBuffer.Stream; hide Pow2; hide Field;
      ghost var t := Stream();
      OneBit(1);
      OneBit(y);
      Putb(1, 1);
      Putb(y, 1);
      assert t + [true] + [y == 1] == t + [true, y == 1];
    }

    /** `write_literal` at level 1 */
    method LiteralBits(bytes: seq<Byte>)
      requires nbits <= 7 && bits < Pow2(nbits) && bytes != [] && 8 * wpos + nbits + |LiteralCode(bytes)| <= 8 * BUFSIZE
      modifies this`bits, this`nbits, this`wpos, this`out
      ensures nbits <= 7 && bits < Pow2(nbits)
      ensures 8 * wpos + nbits == old(8 * wpos + nbits) + |LiteralCode(bytes)|
      ensures Stream() == old(Stream()) + LiteralCode(bytes)
    {
      hide Pow2; hide Gamma; hide Field; hide LZBuffer.Stream; hide Unpack;
      ghost var s := Stream();
      ZeroFields();
      Putb(0, 2);
      PutGamma(|bytes|);
      Putb(0, 1);
      assert s + [false, false] + Gamma(|bytes|) + [false] == s + ([false, false] + Gamma(|bytes|) + [false]);
      PutBytesAsBits(bytes);
      assert s + ([false, false] + Gamma(|bytes|) + [false]) + Unpack(bytes) == s + LiteralCode(bytes);
    }

    /** while (lit) putb(in[i-lit--], 8); */
    method PutBytesAsBits(bytes: seq<Byte>)
      requires nbits <= 7 && bits < Pow2(nbits) && 8 * wpos + nbits + 8 * |bytes| <= 8 * BUFSIZE
      modifies this`bits, this`nbits, this`wpos, this`out
      ensures nbits <= 7 && bits < Pow2(nbits)
      ensures 8 * wpos + nbits == old(8 * wpos + nbits) + 8 * |bytes|
      ensures Stream() == old(Stream()) + Unpack(bytes)
    {
      hide Pow2; hide Field; hide LZBuffer.Stream;
      ghost var s := Stream();
      var j := 0;
      assert bytes[..0] == [];
      while j < |bytes|
        invariant 0 <= j <= |bytes| && nbits <= 7 && bits < Pow2(nbits)
        invariant 8 * wpos + nbits == old(8 * wpos + nbits) + 8 * j
        invariant Stream() == s + Unpack(bytes[..j])
      {
        Putb(bytes[j], 8);
        UnpackLast(bytes[..j], bytes[j]);
        assert bytes[..j] + [bytes[j]] == bytes[..j + 1];
        assert s + Unpack(bytes[..j]) + Field(bytes[j], 8) == s + (Unpack(bytes[..j]) + Field(bytes[j], 8));
        j := j + 1;
      }
      assert bytes[..j] == bytes;
    }

    /** `write_match` at level 1 */
    method MatchBits(len: nat, off: nat)
      requires Codable(rb, Match(len, off)) && rb <= 8 && OffsetBits(rb, off) >= 0
      requires nbits <= 7 && bits < Pow2(nbits) && 8 * wpos + nbits + |MatchCode(rb, len, off)| <= 8 * BUFSIZE
      modifies this`bits, this`nbits, this`wpos, this`out
      ensures nbits <= 7 && bits < Pow2(nbits)
      ensures 8 * wpos + nbits == old(8 * wpos + nbits) + |MatchCode(rb, len, off)|
      ensures Stream() == old(Stream()) + MatchCode(rb, len, off)
    {
      hide Pow2; hide Gamma; hide Field; hide Lg; hide Shr; hide LZBuffer.Stream;
      OffsetBitsRange(rb, off);
      var x := Shifted(rb, off);
      var lo := OffsetBits(rb, off);
      ghost var s := Stream();
      ghost var t := Field((lo + 8) / 8, 2);
      ZeroFields();
      Putb((lo + 8) / 8, 2);
      Putb(lo % 8, 3);        t := Then(s, t, Field(lo % 8, 3));
      PutGamma(len / 4);      t := Then(s, t, Gamma(len / 4));
      Putb(0, 1);             t := Then(s, t, [false]);
      Putb(len % 4, 2);       t := Then(s, t, Field(len % 4, 2));
      Putb(x, rb);            t := Then(s, t, Field(x, rb));
      Putb(Shr(x, rb), lo);   t := Then(s, t, Field(Shr(x, rb), lo));
    }

    method Put(c: Byte)
      requires wpos < BUFSIZE
      modifies this`out, this`wpos
      ensures out == old(out) + [c] && wpos == old(wpos) + 1
    {
      out := out + [c];
      wpos := wpos + 1;
    }

    method PutAll(cs: seq<Byte>)
      requires wpos + |cs| <= BUFSIZE
      modifies this`out, this`wpos
      ensures out == old(out) + cs && wpos == old(wpos) + |cs|
    {
      for j := 0 to |cs|
        invariant out == old(out) + cs[..j] && wpos == old(wpos) + j
      {
        Put(cs[j]);
      }
    }

    /** `write_literal` at level 2 */
    method LiteralRunBytes(bytes: seq<Byte>)
      requires wpos + |LiteralBytes(bytes)| <= BUFSIZE
      modifies this`out, this`wpos
      ensures out == old(out) + LiteralBytes(bytes) && wpos == old(wpos) + |LiteralBytes(bytes)|
    {
      hide LiteralBytes;
      var j := 0;
      assert bytes[0..] == bytes;
      while j < |bytes|
        invariant 0 <= j <= |bytes|
        invariant wpos + |LiteralBytes(bytes[j..])| == old(wpos) + |LiteralBytes(bytes)|
        invariant out + LiteralBytes(bytes[j..]) == old(out) + LiteralBytes(bytes)
      {
        var lit1 := if |bytes| - j > 64 then 64 else |bytes| - j;
        ghost var o := out;
        LiteralRuns(bytes[j..]);
        assert bytes[j..][..lit1] == bytes[j..j + lit1] && bytes[j..][lit1..] == bytes[j + lit1..];
        Put(lit1 - 1);
        PutAll(bytes[j..j + lit1]);
        j := j + lit1;
        assert out == o + ([lit1 - 1] + bytes[j - lit1..j]);
      }
      assert bytes[j..] == [];
      LiteralRuns([]);
    }

    /** `write_match` at level 2: long matches are split */
    method MatchPieceBytes(len0: nat, off: nat)
      requires 1 <= minMatch <= 64 && len0 >= minMatch && 1 <= off <= 0x1_0000_0000
      requires wpos + |MatchBytes(minMatch, len0, off)| <= BUFSIZE
      modifies this`out, this`wpos
      ensures out == old(out) + MatchBytes(minMatch, len0, off)
      ensures wpos == old(wpos) + |MatchBytes(minMatch, len0, off)|
    {
      hide PieceCode; hide Piece;
      var len := len0;
      while len > 0
        invariant len == 0 || len >= minMatch
        invariant wpos + |MatchBytes(minMatch, len, off)| == old(wpos) + |MatchBytes(minMatch, len0, off)|
        invariant out + MatchBytes(minMatch, len, off) == old(out) + MatchBytes(minMatch, len0, off)
      {
        PieceOk(minMatch, len);
        var len1 := Piece(minMatch, len);
        PutAll(PieceCode(minMatch, len1, off - 1));
        len := len - len1;
      }
    }

    /** Write literal sequence in[at-lit..at-1] */
    method WriteLiteral(at: nat, lit: nat)
      requires Writing() && lit <= at <= |input| && Done(at - lit)
      requires 8 * wpos + nbits + LiteralSize(level, lit) <= 8 * BUFSIZE
      modifies this`bits, this`nbits, this`wpos, this`out, this`items
      ensures Writing() && Done(at)
      ensures 8 * wpos + nbits == old(8 * wpos + nbits) + LiteralSize(level, lit)
      ensures items == old(items) + Pending(input, at, lit)
    {
      hide LZBuffer.Coded; hide LZBuffer.Done;
      if lit > 0 {
        if level == 1 { WriteLiteralBits(at, lit); } else { WriteLiteralBytes(at, lit); }
      }
    }

    method WriteLiteralBits(at: nat, lit: nat)
      requires Writing() && level == 1 && 0 < lit <= at <= |input| && Done(at - lit)
      requires 8 * wpos + nbits + LiteralSize(level, lit) <= 8 * BUFSIZE
      modifies this`bits, this`nbits, this`wpos, this`out, this`items
      ensures Writing() && Done(at)
      ensures 8 * wpos + nbits == old(8 * wpos + nbits) + LiteralSize(level, lit)
      ensures items == old(items) + Pending(input, at, lit)
    {
      hide LiteralCode; hide Codes; hide LZBuffer.Stream; hide Pow2; hide Rebuilds; hide Lg;
      var bytes := input[at - lit..at];
      ghost var item := Literals(bytes);
      RebuildsLast([], items, input[..at - lit], item);
      assert input[..at - lit] + bytes == input[..at];
      LiteralCodeSize(bytes);
      CodesLast(rb, items, item);
      LiteralBits(bytes);
      items := items + [item];
    }

    method WriteLiteralBytes(at: nat, lit: nat)
      requires Writing() && level == 2 && 0 < lit <= at <= |input| && Done(at - lit)
      requires 8 * wpos + nbits + LiteralSize(level, lit) <= 8 * BUFSIZE
      modifies this`wpos, this`out, this`items
      ensures Writing() && Done(at)
      ensures 8 * wpos + nbits == old(8 * wpos + nbits) + LiteralSize(level, lit)
      ensures items == old(items) + Pending(input, at, lit)
    {
      hide LiteralBytes; hide AllBytes; hide Rebuilds; hide Lg;
      var bytes := input[at - lit..at];
      ghost var item := Literals(bytes);
      RebuildsLast([], items, input[..at - lit], item);
      assert input[..at - lit] + bytes == input[..at];
      LiteralBytesSize(bytes);
      AllBytesLast(minMatch, items, item);
      LiteralRunBytes(bytes);
      items := items + [item];
    }

    /** Write match sequence of given length and offset */
    method WriteMatch(at: nat, len: nat, off: nat)
      requires at + len <= |input| && Writing() && Done(at) && minMatch <= len <= MAX_MATCH && 1 <= off <= at
      requires CopyMatch(input[..at], len, off) == input[..at + len]
      requires 8 * wpos + nbits + MatchSize(level, minMatch, rb, len, off) <= 8 * BUFSIZE
      modifies this`bits, this`nbits, this`wpos, this`out, this`items
      ensures Writing() && Done(at + len)
      ensures 8 * wpos + nbits == old(8 * wpos + nbits) + MatchSize(level, minMatch, rb, len, off)
      ensures items == old(items) + [Match(len, off)]
    {
      hide MatchCode; hide MatchBytes; hide Codes; hide AllBytes; hide LZBuffer.Stream; hide CopyMatch; hide Rebuilds;
      hide Lg; hide Ceil; hide PieceSize; hide OffsetBits;
      ghost var item := Match(len, off);
      RebuildsLast([], items, input[..at], item);
      if level == 1 {
        OffsetCodable(rb, off, |input|);
        OffsetBitsRange(rb, off);
        MatchCodeSize(rb, len, off);
        CodesLast(rb, items, item);
        MatchBits(len, off);
      } else {
        MatchBytesSize(minMatch, len, off);
        AllBytesLast(minMatch, items, item);
        MatchPieceBytes(len, off);
      }
      items := items + [item];
    }

    /** write last byte */
    method Flush()
      requires Writing() && i <= |input| && Done(i)
      modifies this`bits, this`nbits, this`wpos, this`out
      ensures i == |input| ==> Finished()
      ensures wpos <= BUFSIZE
    {
      hide Codes; hide Pow2; hide Field; hide Unpack; hide Rebuilds; hide AllBytes;
      if nbits > 0 {
        PadByte(bits, nbits);
        UnpackLast(out, bits);
        assert Unpack(out) + (Field(bits, nbits) + Field(0, 8 - nbits)) == Codes(rb, items) + Field(0, 8 - nbits);
        Put(bits);
      } else {
        NoField(bits);
        assert Unpack(out) + [] == Unpack(out);
      }
      bits, nbits := 0, 0;
    }

    /** All input written, the last bits padded to a byte. */
    ghost predicate Finished()
      reads this
    {
      && i == |input| && Proper() && nbits == 0 && bits == 0 && Done(i)
      && (level == 1 ==>
          && (forall k :: 0 <= k < |items| ==> Codable(rb, items[k]))
          && Codes(rb, items) <= Unpack(out) && |Unpack(out)| < |Codes(rb, items)| + 8)
      && (level == 2 ==> Coded())
    }

    lemma EndsOnce()
      ensures Finished() ==> i == |input|
    {
    }

    lemma SearchAdvances(find: (nat, nat) -> Pick)
      requires Finished() || Writing()
      requires forall j: nat, l: nat :: j < |input| ==> Genuine(input, j, find(j, l), minMatch, lookahead)
      ensures Advances(input, find)
    {
      hide Genuine; hide LZBuffer.Coded; hide LZBuffer.Done;
      GenuineAdvances(input, find, minMatch, lookahead);
    }

    /** The next round would write past `buf`. */
    ghost predicate Blocked(find: (nat, nat) -> Pick)
      reads this
    {
      && i < |input| && 2 * wpos < BUFSIZE && Writing()
      && exists lit: nat :: lit < MAX_LITERAL && lit <= i && Done(i - lit) && Stuck(find(i, lit), lit)
    }

    ghost predicate Stuck(pick: Pick, lit: nat)
      reads this`i, this`wpos, this`nbits
    {
      && pick.Found? && pick.bp <= i && pick.blit <= pick.blen && (level == 1 ==> pick.blen - pick.blit >= 4)
      && !TurnFits(level, minMatch, rb, TurnOf(pick, lit))
    }

    function TurnOf(pick: Pick, lit: nat): (t: Turn)
      requires pick.Found? && pick.bp <= i && pick.blit <= pick.blen
      reads this`i, this`wpos, this`nbits
    {
      Turn(8 * wpos + nbits, lit, pick.blit, pick.blen - pick.blit, i - pick.bp)
    }

    /** The loop of `fill`, which ends with fewer than MAX_LITERAL literals pending. */
    method Scan(find: (nat, nat) -> Pick) returns (ok: bool, lit: nat)
      requires i < |input| && Writing() && Done(i) && wpos == 0
      requires forall j: nat, l: nat :: j < |input| ==> Genuine(input, j, find(j, l), minMatch, lookahead)
      requires Advances(input, find)
      modifies this`i, this`bits, this`nbits, this`wpos, this`out, this`items
      ensures LeavesRoom(level, minMatch, rb, lookahead) ==> ok
      ensures !ok ==> Blocked(find)
      ensures ok ==> lit <= i <= |input| && Writing() && Done(i - lit) && old(i) < i && wpos <= BUFSIZE
      ensures ok ==> lit < MAX_LITERAL && (lit > 0 ==> 2 * wpos < BUFSIZE) && (i == |input| || 2 * wpos >= BUFSIZE)
      ensures ok ==> items + Dictated(input, find, i, lit) == old(items + Dictated(input, find, i, 0))
    {
      hide LZBuffer.Writing; hide LZBuffer.Done; hide LZBuffer.Proper; hide Genuine; hide LeavesRoom;
      hide LZBuffer.Stuck; hide Dictated; hide RoundItems; hide Advances; hide Forward;
      lit, ok := 0, true;
      while i < |input| && 2 * wpos < BUFSIZE
        invariant lit <= i <= |input| && Writing() && Done(i - lit)
        invariant lit < MAX_LITERAL && (lit > 0 ==> 2 * wpos < BUFSIZE) && wpos <= BUFSIZE
        invariant i >= old(i) && (wpos > 0 ==> i > old(i))
        invariant items + Dictated(input, find, i, lit) == old(items + Dictated(input, find, i, 0))
        decreases |input| - i
      {
        ghost var lit0: nat, i0, items0 := lit, i, items;
        DictatedOnce(input, find, i, lit);
        lit, ok := Round(find(i, lit), lit);
        if !ok {
          assert lit0 < MAX_LITERAL && Stuck(find(i, lit0), lit0);
          return;
        }
        assert items0 + Dictated(input, find, i0, lit0) == items + Dictated(input, find, i, lit);
      }
    }

    /**
     `fill`: never returns with literals pending while input remains, and never with an
     empty buffer while input remains.  `ok` is false when the next round would write past
     `buf`, where the original fails an assertion or corrupts memory; no round does when
     the parameters leave room.  What is written is what the picks of `find` dictate.
     */
    method Fill(find: (nat, nat) -> Pick) returns (ok: bool)
      requires Finished() || (i < |input| && Writing() && Done(i))
      requires forall j: nat, l: nat :: j < |input| ==> Genuine(input, j, find(j, l), minMatch, lookahead)
      requires wpos == 0
      modifies this`i, this`bits, this`nbits, this`wpos, this`out, this`items
      ensures LeavesRoom(level, minMatch, rb, lookahead) ==> ok
      ensures !ok ==> Blocked(find)
      ensures Advances(input, find)
      ensures ok ==>
        && (Finished() || (i < |input| && Writing() && Done(i)))
        && (i < |input| ==> wpos > 0)
        && (i > old(i) || (i == |input| && wpos == 0))
        && wpos <= BUFSIZE && i <= |input|
      ensures ok ==> items + Dictated(input, find, i, 0) == old(items) + Dictated(input, find, old(i), 0)
    {
      hide LZBuffer.Writing; hide LZBuffer.Done; hide LZBuffer.Finished; hide LZBuffer.Proper; hide Genuine;
      hide LeavesRoom; hide LZBuffer.Blocked; hide Dictated; hide Advances;
      SearchAdvances(find);
      EndsOnce();
      if i == |input| {
        return true;  // nothing pending: write_literal and flush write nothing
      }
      var lit: nat;
      ok, lit := Scan(find);
      if ok && i == |input| {
        PendingFits(this, lit);
        DictatedEnd(input, find, lit);
        DictatedEnd(input, find, 0);
        WriteLiteral(i, lit);
        Flush();
      }
    }

    /** The pending literals with the leading ones of the match, then the match. */
    method WriteFound(bp: nat, blit: nat, blen: nat, lit0: nat)
      requires lit0 <= i < |input| && Writing() && Done(i - lit0) && lit0 < MAX_LITERAL && 2 * wpos < BUFSIZE
      requires var pick := Found(bp, blit, blen);
        && Genuine(input, i, pick, minMatch, lookahead) && (level == 1 ==> blen - blit >= 4)
        && MatchSize(level, minMatch, rb, blen - blit, i - bp) >= 0
        && TurnFits(level, minMatch, rb, TurnOf(pick, lit0))
      modifies this`bits, this`nbits, this`wpos, this`out, this`items
      ensures 8 * wpos + nbits == old(8 * wpos + nbits) + RoundSize(level, minMatch, rb, i, lit0, Found(bp, blit, blen))
      ensures wpos <= BUFSIZE && Writing() && i + blen <= |input| && Done(i + blen)
      ensures items == old(items) + Pending(input, i + blit, lit0 + blit) + [Match(blen - blit, i - bp)]
    {
      hide LZBuffer.Done; hide LZBuffer.Coded; hide CopyMatch; hide Pow2; hide MatchSize; hide LiteralSize;
      hide LeavesRoom; hide Pending;
      MatchReproduces(input, bp, i, blit, blen);
      WriteLiteral(i + blit, lit0 + blit);
      WriteMatch(i + blit, blen - blit, i - bp);
    }

    /** One round of the loop in `fill`. */
    method Round(pick: Pick, lit0: nat) returns (lit: nat, ok: bool)
      requires lit0 <= i < |input| && Writing() && Done(i - lit0) && lit0 < MAX_LITERAL && 2 * wpos < BUFSIZE
      requires Genuine(input, i, pick, minMatch, lookahead)
      modifies this`i, this`bits, this`nbits, this`wpos, this`out, this`items
      ensures pick.NoMatch? ==> ok
      ensures pick.Found? ==> pick.bp <= old(i) && pick.blit <= pick.blen && (level == 1 ==> pick.blen - pick.blit >= 4)
      ensures ok == !old(Stuck(pick, lit0))
      ensures !ok ==> unchanged(this)
      ensures ok ==> i == old(i) + Reach(pick) && lit == Kept(lit0, pick)
      ensures ok ==> 8 * wpos + nbits == old(8 * wpos + nbits + RoundSize(level, minMatch, rb, i, lit0, pick))
      ensures LeavesRoom(level, minMatch, rb, lookahead) ==> ok
      ensures Forward(input, old(i), pick)
      ensures ok ==> items == old(items) + RoundItems(input, old(i), lit0, pick)
      ensures ok ==> old(i) < i <= |input| && lit <= i && Writing() && Done(i - lit)
      ensures ok ==> lit < MAX_LITERAL && (lit > 0 ==> 2 * wpos < BUFSIZE) && wpos <= BUFSIZE
    {
      hide LZBuffer.Done; hide LZBuffer.Coded; hide CopyMatch; hide Pow2; hide MatchSize; hide LiteralSize;
      hide LeavesRoom;
      ok := true;
      match pick {
        case Found(bp, blit, blen) =>
          GenuineRound(this, pick, lit0);
          if !TurnFits(level, minMatch, rb, TurnOf(pick, lit0)) {
            return 0, false;
          }
          WriteFound(bp, blit, blen, lit0);
          lit := 0;
          i := i + blen;
        case NoMatch =>
          lit := lit0 + 1;
          i := i + 1;
      }
      if lit >= MAX_LITERAL {
        PendingFits(this, lit);
        WriteLiteral(i, lit);
        lit := 0;
      }
    }
  }

  /** Pending literals alone always fit. */
  lemma PendingFits(lz: LZBuffer, lit: nat)
    requires lz.Writing() && lit <= MAX_LITERAL && (lit > 0 ==> 2 * lz.wpos < BUFSIZE)
    ensures 8 * lz.wpos + lz.nbits + LiteralSize(lz.level, lit) <= 8 * BUFSIZE
  {
    hide Lg; hide LZBuffer.Coded;
    Powers();
    LgAtMost(lit, 13);
  }

  /** A genuine pick is a round that the loop allows. */
  lemma GenuineRound(lz: LZBuffer, pick: Pick, lit0: nat)
    requires pick.Found? && lz.i < |lz.input| && lz.Writing() && lit0 < MAX_LITERAL && 2 * lz.wpos < BUFSIZE
    requires Genuine(lz.input, lz.i, pick, lz.minMatch, lz.lookahead)
    ensures pick.bp <= lz.i && pick.blit <= pick.blen && (lz.level == 1 ==> pick.blen - pick.blit >= 4)
    ensures MatchSize(lz.level, lz.minMatch, lz.rb, pick.blen - pick.blit, lz.i - pick.bp) >= 0
    ensures LeavesRoom(lz.level, lz.minMatch, lz.rb, lz.lookahead) ==>
      TurnFits(lz.level, lz.minMatch, lz.rb, lz.TurnOf(pick, lit0))
  {
    hide LZBuffer.Coded; hide TurnFits; hide LeavesRoom; hide Pow2; hide OffsetBits; hide Lg; hide Ceil;
    var t := lz.TurnOf(pick, lit0);
    if lz.level == 1 {
      OffsetCodable(lz.rb, t.off, |lz.input|);
      OffsetBitsRange(lz.rb, t.off);
      LgIsPositive(t.len / 4);
    }
    if LeavesRoom(lz.level, lz.minMatch, lz.rb, lz.lookahead) {
      if lz.level == 1 {
        FirstLevelFits(lz.minMatch, lz.rb, lz.lookahead, t);
      } else {
        SecondLevelFits(lz.minMatch, lz.rb, lz.lookahead, t);
      }
    }
  }

  lemma LgIsPositive(x: nat)
    requires x > 0
    ensures Lg(x) > 0
  {
  }

  lemma NoField(x: nat)
    ensures Field(x, 0) == []
  {
  }

  lemma EightBits()
    ensures Pow2(8) == 256
  {
  }

  lemma PadByte(x: nat, n: nat)
    requires 0 < n <= 7 && x < Pow2(n)
    ensures x < 256 && Field(x, 8) == Field(x, n) + Field(0, 8 - n)
  {
    hide Field; hide Pow2;
    JoinFields(x, n, 0, 8 - n);
    PowGrows(n, 8);
    EightBits();
  }

  lemma LiteralCodeSize(bytes: seq<Byte>)
    requires bytes != []
    ensures |LiteralCode(bytes)| == LiteralSize(1, |bytes|)
  {
    GammaSize(|bytes|);
  }

  lemma MatchCodeSize(rb: nat, len: nat, off: nat)
    requires len >= 4 && OffsetBits(rb, off) >= 0
    ensures |MatchCode(rb, len, off)| == MatchSize(1, 0, rb, len, off)
  {
    hide OffsetBits; hide Lg;
    GammaSize(len / 4);
  }

  lemma OffsetCodable(rb: nat, off: nat, n: nat)
    requires 1 <= off < n && n + Pow2(rb) < Pow2(24 + rb) + 2
    ensures Shifted(rb, off) < Pow2(24 + rb)
  {
  }

  ghost function Then(s: Bits, t: Bits, u: Bits): (r: Bits)
    ensures r == t + u && s + r == s + t + u
  {
    t + u
  }

  lemma ZeroFields()
    ensures Field(0, 2) == [false, false] && Field(0, 1) == [false]
  {
  }

  lemma OneBit(x: nat)
    requires x < 2
    ensures Field(x, 1) == [x == 1]
  {
    assert Field(x / 2, 0) == [];
  }

  lemma ShrNone(x: nat)
    ensures Shr(x, 0) == x
  {
  }

  lemma GammaOfOne()
    ensures Gamma(1) == []
  {
  }

  lemma GammaNext(x: nat, s: Bits)
    requires x >= 2
    ensures s + Gamma(x) == s + Gamma(x / 2) + [true, x % 2 == 1] && |Gamma(x)| == |Gamma(x / 2)| + 2
  {
  }

  lemma {:induction false} GammaShorter(x: nat, k: nat)
    ensures |Gamma(Shr(x, k))| <= |Gamma(x)|
    decreases k
  {
    if k > 0 {
      GammaShorter(x / 2, k - 1);
      assert |Gamma(x / 2)| <= |Gamma(x)|;
    }
  }

  lemma OrBound(x: nat, n: nat, y: nat, k: nat)
    requires x < Pow2(n) && y < Pow2(k)
    ensures x + y * Pow2(n) < Pow2(n + k)
  {
    hide Pow2;
    PowAdd(n, k);
    Digits(x, Pow2(n), y, Pow2(k));
  }

  lemma Digits(x: nat, p: nat, y: nat, q: nat)
    requires x < p && y < q
    ensures x + y * p < p * q
  {
    assert (q - 1 - y) * p >= 0;
    assert (q - 1 - y) * p == q * p - p - y * p;
  }

  lemma SpillByte(x: nat, n: nat)
    requires n > 7 && x < Pow2(n)
    ensures x / 256 < Pow2(n - 8)
    ensures Field(x, n) == Field(x % 256, 8) + Field(x / 256, n - 8)
  {
    assert Pow2(8) == 256;
    PowAdd(8, n - 8);
    JoinFields(x % 256, 8, x / 256, n - 8);
    assert x % 256 + x / 256 * 256 == x;
  }
}
