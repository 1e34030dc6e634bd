/**
 The other half of the conditions on the look-ahead, over every choice of genuine matches:
 whenever the parameters do not leave room, there are an input and a list of picks that lead
 `fill` to a round that writes past its buffer.  Whether the search makes these picks is not
 claimed; with the suffix array it does not (LzRoundTrip.SuffixLevel1, SuffixLevel2).

 The inputs are zeros with a single 1, which is the byte before the last match, so that
 its leading literals are as many as comparing bytes backward gives.
 */
module LzOverflow {
  import opened Arith
  import opened Bytes
  import opened Lz77
  import opened BitPackedLz
  import opened ByteAlignedLz
  import opened LzEncoder

  // ---- Runs over a list of picks

  datatype Params = Params(level: int, minMatch: nat, rb: nat, lookahead: nat) {
    predicate Valid() { (level == 1 && minMatch >= 4 && rb <= 8) || (level == 2 && 1 <= minMatch <= 64) }
  }

  /** Between two rounds: input position, bits in `buf`, literals pending. */
  datatype Place = Place(i: nat, used: nat, lit: nat)

  predicate Sensible(m: Params, p: Place, pick: Pick) {
    pick.Found? ==> pick.bp <= p.i && pick.blit + m.minMatch <= pick.blen
  }

  /** The pick is genuine where the run stands. */
  predicate Offered(m: Params, input: seq<Byte>, p: Place, pick: Pick)
    ensures Offered(m, input, p, pick) ==> Sensible(m, p, pick)
  {
    p.i < |input| && Genuine(input, p.i, pick, m.minMatch, m.lookahead)
  }

  /** The round does not write past `buf`. */
  predicate Fitting(m: Params, p: Place, pick: Pick)
    requires m.Valid() && Sensible(m, p, pick)
  {
    pick.Found? ==>
      TurnFits(m.level, m.minMatch, m.rb, Turn(p.used, p.lit, pick.blit, pick.blen - pick.blit, p.i - pick.bp))
  }

  /** A buffer that is at least half full is drained by the reader before the next round. */
  function Drained(used: int): (n: nat)
    requires used >= 0
  {
    if used < 4 * BUFSIZE then used else used % 8
  }

  /** The run after one more round. */
  function Next(m: Params, p: Place, pick: Pick): (q: Place)
    requires m.Valid() && Sensible(m, p, pick)
  {
    var used := p.used + RoundSize(m.level, m.minMatch, m.rb, p.i, p.lit, pick);
    Place(p.i + Reach(pick), if used < 0 then 0 else Drained(used), Kept(p.lit, pick))
  }

  /** Making these picks, all of which fit, leads from p to q. */
  predicate Leads(m: Params, input: seq<Byte>, p: Place, picks: seq<Pick>, q: Place)
    requires m.Valid()
    decreases |picks|
  {
    if picks == [] then p == q
    else
      && Offered(m, input, p, picks[0]) && Fitting(m, p, picks[0])
      && Leads(m, input, Next(m, p, picks[0]), picks[1..], q)
  }

  const START := Place(0, 0, 0)

  lemma {:induction false} LeadsOn(m: Params, input: seq<Byte>, p: Place, a: seq<Pick>, q: Place,
                                   b: seq<Pick>, r: Place)
    requires m.Valid() && Leads(m, input, p, a, q) && Leads(m, input, q, b, r)
    ensures Leads(m, input, p, a + b, r)
    decreases |a|
  {
    hide Offered; hide Fitting; hide Next;
    if a == [] {
      assert a + b == b;
    } else {
      assert (a + b)[1..] == a[1..] + b;
      LeadsOn(m, input, Next(m, p, a[0]), a[1..], q, b, r);
    }
  }

  lemma LeadsFirst(m: Params, input: seq<Byte>, p: Place, picks: seq<Pick>, q: Place)
    requires m.Valid() && picks != [] && Leads(m, input, p, picks, q)
    ensures Offered(m, input, p, picks[0]) && Fitting(m, p, picks[0])
    ensures Leads(m, input, Next(m, p, picks[0]), picks[1..], q)
  {
    hide Offered; hide Fitting; hide Next;
  }

  lemma LeadsNowhere(m: Params, input: seq<Byte>, p: Place, q: Place)
    requires m.Valid()
    ensures Leads(m, input, p, [], q) <==> p == q
  {
  }

  lemma OneRound(m: Params, input: seq<Byte>, p: Place, pick: Pick)
    requires m.Valid() && Offered(m, input, p, pick) && Fitting(m, p, pick)
    ensures Leads(m, input, p, [pick], Next(m, p, pick))
  {
    hide Offered; hide Fitting; hide Next;
    assert [pick][1..] == [];
  }

  // ---- The class makes these runs

  ghost predicate Stands(lz: LZBuffer, m: Params, p: Place)
    reads lz
  {
    && lz.level == m.level && lz.minMatch == m.minMatch && lz.rb == m.rb && lz.lookahead == m.lookahead
    && lz.i == p.i && 8 * lz.wpos + lz.nbits == p.used
    && p.lit <= lz.i <= |lz.input| && lz.Writing() && lz.Done(lz.i - p.lit)
    && p.lit < MAX_LITERAL && 2 * lz.wpos < BUFSIZE
  }

  /** The input is small enough for every offset to be coded. */
  ghost predicate Small(m: Params, input: seq<Byte>) {
    && 0 < |input| && (m.level == 1 ==> |input| + Pow2(m.rb) < Pow2(24 + m.rb) + 2)
    && (m.level == 2 ==> |input| <= 0x1_0000_0000)
  }

  /** One round, with the reader draining the buffer when `fill` has returned. */
  method Follow(lz: LZBuffer, m: Params, ghost p: Place, lit: nat, pick: Pick) returns (lit': nat, ok: bool)
    requires m.Valid() && Stands(lz, m, p) && p.lit == lit && Offered(m, lz.input, p, pick)
    modifies lz
    ensures ok == Fitting(m, p, pick)
    ensures ok ==> Stands(lz, m, Next(m, p, pick)) && lit' == Next(m, p, pick).lit
    ensures !ok ==> Stands(lz, m, p)
  {
    hide LZBuffer.Writing; hide LZBuffer.Done; hide LeavesRoom; hide LiteralSize; hide MatchSize; hide TurnFits;
    Counts(lz);
    lit', ok := lz.Round(pick, lit);
    if ok {
      Counts(lz);
      if 2 * lz.wpos >= BUFSIZE {
        Empty(lz);
      }
    }
  }

  lemma Counts(lz: LZBuffer)
    requires lz.Writing()
    ensures (lz.level == 1 || lz.level == 2) && lz.nbits <= 7 && (lz.level == 2 ==> lz.nbits == 0)
  {
    hide LZBuffer.Coded;
  }

  /** The reader drains a buffer at which `fill` has stopped. */
  method Empty(lz: LZBuffer)
    requires 2 * lz.wpos >= BUFSIZE && lz.Writing() && lz.i <= |lz.input| && lz.Done(lz.i)
    modifies lz`wpos
    ensures lz.wpos == 0 && lz.Writing() && lz.Done(lz.i)
    ensures lz.nbits == old(8 * lz.wpos + lz.nbits) % 8
  {
    hide LZBuffer.Coded; hide Pow2;
    Quotient(8 * lz.wpos + lz.nbits, 8, lz.wpos, lz.nbits);
    lz.wpos := 0;
  }

  lemma FreshStands(lz: LZBuffer, m: Params)
    requires m.Valid() && Small(m, lz.input)
    requires lz.level == m.level && lz.minMatch == m.minMatch && lz.rb == m.rb && lz.lookahead == m.lookahead
    requires lz.i == 0 && lz.wpos == 0 && lz.nbits == 0
    requires lz.Proper() ==> lz.Finished() || (lz.i < |lz.input| && lz.Writing() && lz.Done(lz.i))
    ensures Stands(lz, m, START)
  {
    hide LZBuffer.Writing; hide LZBuffer.Done; hide Pow2;
  }

  /**
   An encoder that has made the picks stands where they lead, and refuses a further one
   exactly if it does not fit.
   */
  method Replay(m: Params, input: seq<Byte>, picks: seq<Pick>, ghost q: Place, last: Pick)
    returns (lz: LZBuffer, ok: bool)
    requires m.Valid() && Small(m, input) && Leads(m, input, START, picks, q) && Offered(m, input, q, last)
    ensures fresh(lz) && lz.input == input && ok == Fitting(m, q, last)
    ensures Stands(lz, m, if ok then Next(m, q, last) else q)
  {
    hide Stands; hide Fitting; hide Next; hide Offered; hide Small; hide Leads;
    lz := new LZBuffer(input, m.level, m.minMatch, m.lookahead, m.rb);
    FreshStands(lz, m);
    var k, lit: nat := 0, 0;
    ghost var p := START;
    assert picks[0..] == picks;
    while k < |picks|
      invariant 0 <= k <= |picks| && fresh(lz) && lz.input == input
      invariant Stands(lz, m, p) && p.lit == lit && Leads(m, input, p, picks[k..], q)
    {
      assert picks[k..][1..] == picks[k + 1..];
      LeadsFirst(m, input, p, picks[k..], q);
      lit, ok := Follow(lz, m, p, lit, picks[k]);
      p := Next(m, p, picks[k]);
      k := k + 1;
    }
    LeadsNowhere(m, input, p, q);
    assert picks[k..] == [];
    lit, ok := Follow(lz, m, q, lit, last);
  }

  // ---- Literals

  function NoMatches(n: nat): (s: seq<Pick>)
    ensures |s| == n
  {
    if n == 0 then [] else NoMatches(n - 1) + [NoMatch]
  }

  lemma {:induction false} NoMatchesAdd(a: nat, b: nat)
    ensures NoMatches(a + b) == NoMatches(a) + NoMatches(b)
    decreases b
  {
    if b == 0 {
      assert NoMatches(a) + [] == NoMatches(a);
    } else {
      NoMatchesAdd(a, b - 1);
    }
  }

  /** n rounds without a match, before the literals have to be written. */
  lemma {:induction false} Wait(m: Params, input: seq<Byte>, p: Place, n: nat)
    requires m.Valid() && p.used < 4 * BUFSIZE && p.lit + n < MAX_LITERAL && p.i + n <= |input|
    ensures Leads(m, input, p, NoMatches(n), Place(p.i + n, p.used, p.lit + n))
    decreases n
  {
    if n > 0 {
      hide Leads;
      var q := Place(p.i + n - 1, p.used, p.lit + n - 1);
      Wait(m, input, p, n - 1);
      OneRound(m, input, q, NoMatch);
      LeadsOn(m, input, p, NoMatches(n - 1), q, [NoMatch], Next(m, q, NoMatch));
    }
  }

  /** A full run of literals, written out. */
  lemma Block(m: Params, input: seq<Byte>, i: nat, used: nat)
    requires m.Valid() && used < 4 * BUFSIZE && i + MAX_LITERAL <= |input|
    ensures Leads(m, input, Place(i, used, 0), NoMatches(MAX_LITERAL),
                  Place(i + MAX_LITERAL, Drained(used + LiteralSize(m.level, MAX_LITERAL)), 0))
  {
    hide Leads; hide LiteralSize; hide NoMatches;
    var p, q := Place(i, used, 0), Place(i + MAX_LITERAL - 1, used, MAX_LITERAL - 1);
    Wait(m, input, p, MAX_LITERAL - 1);
    OneRound(m, input, q, NoMatch);
    LeadsOn(m, input, p, NoMatches(MAX_LITERAL - 1), q, [NoMatch], Next(m, q, NoMatch));
    OneNoMatch();
    NoMatchesAdd(MAX_LITERAL - 1, 1);
  }

  lemma OneNoMatch()
    ensures NoMatches(1) == [NoMatch]
  {
    assert NoMatches(0) == [];
  }

  lemma BlockSize(level: int)
    requires level == 1 || level == 2
    ensures LiteralSize(level, MAX_LITERAL) == if level == 1 then 32795 else 33280
  {
    if level == 1 {
      hide Lg;
      Powers();
      LgIs(MAX_LITERAL, 13);
    }
  }

  /** Bits left over after n buffers full of literals. */
  function Left(level: int, n: nat): (r: nat) { if level == 1 then 6 * n % 8 else 0 }

  lemma LeftNext(level: int, n: nat)
    requires level == 1 || level == 2
    ensures Left(level, n) < 8
    ensures var size := if level == 1 then 32795 else 33280;
      (Left(level, n) + size + size) % 8 == Left(level, n + 1)
  {
    if level == 1 {
      var q, r := 6 * n / 8, 6 * n % 8;
      assert 6 * n == 8 * q + r;
      Quotient(6 * (n + 1), 8, q + (r + 6) / 8, (r + 6) % 8);
      Quotient(r + 65590, 8, 8198 + (r + 6) / 8, (r + 6) % 8);
    }
  }

  /** One buffer of literals, drained. */
  lemma OneBuffer(m: Params, input: seq<Byte>, i: nat, n: nat)
    requires m.Valid() && i + 8192 <= |input|
    ensures Leads(m, input, Place(i, Left(m.level, n), 0), NoMatches(8192), Place(i + 8192, Left(m.level, n + 1), 0))
  {
    hide Leads; hide LiteralSize; hide NoMatches; hide Left;
    var l := Left(m.level, n);
    LeftNext(m.level, n);
    BlockSize(m.level);
    var size := LiteralSize(m.level, MAX_LITERAL);
    Block(m, input, i, l);
    Block(m, input, i + 4096, l + size);
    LeadsOn(m, input, Place(i, l, 0), NoMatches(4096), Place(i + 4096, l + size, 0), NoMatches(4096),
            Place(i + 8192, Left(m.level, n + 1), 0));
    NoMatchesAdd(4096, 4096);
  }

  /** Whole buffers of literals, each drained by the reader, up to position 8192 n. */
  lemma {:induction false} Buffers(m: Params, input: seq<Byte>, n: nat)
    requires m.Valid() && 8192 * n <= |input|
    ensures Leads(m, input, START, NoMatches(8192 * n), Place(8192 * n, Left(m.level, n), 0))
  {
    hide Leads; hide NoMatches; hide Left;
    if n == 0 {
      NoBuffers(m, input);
    } else {
      var k := n - 1;
      var i := 8192 * k;
      assert i + 8192 == 8192 * n;
      Buffers(m, input, k);
      OneBuffer(m, input, i, k);
      LeadsOn(m, input, START, NoMatches(i), Place(i, Left(m.level, k), 0), NoMatches(8192),
              Place(i + 8192, Left(m.level, n), 0));
      NoMatchesAdd(i, 8192);
    }
  }

  lemma NoBuffers(m: Params, input: seq<Byte>)
    requires m.Valid()
    ensures Leads(m, input, START, NoMatches(0), Place(0, Left(m.level, 0), 0))
  {
  }

  // ---- The inputs

  /** n bytes, all 0 but the one at z. */
  function Spike(n: nat, z: nat): (s: seq<Byte>)
    requires z < n
    ensures |s| == n && forall j :: 0 <= j < n ==> s[j] == if j == z then 1 else 0
  {
    Zeros(z) + [1] + Zeros(n - z - 1)
  }

  /** Matches are genuine up to the 1, and behind it if they reach back far enough. */
  lemma SpikeMatches(n: nat, z: nat, bp: nat, i: nat, blit: nat, blen: nat, minMatch: nat, lookahead: nat)
    requires z < n && bp < i && blit <= lookahead && blit + minMatch <= blen <= MAX_MATCH && i + blen <= n
    requires i + blen <= z || (z < i + blit && bp + blen <= z)
    ensures Genuine(Spike(n, z), i, Found(bp, blit, blen), minMatch, lookahead)
  {
    hide Spike;
    var s := Spike(n, z);
    forall j | i + blit <= j < i + blen
      ensures s[j] == s[j - (i - bp)]
    {
    }
  }

  /** The leading literals end where comparing backward finds a different byte. */
  predicate Exact(input: seq<Byte>, i: nat, pick: Pick)
    requires pick.Found? && i + pick.blit <= |input| && pick.bp < i
  {
    pick.blit > 0 ==> input[i + pick.blit - 1] != input[pick.bp + pick.blit - 1]
  }

  /** What the theorems below give: picks that fit lead to a place where a genuine one does not. */
  predicate Overflowing(m: Params, input: seq<Byte>, picks: seq<Pick>, p: Place, last: Pick)
    requires m.Valid()
  {
    && Leads(m, input, START, picks, p) && Offered(m, input, p, last) && !Fitting(m, p, last)
    && last.bp < p.i && p.i + last.blit <= |input| && Exact(input, p.i, last)
  }

  /**
   From 8192 n on: 4096 literals, x literals and a match of the least length, 4095 literals;
   the buffer is then as full as the loop allows, and the turn t does not fit.
   */
  lemma Build(m: Params, n: nat, x: nat, off: nat, t: Turn) returns (input: seq<Byte>, picks: seq<Pick>, p: Place)
    requires m.Valid() && x < MAX_LITERAL && 1 <= off <= 8192 * n && m.minMatch <= MAX_MATCH
    requires t.lit == 4095 && t.used < 4 * BUFSIZE && t.blit + t.len < t.off <= 8192 * n
    requires Allowed(m.level, m.minMatch, m.rb, m.lookahead, t) && !TurnFits(m.level, m.minMatch, m.rb, t)
    requires Left(m.level, n) + LiteralSize(m.level, MAX_LITERAL) < 4 * BUFSIZE
    requires Left(m.level, n) + LiteralSize(m.level, MAX_LITERAL) + LiteralSize(m.level, x)
             + MatchSize(m.level, m.minMatch, m.rb, m.minMatch, off) == t.used
    ensures |input| == 8192 * n + 0x2_0000 && p.used == t.used && t.off <= p.i
    ensures Overflowing(m, input, picks, p, Found(p.i - t.off, t.blit, t.blit + t.len))
  {
    hide Leads; hide LiteralSize; hide MatchSize; hide NoMatches; hide Left; hide Spike; hide TurnFits; hide Genuine;
    var i := 8192 * n;
    var j := i + 4096 + x;
    var z := j + m.minMatch + 4095 + t.blit - 1;
    input := Spike(i + 0x2_0000, z);
    var a, b := Place(i, Left(m.level, n), 0), Place(i + 4096, Left(m.level, n) + LiteralSize(m.level, MAX_LITERAL), 0);
    var c, d := Place(j, b.used, x), Place(j + m.minMatch, t.used, 0);
    p := Place(d.i + 4095, t.used, 4095);
    Buffers(m, input, n);
    Block(m, input, i, a.used);
    LeadsOn(m, input, START, NoMatches(i), a, NoMatches(4096), b);
    Wait(m, input, b, x);
    LeadsOn(m, input, START, NoMatches(i) + NoMatches(4096), b, NoMatches(x), c);
    var pick := Found(j - off, 0, m.minMatch);
    SpikeMatches(|input|, z, j - off, j, 0, m.minMatch, m.minMatch, m.lookahead);
    ShortFits(m, c, off);
    OneRound(m, input, c, pick);
    picks := NoMatches(i) + NoMatches(4096) + NoMatches(x);
    LeadsOn(m, input, START, picks, c, [pick], d);
    picks := picks + [pick];
    Wait(m, input, d, 4095);
    LeadsOn(m, input, START, picks, d, NoMatches(4095), p);
    picks := picks + NoMatches(4095);
    SpikeMatches(|input|, z, p.i - t.off, p.i, t.blit, t.blit + t.len, m.minMatch, m.lookahead);
  }

  lemma ShortFits(m: Params, c: Place, off: nat)
    requires m.Valid() && 1 <= off <= c.i
    requires c.used + LiteralSize(m.level, c.lit) + MatchSize(m.level, m.minMatch, m.rb, m.minMatch, off) < 4 * BUFSIZE
    ensures Fitting(m, c, Found(c.i - off, 0, m.minMatch))
  {
    hide LiteralSize; hide MatchSize;
  }

  // ---- Level 2

  /** Level 2: whenever a peak passes the end, some input and picks do. */
  lemma SecondLevelRun(m: Params, blit: nat) returns (input: seq<Byte>, picks: seq<Pick>, p: Place, last: Pick)
    requires m.Valid() && m.level == 2 && blit <= m.lookahead && blit + m.minMatch <= MAX_MATCH
    requires SecondPeak(m.minMatch, blit) > BUFSIZE
    ensures Small(m, input) && last.Found? && last.blit == blit && Overflowing(m, input, picks, p, last)
  {
    hide LiteralSize; hide MatchSize; hide SecondPeak; hide Overflowing; hide Left;
    var t := Turn(65528, 4095, blit, MAX_MATCH - blit, 0x100_0001);
    SecondLevelOverflows(m.minMatch, m.lookahead, blit);
    BlockSize(2);
    SecondSizes(m, t);
    input, picks, p := Build(m, 2049, 3966, 1, t);
    last := Found(p.i - t.off, blit, MAX_MATCH);
  }

  lemma SecondSizes(m: Params, t: Turn)
    requires 1 <= m.minMatch <= 64 && m.level == 2
    ensures LiteralSize(2, 3966) == 8 * 4028 && Left(2, 2049) == 0
    ensures MatchSize(2, m.minMatch, m.rb, m.minMatch, 1) == 24
    ensures Allowed(2, m.minMatch, 0, m.lookahead, t) ==> Allowed(2, m.minMatch, m.rb, m.lookahead, t)
    ensures !TurnFits(2, m.minMatch, 0, t) ==> !TurnFits(2, m.minMatch, m.rb, t)
  {
  }

  // ---- Level 1

  /** Level 1: whenever a peak passes the end, some input and picks do. */
  lemma FirstLevelRun(m: Params, blit: nat) returns (input: seq<Byte>, picks: seq<Pick>, p: Place, last: Pick)
    requires m.Valid() && m.level == 1 && blit <= m.lookahead && blit + m.minMatch <= MAX_MATCH
    requires FirstPeak(m.rb, blit) > 8 * BUFSIZE
    ensures Small(m, input) && last.Found? && last.blit == blit && Overflowing(m, input, picks, p, last)
  {
    hide LiteralSize; hide MatchSize; hide FirstPeak; hide Overflowing; hide Left; hide OffsetOf; hide Pow2; hide Small;
    hide TurnFits; hide Allowed; hide Enough;
    var t := FirstTurn(m.rb, blit);
    FirstLevelOverflows(m.minMatch, m.rb, m.lookahead, blit);
    FarOffset(m.rb);
    var n := Enough(t.off);                      // 8192 n is more than the offset of the last match
    LeftNext(1, n);
    BlockSize(1);
    var x, lo := Filling(m.minMatch, m.rb, Left(1, n));
    OffsetOfBits(m.rb, lo);
    input, picks, p := Build(m, n, x, OffsetOf(m.rb, lo), t);
    last := Found(p.i - t.off, blit, MAX_MATCH);
    SmallFirst(m, input, n);
  }

  function Enough(off: nat): (n: nat)
    ensures off < 8192 * n <= off + 8192
  {
    off / 8192 + 1
  }

  lemma FarOffset(rb: nat)
    ensures OffsetOf(rb, 23) > 0x40_0000
  {
    hide Pow2;
    PowGrows(23, 23 + rb);
    PowAdd(rb, 23);
    Large();
    Scales(Pow2(rb), 0x80_0000);
  }

  lemma Scales(p: nat, q: nat)
    requires p >= 1 && q >= 1
    ensures p * q - p >= q - 1
  {
    assert (p - 1) * (q - 1) >= 0;
  }

  lemma SmallFirst(m: Params, input: seq<Byte>, n: nat)
    requires m.level == 1 && |input| == 8192 * n + 0x2_0000 && n == Enough(OffsetOf(m.rb, 23))
    ensures Small(m, input)
  {
    hide Pow2;
    PowGrows(23, 23 + m.rb);
    PowNext(23 + m.rb);
    Large();
  }

  lemma Large()
    ensures Pow2(23) == 0x80_0000
  {
    hide Pow2;
    Powers();
    PowAdd(12, 11);
  }

  /** How many literals, and which offset of a shortest match, fill the buffer up to one bit less than half. */
  lemma Filling(minMatch: nat, rb: nat, n0: nat) returns (x: nat, lo: nat)
    requires 4 <= minMatch <= MAX_MATCH && rb <= 8 && n0 <= 7
    ensures x < MAX_LITERAL && lo <= 7
    ensures n0 + 32795 + LiteralSize(1, x) + MatchSize(1, minMatch, rb, minMatch, OffsetOf(rb, lo)) == 65535
  {
    hide Pow2; hide OffsetBits; hide Lg; hide OffsetOf;
    var s := 8 + 2 * (Lg(minMatch / 4) - 1) + rb;
    Powers();
    LgIsPositive(minMatch / 4);
    LgAtMost(minMatch / 4, 14);
    var r := 32715 - n0 - s;
    x, lo := r / 8, r % 8;
    LgIs(x, 12);
    OffsetOfBits(rb, lo);
  }

  // ---- Exactly

  predicate Sane(m: Params, p: Place) {
    p.used < 4 * BUFSIZE && p.lit < MAX_LITERAL && (m.level == 2 ==> p.used % 8 == 0)
  }

  lemma NextIsSane(m: Params, p: Place, pick: Pick)
    requires m.Valid() && Sane(m, p) && Sensible(m, p, pick)
    ensures Sane(m, Next(m, p, pick))
  {
    hide LiteralSize; hide MatchSize;
    if m.level == 2 {
      WholeBytes(m, p, pick);
    }
  }

  lemma WholeBytes(m: Params, p: Place, pick: Pick)
    requires m.Valid() && m.level == 2 && Sensible(m, p, pick)
    ensures RoundSize(m.level, m.minMatch, m.rb, p.i, p.lit, pick) % 8 == 0
  {
    hide LiteralSize; hide MatchSize;
    LiteralBytesWhole(if pick.Found? then p.lit + pick.blit else MAX_LITERAL);
    if pick.Found? {
      MatchBytesWhole(m, pick.blen - pick.blit, p.i - pick.bp);
    }
  }

  lemma LiteralBytesWhole(lit: nat)
    ensures LiteralSize(2, lit) % 8 == 0
  {
    hide Lg;
    Eight(lit + (lit + 63) / 64);
  }

  lemma MatchBytesWhole(m: Params, len: nat, off: nat)
    ensures MatchSize(2, m.minMatch, m.rb, len, off) % 8 == 0
  {
    hide Ceil; hide PieceSize;
    Eight(PieceSize(off) * Ceil(len, m.minMatch + 63));
  }

  lemma Eight(n: int)
    ensures 8 * n % 8 == 0
  {
  }

  lemma {:induction false} RunIsSane(m: Params, input: seq<Byte>, p: Place, picks: seq<Pick>, q: Place)
    requires m.Valid() && Sane(m, p) && Leads(m, input, p, picks, q)
    ensures Sane(m, q)
    decreases |picks|
  {
    hide Offered; hide Fitting; hide Next; hide Sane;
    if picks != [] {
      NextIsSane(m, p, picks[0]);
      RunIsSane(m, input, Next(m, p, picks[0]), picks[1..], q);
    }
  }

  lemma RoomFits(m: Params, input: seq<Byte>, picks: seq<Pick>, p: Place, last: Pick)
    requires m.Valid() && Small(m, input) && LeavesRoom(m.level, m.minMatch, m.rb, m.lookahead)
    requires Leads(m, input, START, picks, p) && Offered(m, input, p, last)
    ensures Fitting(m, p, last)
  {
    hide Leads; hide LeavesRoom; hide Pow2; hide TurnFits;
    RunIsSane(m, input, START, picks, p);
    if last.Found? {
      var t := Turn(p.used, p.lit, last.blit, last.blen - last.blit, p.i - last.bp);
      if m.level == 1 {
        OffsetCodable(m.rb, t.off, |input|);
        FirstLevelFits(m.minMatch, m.rb, m.lookahead, t);
      } else {
        SecondLevelFits(m.minMatch, m.rb, m.lookahead, t);
      }
    }
  }

  /** Some input and picks, all genuine, lead to a round that writes past `buf`. */
  ghost predicate CanOverflow(m: Params)
    requires m.Valid()
  {
    exists input, picks, p, last :: Small(m, input) && Overflowing(m, input, picks, p, last)
  }

  /** The condition on the parameters is exact over every choice of genuine matches. */
  lemma RoomIff(m: Params)
    requires m.Valid()
    ensures LeavesRoom(m.level, m.minMatch, m.rb, m.lookahead) <==> !CanOverflow(m)
  {
    hide Small; hide Leads; hide Offered; hide Fitting; hide FirstPeak; hide SecondPeak;
    if LeavesRoom(m.level, m.minMatch, m.rb, m.lookahead) {
      hide LeavesRoom;
      forall input, picks, p, last | Small(m, input) && Overflowing(m, input, picks, p, last)
        ensures false
      {
        RoomFits(m, input, picks, p, last);
      }
    } else {
      hide Overflowing;
      var b: nat :| b <= m.lookahead && b + m.minMatch <= MAX_MATCH &&
        !(if m.level == 1 then FirstPeak(m.rb, b) <= 8 * BUFSIZE else SecondPeak(m.minMatch, b) <= BUFSIZE);
      if m.level == 1 {
        var input, picks, p, last := FirstLevelRun(m, b);
      } else {
        var input, picks, p, last := SecondLevelRun(m, b);
      }
    }
  }
}
