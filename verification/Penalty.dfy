/**
 `compare_files_penalty` and the patch loop of the decoder: a re-created file may differ from
 the original at a few positions, each recorded in five penalty bytes.
 */
module Penalty {
  import opened Arith
  import opened Bytes

  const MAX_PENALTY_BYTES := 16384
  const COMP_CHUNK := 512

  /** Number of positions below c where the files differ. */
  function Differences(a: seq<Byte>, b: seq<Byte>, c: nat): (n: nat)
    requires c <= |a| && c <= |b|
    ensures n <= c
  {
    if c == 0 then 0 else Differences(a, b, c - 1) + if a[c - 1] != b[c - 1] then 1 else 0
  }

  /** Matches minus five per difference: what keeping the first c bytes saves. */
  function Score(a: seq<Byte>, b: seq<Byte>, c: nat): (s: int)
    requires c <= |a| && c <= |b|
  {
    c - 6 * Differences(a, b, c)
  }

  /** A position as four bytes, and as the decoder's signed 32-bit int. */
  function PositionBytes(p: nat): (s: seq<Byte>)
    ensures |s| == 4
  {
    [p / 0x100_0000 % 256, p / 0x1_0000 % 256, p / 0x100 % 256, p % 256]
  }

  function PositionOf(s: seq<Byte>): (p: int)
    requires |s| == 4
  {
    var u := s[0] as int * 0x100_0000 + s[1] as int * 0x1_0000 + s[2] as int * 0x100 + s[3] as int;
    if u < 0x8000_0000 then u else u - 0x1_0000_0000
  }

  /** The low 32 bits of a number, as an `int`. */
  function Signed(p: nat): (q: int) {
    var u := p % 0x1_0000_0000;
    if u < 0x8000_0000 then u else u - 0x1_0000_0000
  }

  lemma PositionReadsBack(p: nat)
    ensures PositionOf(PositionBytes(p)) == Signed(p)
  {
    var q1, q2, q3 := p / 0x100, p / 0x1_0000, p / 0x100_0000;
    assert q2 == q1 / 256 && q3 == q2 / 256;
    var u := q3 % 256 * 0x100_0000 + q2 % 256 * 0x1_0000 + q1 % 256 * 0x100 + p % 256;
    Quotient(p, 0x1_0000_0000, q3 / 256, u);
  }

  lemma PositionReadsBackIff(p: nat)
    ensures PositionOf(PositionBytes(p)) == p <==> p < 0x8000_0000
    ensures -0x8000_0000 <= PositionOf(PositionBytes(p)) < 0x8000_0000
    ensures PositionOf(PositionBytes(p)) <= p && PositionOf(PositionBytes(0x1_0000_0000)) == 0
    ensures 0x8000_0000 <= p < 0x1_0000_0000 ==> PositionOf(PositionBytes(p)) == p - 0x1_0000_0000
  {
    hide PositionOf; hide PositionBytes;
    PositionReadsBack(p);
    PositionReadsBack(0x1_0000_0000);
  }

  lemma PositionWraps()
    ensures PositionOf(PositionBytes(0x8000_0000)) == -0x8000_0000
  {
  }

  /** The penalty bytes for the first c positions. */
  function Entries(a: seq<Byte>, b: seq<Byte>, c: nat): (s: seq<Byte>)
    requires c <= |a| && c <= |b|
    ensures |s| == 5 * Differences(a, b, c)
  {
    if c == 0 then []
    else Entries(a, b, c - 1) + if a[c - 1] != b[c - 1] then PositionBytes(c - 1) + [a[c - 1]] else []
  }

  /** How far the files can be compared before the penalty bytes are full. */
  function Limit(a: seq<Byte>, b: seq<Byte>, c: nat): (n: nat)
    requires c <= |a| && c <= |b|
    ensures c <= n <= |a| && n <= |b|
    decreases |a| - c
  {
    if c == |a| || c == |b| then c
    else if a[c] != b[c] && 5 * Differences(a, b, c) + 5 >= MAX_PENALTY_BYTES then c
    else Limit(a, b, c + 1)
  }

  /** r is the earliest of the prefixes up to c with the highest score, if that is not negative. */
  ghost predicate Best(a: seq<Byte>, b: seq<Byte>, c: nat, r: nat, s: int)
    requires c <= |a| && c <= |b|
  {
    && r <= c && (if r == 0 then s == -1 else s == Score(a, b, r) >= 0)
    && (forall p :: 1 <= p < r ==> Score(a, b, p) < s)
    && (forall p :: 1 <= p <= c ==> Score(a, b, p) <= s)
  }

  lemma {:induction false} ScoreGrowsSlowly(a: seq<Byte>, b: seq<Byte>, c: nat, d: nat)
    requires c <= d <= |a| && d <= |b|
    ensures Score(a, b, d) <= Score(a, b, c) + (d - c)
    decreases d
  {
    if c < d {
      ScoreGrowsSlowly(a, b, c, d - 1);
    }
  }

  /** Once even matching everything to the end leaves the score negative, no later prefix is better. */
  lemma TooLow(a: seq<Byte>, b: seq<Byte>, c: nat, end: nat, r: nat, s: int, d: nat)
    requires c < d <= |a| && d <= |b| && d <= end && Best(a, b, c, r, s)
    requires a[c] != b[c] && Score(a, b, c) - 5 + (end - c) < 0
    ensures Best(a, b, d, r, s)
  {
    forall p | c < p <= d
      ensures Score(a, b, p) <= s
    {
      ScoreGrowsSlowly(a, b, c + 1, p);
      assert Score(a, b, c + 1) == Score(a, b, c) - 5;
    }
  }

  // ---- The comparison

  lemma LimitStep(a: seq<Byte>, b: seq<Byte>, c: nat)
    requires c < |a| && c < |b| && (a[c] == b[c] || 5 * Differences(a, b, c) + 5 < MAX_PENALTY_BYTES)
    ensures Limit(a, b, c) == Limit(a, b, c + 1)
  {
  }

  lemma BestStep(a: seq<Byte>, b: seq<Byte>, c: nat, r: nat, s: int)
    requires c < |a| && c < |b| && Best(a, b, c, r, s)
    ensures var t := Score(a, b, c + 1);
      if t > s then Best(a, b, c + 1, c + 1, t) else Best(a, b, c + 1, r, s)
  {
    hide Score;
  }

  lemma BestOfNothing(a: seq<Byte>, b: seq<Byte>)
    ensures Best(a, b, 0, 0, -1)
  {
  }

  /** Entries of a shorter prefix are a prefix of the entries. */
  lemma {:induction false} EntriesExtend(a: seq<Byte>, b: seq<Byte>, c: nat, d: nat)
    requires c <= d <= |a| && d <= |b|
    ensures |Entries(a, b, c)| <= |Entries(a, b, d)| && Entries(a, b, d)[..|Entries(a, b, c)|] == Entries(a, b, c)
    decreases d
  {
    hide PositionBytes;
    if c < d {
      EntriesExtend(a, b, c, d - 1);
    }
  }

  lemma BestEntries(a: seq<Byte>, b: seq<Byte>, c: nat, r: nat, s: int)
    requires c <= |a| && c <= |b| && Best(a, b, c, r, s)
    ensures r <= c && |Entries(a, b, r)| <= |Entries(a, b, c)|
    ensures Entries(a, b, c)[..|Entries(a, b, r)|] == Entries(a, b, r)
  {
    EntriesExtend(a, b, r, c);
  }

  /** What one more byte does to the score and to the entries. */
  lemma NextByte(a: seq<Byte>, b: seq<Byte>, c: nat)
    requires c < |a| && c < |b|
    ensures Score(a, b, c + 1) == Score(a, b, c) + (if a[c] != b[c] then -5 else 1)
    ensures Entries(a, b, c + 1)
         == if a[c] != b[c] then Entries(a, b, c) + (PositionBytes(c) + [a[c]]) else Entries(a, b, c)
  {
    hide PositionBytes;
    assert Entries(a, b, c) + [] == Entries(a, b, c);
  }

  class Comparison {
    var penaltyBytes: seq<Byte>
    var localPenaltyBytes: seq<Byte>
    var sameByteCount: nat
    var score: int
    var bestCount: nat
    var bestScore: int
    var bestLen: nat

    /** The state after comparing the first sameByteCount bytes. */
    ghost predicate Compared(a: seq<Byte>, b: seq<Byte>)
      reads this
    {
      && sameByteCount <= |a| && sameByteCount <= |b|
      && score == Score(a, b, sameByteCount)
      && localPenaltyBytes == Entries(a, b, sameByteCount)
      && Best(a, b, sameByteCount, bestCount, bestScore)
      && bestLen == |Entries(a, b, bestCount)|
      && Limit(a, b, 0) == Limit(a, b, sameByteCount)
    }

    /** Compares one more byte; false when the scan has to end. */
    method CompareByte(a: seq<Byte>, b: seq<Byte>, end: nat) returns (go: bool)
      requires Compared(a, b) && sameByteCount < |a| && sameByteCount < |b| && (|a| <= end || |b| <= end)
      modifies this`localPenaltyBytes, this`sameByteCount, this`score, this`bestCount, this`bestScore, this`bestLen
      ensures go ==> Compared(a, b) && sameByteCount == old(sameByteCount) + 1
      ensures !go ==> Stopped(a, b)
    {
      hide Limit; hide Best; hide PositionBytes; hide Entries; hide Score;
      ghost var c := sameByteCount;
      BestEntries(a, b, c, bestCount, bestScore);
      NextByte(a, b, c);
      if a[sameByteCount] != b[sameByteCount] {
        score := score - 5;
        if score + (end - sameByteCount) < 0 {
          LimitBounds(a, b, c);
          if c < Limit(a, b, c) {
            TooLow(a, b, c, end, bestCount, bestScore, Limit(a, b, c));
          }
          return false;
        }
        if |localPenaltyBytes| + 5 >= MAX_PENALTY_BYTES {
          LimitIsHere(a, b, c);
          return false;
        }
        localPenaltyBytes := localPenaltyBytes + (PositionBytes(sameByteCount) + [a[sameByteCount]]);
      } else {
        score := score + 1;
      }
      LimitStep(a, b, c);
      BestStep(a, b, c, bestCount, bestScore);
      sameByteCount := sameByteCount + 1;
      if score > bestScore {
        bestLen := |localPenaltyBytes|;
        bestCount := sameByteCount;
        bestScore := score;
      }
      return true;
    }

    /** Files are compared from pos1 and pos2 on; fromInput tells whether file1 is the input file. */
    method Compare(file1: seq<Byte>, file2: seq<Byte>, pos1: nat, pos2: nat, fromInput: bool) returns (r: nat)
      requires pos1 <= |file1| && pos2 <= |file2|
      modifies this
      ensures var a, b := file1[pos1..], file2[pos2..];
        && r <= |a| && r <= |b| && penaltyBytes == Entries(a, b, r)
        && exists s :: Best(a, b, Limit(a, b, 0), r, s)
    {
      hide Limit; hide Best; hide Entries; hide Score;
      var a, b := file1[pos1..], file2[pos2..];
      var end := if fromInput then |file2| else if |file1| < |file2| then |file1| else |file2|;
      localPenaltyBytes, sameByteCount, score := [], 0, 0;
      bestCount, bestScore, bestLen := 0, -1, 0;
      BestOfNothing(a, b);
      StartsCompared(a, b);
      var endNow, minsize, at := false, COMP_CHUNK, 0;
      while minsize == COMP_CHUNK && !endNow
        invariant 0 <= at <= |a| && at <= |b| && 0 <= minsize <= COMP_CHUNK
        invariant !endNow ==> Compared(a, b) && sameByteCount == at
        invariant !endNow && minsize < COMP_CHUNK ==> at == |a| || at == |b|
        invariant endNow ==> Stopped(a, b)
        decreases !endNow, |a| - at, minsize
      {
        var size1 := if |a| - at < COMP_CHUNK then |a| - at else COMP_CHUNK;
        var size2 := if |b| - at < COMP_CHUNK then |b| - at else COMP_CHUNK;
        minsize := if size1 < size2 then size1 else size2;
        var i := 0;
        while i < minsize && !endNow
          invariant 0 <= i <= minsize
          invariant !endNow ==> Compared(a, b) && sameByteCount == at + i
          invariant endNow ==> Stopped(a, b)
          decreases !endNow, minsize - i
        {
          var go := CompareByte(a, b, end);
          if go {
            i := i + 1;
          } else {
            endNow := true;
          }
        }
        at := at + minsize;
      }
      if !endNow {
        AllCompared(a, b);
      }
      penaltyBytes := localPenaltyBytes[..bestLen];
      return bestCount;
    }

    /** The scan is over: the best prefix is known, and its entries are at hand. */
    ghost predicate Stopped(a: seq<Byte>, b: seq<Byte>)
      reads this
    {
      && Best(a, b, Limit(a, b, 0), bestCount, bestScore)
      && bestCount <= |a| && bestCount <= |b|
      && bestLen <= |localPenaltyBytes| && localPenaltyBytes[..bestLen] == Entries(a, b, bestCount)
    }

    lemma StartsCompared(a: seq<Byte>, b: seq<Byte>)
      requires localPenaltyBytes == [] && sameByteCount == 0 && score == 0
      requires bestCount == 0 && bestScore == -1 && bestLen == 0
      ensures Compared(a, b)
    {
    }

    lemma AllCompared(a: seq<Byte>, b: seq<Byte>)
      requires Compared(a, b) && (sameByteCount == |a| || sameByteCount == |b|)
      ensures Stopped(a, b)
    {
      BestEntries(a, b, sameByteCount, bestCount, bestScore);
    }
  }

  lemma LimitBounds(a: seq<Byte>, b: seq<Byte>, c: nat)
    requires c <= |a| && c <= |b|
    ensures c <= Limit(a, b, c) <= |a| && Limit(a, b, c) <= |b|
  {
  }

  lemma LimitIsHere(a: seq<Byte>, b: seq<Byte>, c: nat)
    requires c < |a| && c < |b| && a[c] != b[c] && 5 * Differences(a, b, c) + 5 >= MAX_PENALTY_BYTES
    ensures Limit(a, b, c) == c
  {
  }

  // ---- The patch

  /** The output file and the position at which the next write goes. */
  datatype Disk = Disk(file: seq<Byte>, pos: nat)

  /** One entry: a seek before the start of the file fails and leaves the position where it was. */
  function WriteEntry(d: Disk, at: int, x: Byte): (e: Disk) {
    var pos: nat := if at < 0 then d.pos else at;
    Disk(if pos < |d.file| then d.file[pos := x] else d.file + Zeros(pos - |d.file|) + [x], pos + 1)
  }

  /** The decoder's loop: each byte is written at its position after `base`. */
  function Patch(d: Disk, base: nat, penalty: seq<Byte>): (e: Disk)
    requires |penalty| % 5 == 0
    decreases |penalty|
  {
    if penalty == [] then d
    else
      var n := |penalty| - 5;
      WriteEntry(Patch(d, base, penalty[..n]), base + PositionOf(penalty[n..n + 4]), penalty[n + 4])
  }

  method PatchLoop(file: seq<Byte>, base: nat, penalty: seq<Byte>) returns (out: seq<Byte>)
    requires |penalty| % 5 == 0
    ensures out == Patch(Disk(file, |file|), base, penalty).file
  {
    hide PositionOf;
    var pbc, pos: nat := 0, |file|;
    out := file;
    assert penalty[..0] == [];
    while pbc < |penalty|
      invariant 0 <= pbc <= |penalty| && pbc % 5 == 0
      invariant Disk(out, pos) == Patch(Disk(file, |file|), base, penalty[..pbc])
    {
      PatchNext(Disk(file, |file|), base, penalty, pbc);
      var at := base + PositionOf(penalty[pbc..pbc + 4]);
      if at >= 0 {
        pos := at;
      }
      if pos < |out| {
        out := out[pos := penalty[pbc + 4]];
      } else {
        out := out + Zeros(pos - |out|) + [penalty[pbc + 4]];
      }
      pos := pos + 1;
      pbc := pbc + 5;
    }
    assert penalty[..pbc] == penalty;
  }

  lemma PatchNext(d: Disk, base: nat, penalty: seq<Byte>, n: nat)
    requires |penalty| % 5 == 0 && n % 5 == 0 && n + 5 <= |penalty|
    ensures Patch(d, base, penalty[..n + 5])
         == WriteEntry(Patch(d, base, penalty[..n]), base + PositionOf(penalty[n..n + 4]), penalty[n + 4])
  {
    hide PositionOf; hide WriteEntry; hide Patch;
    var p := penalty[..n + 5];
    SlicesOfPrefix(penalty, n);
    assert |p| - 5 == n && p[n + 4] == penalty[n + 4];
    PatchLast(d, base, p);
  }

  lemma PatchLast(d: Disk, base: nat, p: seq<Byte>)
    requires p != [] && |p| % 5 == 0
    ensures var n := |p| - 5;
      Patch(d, base, p) == WriteEntry(Patch(d, base, p[..n]), base + PositionOf(p[n..n + 4]), p[n + 4])
  {
    hide PositionOf; hide WriteEntry;
  }

  lemma SlicesOfPrefix(s: seq<Byte>, n: nat)
    requires n + 5 <= |s|
    ensures s[..n + 5][..n] == s[..n] && s[..n + 5][n..n + 4] == s[n..n + 4]
  {
  }

  /** The disk after the entries for the first c positions are patched into pre + b[..r]. */
  function Patched(pre: seq<Byte>, a: seq<Byte>, b: seq<Byte>, r: nat, c: nat): (d: Disk)
    requires c <= r <= |a| && r <= |b|
  {
    Patch(Disk(pre + b[..r], |pre| + r), |pre|, Entries(a, b, c))
  }

  lemma PatchedStep(pre: seq<Byte>, a: seq<Byte>, b: seq<Byte>, r: nat, c: nat)
    requires c < r <= |a| && r <= |b|
    ensures var d := Patched(pre, a, b, r, c);
      Patched(pre, a, b, r, c + 1)
      == if a[c] != b[c] then WriteEntry(d, |pre| + PositionOf(PositionBytes(c)), a[c]) else d
  {
    hide PositionOf; hide PositionBytes; hide Patch; hide WriteEntry;
    var e, was := Entries(a, b, c + 1), Entries(a, b, c);
    if a[c] != b[c] {
      var n := |was|;
      assert e == was + (PositionBytes(c) + [a[c]]);
      assert e[..n] == was && e[n..n + 4] == PositionBytes(c) && e[..n + 5] == e;
      PatchNext(Disk(pre + b[..r], |pre| + r), |pre|, e, n);
    } else {
      assert e == was + [];
      assert e == was;
    }
  }

  lemma PatchedStart(pre: seq<Byte>, a: seq<Byte>, b: seq<Byte>, r: nat)
    requires r <= |a| && r <= |b|
    ensures Patched(pre, a, b, r, 0) == Disk(pre + b[..r], |pre| + r)
  {
  }

  /** No difference below c has a position of 2^31 or more. */
  predicate Near(a: seq<Byte>, b: seq<Byte>, c: nat)
    requires c <= |a| && c <= |b|
  {
    forall x :: 0x8000_0000 <= x < c ==> a[x] == b[x]
  }

  /** The seek to a position of 2^31 or more fails, and the byte before it has just been patched. */
  predicate Carried(n: nat, a: seq<Byte>, b: seq<Byte>, x: nat)
    requires 0 < x < |a| && x < |b|
  {
    n + x < 0x1_0000_0000 && a[x - 1] != b[x - 1]
  }

  /** Every difference at 2^31 or beyond is written at the right place because the write before it ended there. */
  predicate Chained(n: nat, a: seq<Byte>, b: seq<Byte>, c: nat)
    requires c <= |a| && c <= |b|
  {
    forall x :: 0x8000_0000 <= x < c && a[x] != b[x] ==> Carried(n, a, b, x)
  }

  /** Writing a[c] where it belongs. */
  lemma RightPlace(pre: seq<Byte>, a: seq<Byte>, b: seq<Byte>, r: nat, c: nat, d: Disk, at: int)
    requires c < r <= |a| && r <= |b| && d.file == pre + a[..c] + b[c..r]
    requires at == |pre| + c || (at < 0 && d.pos == |pre| + c)
    ensures WriteEntry(d, at, a[c]) == Disk(pre + a[..c + 1] + b[c + 1..r], |pre| + c + 1)
  {
    var s := d.file[|pre| + c := a[c]];
    assert b[c..r] == [b[c]] + b[c + 1..r] && a[..c + 1] == a[..c] + [a[c]];
    assert s == pre + a[..c + 1] + b[c + 1..r];
  }

  /** With every difference near or carried, all is repaired. */
  lemma {:induction false} ChainIsRepaired(pre: seq<Byte>, a: seq<Byte>, b: seq<Byte>, r: nat, c: nat)
    requires c <= r <= |a| && r <= |b| && Chained(|pre|, a, b, r)
    ensures Patched(pre, a, b, r, c).file == pre + a[..c] + b[c..r]
    ensures c > 0 && a[c - 1] != b[c - 1] ==> Patched(pre, a, b, r, c).pos == |pre| + c
    decreases c
  {
    hide PositionOf; hide PositionBytes; hide Patched; hide WriteEntry;
    if c == 0 {
      PatchedStart(pre, a, b, r);
      assert pre + a[..0] + b[0..r] == pre + b[..r];
    } else {
      var x := c - 1;
      ChainIsRepaired(pre, a, b, r, x);
      PatchedStep(pre, a, b, r, x);
      if a[x] != b[x] {
        PositionReadsBackIff(x);
        assert x >= 0x8000_0000 ==> Carried(|pre|, a, b, x);
        RightPlace(pre, a, b, r, x, Patched(pre, a, b, r, x), |pre| + PositionOf(PositionBytes(x)));
      } else {
        assert b[x..r] == [b[x]] + b[c..r] && a[..c] == a[..x] + [a[x]];
        assert pre + a[..x] + b[x..r] == pre + a[..c] + b[c..r];
      }
    }
  }

  /** No write runs ahead: what lies beyond position c is untouched by the entries before c. */
  lemma {:induction false} AheadIsKept(pre: seq<Byte>, a: seq<Byte>, b: seq<Byte>, r: nat, c: nat, x: nat)
    requires c <= x < r <= |a| && r <= |b|
    ensures var d := Patched(pre, a, b, r, c);
      && |d.file| >= |pre| + r && d.file[|pre| + x] == b[x]
      && (d.pos <= |pre| + c || d.pos >= |pre| + r)
    decreases c
  {
    hide PositionOf; hide PositionBytes; hide Patched;
    if c == 0 {
      PatchedStart(pre, a, b, r);
    } else {
      AheadIsKept(pre, a, b, r, c - 1, x);
      PatchedStep(pre, a, b, r, c - 1);
      PositionReadsBackIff(c - 1);
    }
  }

  /** The entry for position x was written where x is. */
  predicate InPlace(pre: seq<Byte>, a: seq<Byte>, b: seq<Byte>, r: nat, x: nat)
    requires x < r <= |a| && r <= |b|
  {
    a[x] != b[x] && Patched(pre, a, b, r, x + 1).pos == |pre| + x + 1
  }

  /** A far entry is in place only if the one before it is, and its seek failed. */
  lemma FarInPlace(pre: seq<Byte>, a: seq<Byte>, b: seq<Byte>, r: nat, x: nat)
    requires 0x8000_0000 <= x < r <= |a| && r <= |b| && InPlace(pre, a, b, r, x)
    ensures InPlace(pre, a, b, r, x - 1) && |pre| + PositionOf(PositionBytes(x)) < 0
  {
    hide PositionOf; hide PositionBytes; hide Patched;
    PatchedStep(pre, a, b, r, x);
    PositionReadsBackIff(x);
    PatchedStep(pre, a, b, r, x - 1);
    AheadIsKept(pre, a, b, r, x - 1, x);
  }

  /** Then every far difference up to it is carried. */
  lemma {:induction false} InPlaceIsChained(pre: seq<Byte>, a: seq<Byte>, b: seq<Byte>, r: nat, x: nat)
    requires x < r <= |a| && r <= |b| && InPlace(pre, a, b, r, x)
    ensures Chained(|pre|, a, b, x + 1)
    decreases x
  {
    hide PositionOf; hide PositionBytes; hide Patched;
    if x >= 0x8000_0000 {
      FarInPlace(pre, a, b, r, x);
      InPlaceIsChained(pre, a, b, r, x - 1);
      PositionReadsBackIff(x);
      assert x - 1 >= 0x8000_0000 ==> Carried(|pre|, a, b, x - 1);
      assert Carried(|pre|, a, b, x);
    }
  }

  /** Nothing is patched after the last difference. */
  lemma {:induction false} PatchedRest(pre: seq<Byte>, a: seq<Byte>, b: seq<Byte>, r: nat, c: nat)
    requires c <= r <= |a| && r <= |b| && forall x :: c <= x < r ==> a[x] == b[x]
    ensures Patched(pre, a, b, r, r) == Patched(pre, a, b, r, c)
    decreases r - c
  {
    hide PositionOf; hide PositionBytes; hide Patched;
    if c < r {
      PatchedStep(pre, a, b, r, c);
      PatchedRest(pre, a, b, r, c + 1);
    }
  }

  /** The last difference is repaired only by its own entry. */
  lemma LastInPlace(pre: seq<Byte>, a: seq<Byte>, b: seq<Byte>, r: nat, x: nat)
    requires x < r <= |a| && r <= |b| && a[x] != b[x] && forall y :: x < y < r ==> a[y] == b[y]
    requires Patched(pre, a, b, r, r).file == pre + a[..r]
    ensures InPlace(pre, a, b, r, x)
  {
    hide PositionOf; hide PositionBytes; hide Patched;
    PatchedRest(pre, a, b, r, x + 1);
    AheadIsKept(pre, a, b, r, x, x);
    PatchedStep(pre, a, b, r, x);
    assert (pre + a[..r])[|pre| + x] == a[x];
  }

  /** The last difference below c, if there is one. */
  lemma {:induction false} LastDifference(a: seq<Byte>, b: seq<Byte>, c: nat) returns (x: nat)
    requires c <= |a| && c <= |b| && exists y :: 0 <= y < c && a[y] != b[y]
    ensures x < c && a[x] != b[x] && forall y :: x < y < c ==> a[y] == b[y]
    decreases c
  {
    if a[c - 1] != b[c - 1] {
      x := c - 1;
    } else {
      x := LastDifference(a, b, c - 1);
    }
  }

  /**
   The whole file after patching is the one before the stream followed by the original
   bytes exactly if every difference at 2^31 or beyond is carried.
   */
  lemma PatchRestoresIff(pre: seq<Byte>, a: seq<Byte>, b: seq<Byte>, r: nat)
    requires r <= |a| && r <= |b|
    ensures Patch(Disk(pre + b[..r], |pre| + r), |pre|, Entries(a, b, r)).file == pre + a[..r]
       <==> Chained(|pre|, a, b, r)
  {
    hide Patch; hide Entries; hide Carried;
    if Chained(|pre|, a, b, r) {
      ChainIsRepaired(pre, a, b, r, r);
      assert pre + a[..r] + b[r..r] == pre + a[..r];
    } else if Patched(pre, a, b, r, r).file == pre + a[..r] {
      var x := LastDifference(a, b, r);
      LastInPlace(pre, a, b, r, x);
      InPlaceIsChained(pre, a, b, r, x);
    }
  }

  /** Behind at least 2^31 bytes, where no seek fails, that is: exactly if no difference lies there. */
  lemma ChainedIsNear(n: nat, a: seq<Byte>, b: seq<Byte>, r: nat)
    requires r <= |a| && r <= |b|
    ensures Near(a, b, r) ==> Chained(n, a, b, r)
    ensures n >= 0x8000_0000 ==> (Chained(n, a, b, r) <==> Near(a, b, r))
  {
  }
}
