/**
 Level 1 of `LZBuffer`: variable-length LZ77 codes packed into bits, and the reading of
 such a bit string by the states of the `lazy2` post-processor.

 The reading is given twice.  `Meaning` reads a whole bit string at once.  The machine
 itself (module Lazy2) is fed one byte at a time and stops wherever it runs out of bits;
 it is shown to compute `Meaning`.
 */
module BitPackedLz {
  import opened Arith
  import opened Bytes
  import opened Wrappers
  import opened Bits
  import opened Lz77

  const U32MAX1 := 0x1_0000_0000

  /** The state register r1 with the registers that are live in it, and the output so far. */
  datatype Dec =
    | Start(buf: seq<Byte>)                                   // 0: expect a new code
    | Length(len: nat, m: nat, buf: seq<Byte>)                // 1: expect match length
    | LowBits(len: nat, m: nat, buf: seq<Byte>)               // 5: expect low bits of offset
    | Offset(len: nat, m: nat, r: nat, buf: seq<Byte>)        // 2: expect m offset bits
    | RunLength(len: nat, buf: seq<Byte>)                     // 3: expect literal length
    | Run(len: nat, buf: seq<Byte>)                           // 4: expect len literals

  /** Registers hold 32 bits. */
  function Wrap(x: nat): (r: nat)
    ensures r < U32MAX1 && (x < U32MAX1 ==> r == x)
  {
    x % U32MAX1
  }

  function Bit(b: bool): nat { if b then 1 else 0 }

  /** The distance coded by `m` bits of value `q`, with `r` in the low `rb` bits. */
  function Distance(rb: nat, m: nat, q: nat, r: nat): (off: int) {
    (q + Pow2(m)) * Pow2(rb) + r - (Pow2(rb) - 1)
  }

  /** One transition, if the bits suffice for it and it stays within the output written. */
  function Next(rb: nat, d: Dec, q: Bits): (o: Option<(Dec, Bits)>) {
    match d
    case Start(buf) =>
      if |q| < 8 then None
      else
        var mm := Val(q[..2]);
        if mm > 0 then Some((Length(1, (mm - 1) * 8 + Val(q[2..5]), buf), q[5..]))
        else Some((RunLength(1, buf), q[2..]))
    case Length(len, m, buf) =>
      if |q| < 3 then None
      else if q[0] then Some((Length(Wrap(2 * len + Bit(q[1])), m, buf), q[2..]))
      else
        var len' := Wrap(4 * len + Val(q[1..3]));
        Some((if rb > 0 then LowBits(len', m, buf) else Offset(len', m, 0, buf), q[3..]))
    case LowBits(len, m, buf) =>
      if |q| < rb then None else Some((Offset(len, m, Val(q[..rb]), buf), q[rb..]))
    case Offset(len, m, r, buf) =>
      if |q| < m then None
      else
        var off := Distance(rb, m, Val(q[..m]), r);
        if 1 <= off <= |buf| then Some((Start(CopyMatch(buf, len, off)), q[m..])) else None
    case RunLength(len, buf) =>
      if |q| < 2 then None
      else if q[0] then Some((RunLength(Wrap(2 * len + Bit(q[1])), buf), q[2..]))
      else Some((Run(len, buf), q[1..]))
    case Run(len, buf) =>
      if |q| < 8 then None
      else
        ByteVal(q[..8]);
        var len' := Wrap(len + U32MAX1 - 1);
        Some((if len' == 0 then Start(buf + [Val(q[..8])]) else Run(len', buf + [Val(q[..8])]), q[8..]))
  }

  lemma ByteVal(q: Bits)
    requires |q| == 8
    ensures Val(q) < 256
  {
    ValBound(q);
    assert Pow2(8) == 256;
  }

  lemma {:induction false} ValBound(q: Bits)
    ensures Val(q) < Pow2(|q|)
  {
    if q != [] {
      ValBound(q[1..]);
    }
  }

  function Rank(d: Dec): nat {
    match d
    case Start(_) => 0
    case Offset(_, _, _, _) => 1
    case LowBits(_, _, _) => 2
    case _ => 3
  }

  /** Reads all codes; fewer than eight bits before a new code are padding. */
  function Meaning(rb: nat, d: Dec, q: Bits): (o: Option<seq<Byte>>)
    decreases |q|, Rank(d)
  {
    if d.Start? && |q| < 8 then Some(d.buf)
    else
      match Next(rb, d, q)
      case None => None
      case Some((d', q')) => Meaning(rb, d', q')
  }

  /** A transition made on the bits at hand is the one made with more bits behind them. */
  lemma NextExtends(rb: nat, d: Dec, q: Bits, more: Bits)
    requires Next(rb, d, q).Some?
    ensures var (d', q') := Next(rb, d, q).value; Next(rb, d, q + more) == Some((d', q' + more))
  {
    hide Val; hide CopyMatch; hide Distance; hide Wrap; hide Bit; hide Pow2;
    match d
    case Start(_) => Cut(q, more, 0, 2); Cut(q, more, 2, 5); Cut(q, more, 5, 5);
    case Length(_, _, _) => Cut(q, more, 1, 3); Cut(q, more, 2, 2); Cut(q, more, 3, 3);
    case LowBits(_, _, _) => Cut(q, more, 0, rb); Cut(q, more, rb, rb);
    case Offset(_, m, _, _) => Cut(q, more, 0, m); Cut(q, more, m, m);
    case RunLength(_, _) => Cut(q, more, 1, 1); Cut(q, more, 2, 2);
    case Run(_, _) => Cut(q, more, 0, 8); Cut(q, more, 8, 8);
  }

  lemma Cut(q: Bits, more: Bits, i: nat, j: nat)
    requires i <= j <= |q|
    ensures (q + more)[i..j] == q[i..j] && (q + more)[i..] == q[i..] + more
    ensures i == 0 ==> (q + more)[..j] == q[..j]
  {
  }

  lemma MeaningOfNext(rb: nat, d: Dec, q: Bits, more: Bits)
    requires Next(rb, d, q).Some?
    ensures Meaning(rb, d, q + more) == var (d', q') := Next(rb, d, q).value; Meaning(rb, d', q' + more)
  {
    hide Next;
    NextExtends(rb, d, q, more);
    StartNeedsEight(rb, d, q);
  }

  lemma StartNeedsEight(rb: nat, d: Dec, q: Bits)
    requires Next(rb, d, q).Some?
    ensures d.Start? ==> |q| >= 8
  {
  }

  // ---- The codes

  /** Interleaved Elias gamma code: every bit below the leading 1, each behind a 1. */
  function Gamma(x: nat): (s: Bits)
    ensures |s| % 2 == 0
    decreases x
  {
    if x <= 1 then [] else Gamma(x / 2) + [true, x % 2 == 1]
  }

  /** `lg(x)`: the number of bits of x. */
  function Lg(x: nat): (k: nat)
    ensures x < Pow2(k) && (x > 0 ==> k > 0 && Pow2(k - 1) <= x)
  {
    if x == 0 then 0 else 1 + Lg(x / 2)
  }

  /** 00, length, literals */
  function LiteralCode(bytes: seq<Byte>): (s: Bits) {
    [false, false] + Gamma(|bytes|) + [false] + Unpack(bytes)
  }

  /** The offset as coded, and the number of its bits written behind the implied 1. */
  function Shifted(rb: nat, off: nat): nat { off + Pow2(rb) - 1 }

  function OffsetBits(rb: nat, off: nat): int { Lg(Shifted(rb, off)) - 1 - rb }

  /** mm, mmm, n, ll, r, q */
  function MatchCode(rb: nat, len: nat, off: nat): (s: Bits)
    requires OffsetBits(rb, off) >= 0
  {
    var lo := OffsetBits(rb, off);
    Field((lo + 8) / 8, 2) + Field(lo % 8, 3)
    + Gamma(len / 4) + [false] + Field(len % 4, 2)
    + Field(Shifted(rb, off), rb) + Field(Shr(Shifted(rb, off), rb), lo)
  }

  /** Literal runs are not empty; matches have length at least 4 and an offset of at most 24+rb bits. */
  predicate Codable(rb: nat, item: Item) {
    match item
    case Literals(bytes) => 0 < |bytes| < U32MAX1
    case Match(len, off) => 4 <= len < U32MAX1 && off >= 1 && Shifted(rb, off) < Pow2(24 + rb)
  }

  lemma OffsetBitsRange(rb: nat, off: nat)
    requires off >= 1 && Shifted(rb, off) < Pow2(24 + rb)
    ensures 0 <= OffsetBits(rb, off) <= 23
    ensures Pow2(OffsetBits(rb, off) + rb) <= Shifted(rb, off) < Pow2(OffsetBits(rb, off) + rb + 1)
  {
    var k := Lg(Shifted(rb, off));
    if k > 24 + rb { PowGrows(24 + rb, k - 1); }
    if k < rb + 1 { PowGrows(k, rb); }
  }

  lemma {:induction false} PowGrows(a: nat, b: nat)
    requires a <= b
    ensures Pow2(a) <= Pow2(b)
    decreases b - a
  {
    if a < b {
      PowGrows(a, b - 1);
    }
  }

  function Code(rb: nat, item: Item): (s: Bits)
    requires Codable(rb, item)
  {
    match item
    case Literals(bytes) => LiteralCode(bytes)
    case Match(len, off) => OffsetBitsRange(rb, off); MatchCode(rb, len, off)
  }

  function Codes(rb: nat, items: seq<Item>): (s: Bits)
    requires forall i :: 0 <= i < |items| ==> Codable(rb, items[i])
  {
    if items == [] then [] else Code(rb, items[0]) + Codes(rb, items[1..])
  }

  // ---- Reading undoes coding

  lemma OneStep(rb: nat, d: Dec, q: Bits, d': Dec, q': Bits)
    requires Next(rb, d, q) == Some((d', q'))
    ensures Meaning(rb, d, q) == Meaning(rb, d', q')
  {
    StartNeedsEight(rb, d, q);
  }

  lemma {:induction false} ReadRunLength(rb: nat, x: nat, buf: seq<Byte>, rest: Bits)
    requires 1 <= x < U32MAX1
    ensures Meaning(rb, RunLength(1, buf), Gamma(x) + rest) == Meaning(rb, RunLength(x, buf), rest)
    decreases x
  {
    hide Meaning;
    if x == 1 {
      assert Gamma(x) + rest == rest;
    } else {
      var pair := [true, x % 2 == 1];
      ReadRunLength(rb, x / 2, buf, pair + rest);
      assert Gamma(x) + rest == Gamma(x / 2) + (pair + rest);
      assert (pair + rest)[2..] == rest;
      OneStep(rb, RunLength(x / 2, buf), pair + rest, RunLength(x, buf), rest);
    }
  }

  lemma {:induction false} ReadLength(rb: nat, x: nat, m: nat, buf: seq<Byte>, rest: Bits)
    requires 1 <= x < U32MAX1 && rest != []
    ensures Meaning(rb, Length(1, m, buf), Gamma(x) + rest) == Meaning(rb, Length(x, m, buf), rest)
    decreases x
  {
    hide Meaning;
    if x == 1 {
      assert Gamma(x) + rest == rest;
    } else {
      var pair := [true, x % 2 == 1];
      ReadLength(rb, x / 2, m, buf, pair + rest);
      assert Gamma(x) + rest == Gamma(x / 2) + (pair + rest);
      assert (pair + rest)[2..] == rest;
      OneStep(rb, Length(x / 2, m, buf), pair + rest, Length(x, m, buf), rest);
    }
  }

  lemma {:induction false} ReadRun(rb: nat, bytes: seq<Byte>, buf: seq<Byte>, rest: Bits)
    requires 0 < |bytes| < U32MAX1
    ensures Meaning(rb, Run(|bytes|, buf), Unpack(bytes) + rest) == Meaning(rb, Start(buf + bytes), rest)
    decreases |bytes|
  {
    hide Meaning; hide Field; hide Val;
    var q := Unpack(bytes) + rest;
    var b := bytes[0];
    assert Pow2(8) == 256;
    ValSmall(b, 8);
    assert q[..8] == Field(b, 8) && q[8..] == Unpack(bytes[1..]) + rest;
    Predecessor(|bytes|);
    if |bytes| == 1 {
      assert bytes == [b] && Unpack(bytes[1..]) + rest == rest;
      OneStep(rb, Run(1, buf), q, Start(buf + [b]), rest);
    } else {
      OneStep(rb, Run(|bytes|, buf), q, Run(|bytes| - 1, buf + [b]), q[8..]);
      ReadRun(rb, bytes[1..], buf + [b], rest);
      assert buf + [b] + bytes[1..] == buf + bytes;
    }
  }

  lemma Predecessor(n: nat)
    requires 0 < n < U32MAX1
    ensures Wrap(n + U32MAX1 - 1) == n - 1
  {
  }

  lemma ReadLiterals(rb: nat, bytes: seq<Byte>, buf: seq<Byte>, rest: Bits)
    requires 0 < |bytes| < U32MAX1
    ensures Meaning(rb, Start(buf), LiteralCode(bytes) + rest) == Meaning(rb, Start(buf + bytes), rest)
  {
    hide Meaning; hide Gamma; hide Unpack;
    var run := [false] + (Unpack(bytes) + rest);
    var q := LiteralCode(bytes) + rest;
    assert q == [false, false] + (Gamma(|bytes|) + run);
    assert q[2..] == Gamma(|bytes|) + run;
    assert q[..2] == [false, false] && Val([false, false]) == 0;
    OneStep(rb, Start(buf), q, RunLength(1, buf), q[2..]);
    ReadRunLength(rb, |bytes|, buf, run);
    assert run[1..] == Unpack(bytes) + rest;
    OneStep(rb, RunLength(|bytes|, buf), run, Run(|bytes|, buf), run[1..]);
    ReadRun(rb, bytes, buf, rest);
  }

  /** The distance read back is the offset written. */
  lemma DistanceIsOffset(rb: nat, off: nat)
    requires off >= 1 && Shifted(rb, off) < Pow2(24 + rb)
    ensures var x, lo := Shifted(rb, off), OffsetBits(rb, off);
      lo >= 0 && Distance(rb, lo, Val(Field(Shr(x, rb), lo)), Val(Field(x, rb))) == off
  {
    hide Pow2; hide Lg; hide Field; hide Val; hide Shr; hide OffsetBits;
    var x, lo := Shifted(rb, off), OffsetBits(rb, off);
    OffsetBitsRange(rb, off);
    var p, l, y, r := Pow2(rb), Pow2(lo), Shr(x, rb), x % Pow2(rb);
    ShrDivides(x, rb);
    ValField(x, rb);
    PowAdd(lo, rb);
    PowNext(lo + rb);
    OffsetParts(off, x, p, l, y, r);
    ValField(y, lo);
  }

  /** The offset from its low part r and its high part y, whose top bit is worth l. */
  lemma OffsetParts(off: nat, x: nat, p: nat, l: nat, y: nat, r: nat)
    requires p >= 1 && l >= 1 && r == x % p && y == x / p && x == off + p - 1 && l * p <= x < 2 * (l * p)
    ensures y % l == y - l && (y % l + l) * p + r - (p - 1) == off
  {
    assert x == y * p + r;
    assert 2 * l * p == 2 * (l * p);
    HighPart(y, r, p, l);
    TopOff(y, l);
    assert y % l + l == y;
  }

  lemma TopOff(y: nat, l: nat)
    requires l <= y < 2 * l
    ensures y % l == y - l
  {
    Quotient(y, l, 1, y - l);
  }

  lemma PowNext(k: nat)
    ensures Pow2(k + 1) == 2 * Pow2(k)
  {
  }

  lemma HighPart(y: nat, r: nat, p: nat, l: nat)
    requires p >= 1 && r < p && l * p <= y * p + r < 2 * l * p
    ensures l <= y < 2 * l
  {
    Distribute(l, y, p);
    MultipleIsFar(l - y, p);
    Distribute(y, 2 * l, p);
    MultipleIsFar(y - 2 * l + 1, p);
    Distribute(y + 1, 2 * l, p);
    assert y >= 2 * l ==> (y - 2 * l) * p >= 0;
  }

  lemma {:induction false} PowAdd(a: nat, b: nat)
    ensures Pow2(a + b) == Pow2(a) * Pow2(b)
    decreases a
  {
    if a > 0 {
      PowAdd(a - 1, b);
      assert 2 * Pow2(a - 1) * Pow2(b) == 2 * (Pow2(a - 1) * Pow2(b));
    }
  }

  lemma ReadMatch(rb: nat, len: nat, off: nat, buf: seq<Byte>, rest: Bits)
    requires Codable(rb, Match(len, off)) && off <= |buf|
    ensures OffsetBits(rb, off) >= 0
    ensures Meaning(rb, Start(buf), MatchCode(rb, len, off) + rest)
         == Meaning(rb, Start(CopyMatch(buf, len, off)), rest)
  {
    hide Meaning; hide Gamma; hide Field; hide Val; hide CopyMatch; hide Distance;
    OffsetBitsRange(rb, off);
    var lo, x := OffsetBits(rb, off), Shifted(rb, off);
    var high := Field(Shr(x, rb), lo) + rest;
    var low := Field(x, rb) + high;
    var ll := [false] + (Field(len % 4, 2) + low);
    var q := MatchCode(rb, len, off) + rest;
    assert q == Field((lo + 8) / 8, 2) + (Field(lo % 8, 3) + (Gamma(len / 4) + ll));
    ReadHead(rb, lo, buf, Gamma(len / 4) + ll, q);
    ReadLength(rb, len / 4, lo, buf, ll);
    ReadTail(rb, len, lo, buf, low, ll);
    if rb > 0 {
      assert low[..rb] == Field(x, rb) && low[rb..] == high;
      OneStep(rb, LowBits(len, lo, buf), low, Offset(len, lo, Val(Field(x, rb)), buf), high);
    } else {
      assert low == high && Field(x, rb) == [];
      NoBits();
    }
    DistanceIsOffset(rb, off);
    assert high[..lo] == Field(Shr(x, rb), lo) && high[lo..] == rest;
    OneStep(rb, Offset(len, lo, Val(Field(x, rb)), buf), high, Start(CopyMatch(buf, len, off)), rest);
  }

  lemma NoBits()
    ensures Val([]) == 0
  {
  }

  lemma ReadHead(rb: nat, lo: nat, buf: seq<Byte>, rest: Bits, q: Bits)
    requires lo <= 23 && |rest| >= 3
    requires q == Field((lo + 8) / 8, 2) + (Field(lo % 8, 3) + rest)
    ensures Meaning(rb, Start(buf), q) == Meaning(rb, Length(1, lo, buf), rest)
  {
    hide Meaning; hide Field; hide Val;
    assert Pow2(2) == 4 && Pow2(3) == 8;
    ValSmall((lo + 8) / 8, 2);
    ValSmall(lo % 8, 3);
    assert q[..2] == Field((lo + 8) / 8, 2) && q[2..5] == Field(lo % 8, 3) && q[5..] == rest;
    OneStep(rb, Start(buf), q, Length(1, lo, buf), rest);
  }

  lemma ReadTail(rb: nat, len: nat, m: nat, buf: seq<Byte>, rest: Bits, q: Bits)
    requires len < U32MAX1 && q == [false] + (Field(len % 4, 2) + rest)
    ensures Meaning(rb, Length(len / 4, m, buf), q)
         == Meaning(rb, if rb > 0 then LowBits(len, m, buf) else Offset(len, m, 0, buf), rest)
  {
    hide Meaning; hide Field; hide Val;
    assert Pow2(2) == 4;
    ValSmall(len % 4, 2);
    assert q[1..3] == Field(len % 4, 2) && q[3..] == rest;
    OneStep(rb, Length(len / 4, m, buf), q, if rb > 0 then LowBits(len, m, buf) else Offset(len, m, 0, buf), rest);
  }

  /** Every code read from its start means its item, whatever follows. */
  lemma ReadItem(rb: nat, item: Item, buf: seq<Byte>, rest: Bits)
    requires Codable(rb, item) && Fits(buf, item)
    ensures Meaning(rb, Start(buf), Code(rb, item) + rest) == Meaning(rb, Start(Apply(buf, item)), rest)
  {
    match item
    case Literals(bytes) => ReadLiterals(rb, bytes, buf, rest);
    case Match(len, off) => ReadMatch(rb, len, off, buf, rest);
  }

  lemma PadMeansNothing(rb: nat, buf: seq<Byte>, pad: Bits)
    requires |pad| < 8
    ensures Meaning(rb, Start(buf), pad) == Some(buf)
  {
    if Next(rb, Start(buf), pad).Some? {
      StartNeedsEight(rb, Start(buf), pad);
    }
  }

  /** The meaning of a coded item list with any padding of fewer than eight bits is what it rebuilds. */
  lemma {:induction false} CodesMean(rb: nat, items: seq<Item>, buf: seq<Byte>, target: seq<Byte>, pad: Bits)
    requires (forall i :: 0 <= i < |items| ==> Codable(rb, items[i])) && Rebuilds(buf, items, target) && |pad| < 8
    ensures Meaning(rb, Start(buf), Codes(rb, items) + pad) == Some(target)
    decreases |items|
  {
    hide Code; hide Apply; hide Meaning; hide Codable;
    if items == [] {
      assert Codes(rb, items) + pad == pad;
      PadMeansNothing(rb, buf, pad);
    } else {
      assert forall i :: 0 <= i < |items[1..]| ==> Codable(rb, items[1..][i]);
      assert Codes(rb, items) + pad == Code(rb, items[0]) + (Codes(rb, items[1..]) + pad);
      ReadItem(rb, items[0], buf, Codes(rb, items[1..]) + pad);
      CodesMean(rb, items[1..], Apply(buf, items[0]), target, pad);
    }
  }
}
