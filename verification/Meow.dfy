/**
 Meow hash: the one-shot `MeowHash` over memory and the streaming `meow_state`, both proved
 against one reference, `Hash`, that is a function of the message alone.  The 128-bit
 operations (AES round, 64-bit lane addition, exclusive or, and the reading of 16 bytes as a
 register) are arbitrary functions.
 */
module Meow {
  import opened Bytes
  import Arith

  datatype Ops<!T> = Ops(aesdec: (T, T) -> T, paddq: (T, T) -> T, pxor: (T, T) -> T, load: seq<Byte> -> T)

  /** `MEOW_MIX_REG` on the lanes k, k+4, k+6, k+1, k+2. */
  function MixReg<T>(o: Ops<T>, l: seq<T>, k: nat, i1: T, i2: T, i3: T, i4: T): (m: seq<T>)
    requires |l| == 8
    ensures |m| == 8
  {
    var r1, r2, r3, r4, r5 := k % 8, (k + 4) % 8, (k + 6) % 8, (k + 1) % 8, (k + 2) % 8;
    var l := l[r1 := o.aesdec(l[r1], l[r2])];
    var l := l[r3 := o.paddq(l[r3], i1)];
    var l := l[r2 := o.pxor(l[r2], i2)];
    var l := l[r2 := o.aesdec(l[r2], l[r4])];
    var l := l[r5 := o.paddq(l[r5], i3)];
    l[r4 := o.pxor(l[r4], i4)]
  }

  /** `MEOW_MIX` of 32 bytes. */
  function Mix<T>(o: Ops<T>, l: seq<T>, k: nat, b: seq<Byte>): (m: seq<T>)
    requires |l| == 8 && |b| == 32
    ensures |m| == 8
  {
    MixReg(o, l, k, o.load(b[15..31]), o.load(b[..16]), o.load(b[1..17]), o.load(b[16..]))
  }

  /** `palignr(a, b, n)` */
  function AlignRight(a: seq<Byte>, b: seq<Byte>, n: nat): (r: seq<Byte>)
    requires |a| == |b| == 16 && n <= 16
    ensures |r| == 16
  {
    (b + a)[n..n + 16]
  }

  /** The mixing of the residual and of the length, each 32 bytes. */
  function Append<T>(o: Ops<T>, l: seq<T>, k: nat, b: seq<Byte>): (m: seq<T>)
    requires |l| == 8 && |b| == 32
    ensures |m| == 8
  {
    var swapped := b[16..] + b[..16];
    MixReg(o, l, k, o.load(swapped[15..31]), o.load(b[..16]), o.load(swapped[1..17]), o.load(b[16..]))
  }

  /** All whole 32-byte pieces of b, on successive lanes from k. */
  function Pieces<T>(o: Ops<T>, l: seq<T>, k: nat, b: seq<Byte>): (m: seq<T>)
    requires |l| == 8
    ensures |m| == 8
    decreases |b|
  {
    if |b| < 32 then l else Pieces(o, Mix(o, l, k, b[..32]), (k + 1) % 8, b[32..])
  }

  /** `MEOW_SHUFFLE` on the lanes k, k+1, k+2, k+4, k+5, k+6. */
  function Shuffle<T>(o: Ops<T>, l: seq<T>, k: nat): (m: seq<T>)
    requires |l| == 8
    ensures |m| == 8
  {
    var r1, r2, r3, r4, r5, r6 := k % 8, (k + 1) % 8, (k + 2) % 8, (k + 4) % 8, (k + 5) % 8, (k + 6) % 8;
    var l := l[r1 := o.aesdec(l[r1], l[r4])];
    var l := l[r2 := o.paddq(l[r2], l[r5])];
    var l := l[r4 := o.pxor(l[r4], l[r6])];
    var l := l[r4 := o.aesdec(l[r4], l[r2])];
    var l := l[r5 := o.paddq(l[r5], l[r6])];
    l[r2 := o.pxor(l[r2], l[r3])]
  }

  /** n shuffles. */
  function Shuffles<T>(o: Ops<T>, l: seq<T>, n: nat): (m: seq<T>)
    requires |l| == 8
    ensures |m| == 8
  {
    if n == 0 then l else Shuffle(o, Shuffles(o, l, n - 1), n - 1)
  }

  function Fold<T>(o: Ops<T>, l: seq<T>): (r: T)
    requires |l| == 8
  {
    o.paddq(o.pxor(o.paddq(l[0], l[2]), o.paddq(l[1], l[3])), o.pxor(o.paddq(l[4], l[6]), o.paddq(l[5], l[7])))
  }

  /** n as little-endian bytes, wrapped to that size. */
  function Little(n: nat, size: nat): (b: seq<Byte>)
    ensures |b| == size
  {
    if size == 0 then [] else [n % 256] + Little(n / 256, size - 1)
  }

  function SeedLanes<T>(o: Ops<T>, seed: seq<Byte>): (l: seq<T>)
    requires |seed| == 128
    ensures |l| == 8
  {
    [o.load(seed[..16]), o.load(seed[16..32]), o.load(seed[32..48]), o.load(seed[48..64]),
     o.load(seed[64..80]), o.load(seed[80..96]), o.load(seed[96..112]), o.load(seed[112..])]
  }

  /** The last |m| % 32 bytes of m, padded with zeros. */
  function Residual(m: seq<Byte>): (b: seq<Byte>)
    ensures |b| == 32
  {
    m[|m| - |m| % 32..] + Zeros(32 - |m| % 32)
  }

  /** How much of an n-byte message is in whole 256-byte blocks. */
  function Whole(n: nat): (w: nat)
    ensures w <= n && w % 256 == 0 && n - w == n % 256
  {
    n / 256 * 256
  }

  /** From the lanes after all whole blocks: what is left of m and its length. */
  function Ending<T>(o: Ops<T>, l: seq<T>, rest: seq<Byte>, length: nat): (m: seq<T>)
    requires |l| == 8
    ensures |m| == 8
  {
    var l := Append(o, l, 0, Residual(rest));
    var l := Append(o, l, 1, Zeros(16) + (Little(length, 8) + Zeros(8)));
    var l := Pieces(o, l, 2, rest);
    Shuffles(o, l, 12)
  }

  /** The eight lanes that the hash is folded from; `MeowEnd` can also store them. */
  function Lanes<T>(o: Ops<T>, seed: seq<Byte>, m: seq<Byte>): (l: seq<T>)
    requires |seed| == 128
    ensures |l| == 8
  {
    Ending(o, Pieces(o, SeedLanes(o, seed), 0, m[..Whole(|m|)]), m[Whole(|m|)..], |m|)
  }

  function Hash<T>(o: Ops<T>, seed: seq<Byte>, m: seq<Byte>): (r: T)
    requires |seed| == 128
  {
    Fold(o, Lanes(o, seed, m))
  }

  lemma LaneAfter(k: nat, n: nat)
    requires k < 8 && n >= 32
    ensures ((k + 1) % 8 + (n - 32) / 32) % 8 == (k + n / 32) % 8
  {
    var m := n / 32;
    Arith.Quotient(n - 32, 32, m - 1, n % 32);
    if k == 7 {
      Arith.Quotient(k + m, 8, (m - 1) / 8 + 1, (m - 1) % 8);
    }
  }

  lemma {:induction false} PiecesAppend<T>(o: Ops<T>, l: seq<T>, k: nat, a: seq<Byte>, b: seq<Byte>)
    requires |l| == 8 && k < 8 && |a| % 32 == 0
    ensures Pieces(o, l, k, a + b) == Pieces(o, Pieces(o, l, k, a), (k + |a| / 32) % 8, b)
    decreases |a|
  {
    hide Mix;
    if a == [] {
      assert a + b == b;
    } else {
      assert (a + b)[..32] == a[..32] && (a + b)[32..] == a[32..] + b;
      LaneAfter(k, |a|);
      PiecesAppend(o, Mix(o, l, k, a[..32]), (k + 1) % 8, a[32..], b);
    }
  }

  lemma BlocksAppend<T>(o: Ops<T>, l: seq<T>, a: seq<Byte>, b: seq<Byte>)
    requires |l| == 8 && |a| % 256 == 0
    ensures Pieces(o, l, 0, a + b) == Pieces(o, Pieces(o, l, 0, a), 0, b)
  {
    hide Pieces;
    PiecesAppend(o, l, 0, a, b);
  }

  /** `n & 15` */
  function Low4(n: nat): (r: nat)
    ensures r < 16 && r <= n
  {
    n % 16
  }

  /** `n & 16` */
  predicate Bit4(n: nat)
    ensures Bit4(n) ==> n >= 16 + Low4(n)
  {
    n / 16 % 2 == 1
  }

  // ---- Loading the last bytes from memory

  const PAGE := 4096

  function Read(mem: int -> Byte, a: int, n: nat): (s: seq<Byte>)
    ensures |s| == n && forall i :: 0 <= i < n ==> s[i] == mem(a + i)
  {
    if n == 0 then [] else Read(mem, a, n - 1) + [mem(a + n - 1)]
  }

  lemma ReadSlice(mem: int -> Byte, a: int, n: nat, i: nat, j: nat)
    requires i <= j <= n
    ensures Read(mem, a, n)[i..j] == Read(mem, a + i, j - i)
  {
    hide Read;
    var s, t := Read(mem, a, n)[i..j], Read(mem, a + i, j - i);
    forall k | 0 <= k < |s|
      ensures s[k] == t[k]
    {
    }
  }

  /** The page of a holds a byte of the input. */
  ghost predicate InputPage(source: nat, len: nat, a: int) {
    exists b :: source <= b < source + len && b / PAGE == a / PAGE
  }

  /** `pshufb` with the 16 bytes of `MeowShiftAdjust` from `align`. */
  function Rotate(x: seq<Byte>, align: nat): (r: seq<Byte>)
    requires |x| == 16
    ensures |r| == 16 && forall i :: 0 <= i < 16 ==> r[i] == x[(align + i) % 16]
  {
    seq(16, i requires 0 <= i < 16 => x[(align + i) % 16])
  }

  /** `pand` with the 16 bytes of `MeowMaskLen` from 16 - n. */
  function Keep(x: seq<Byte>, n: nat): (r: seq<Byte>)
    requires |x| == 16 && n <= 16
  {
    x[..n] + Zeros(16 - n)
  }

  /** `x | 4095` */
  function LastOfPage(x: nat): (e: nat)
    ensures x <= e && e / PAGE == x / PAGE && e % PAGE == PAGE - 1
  {
    x / PAGE * PAGE + (PAGE - 1)
  }

  /**
   The last len % 16 bytes, by one 16-byte load from `at`: exact, and on no page that does
   not hold input.
   */
  method LoadTail(mem: int -> Byte, source: nat, len: nat) returns (x: seq<Byte>, at: int)
    requires Low4(len) != 0
    ensures x == Read(mem, source + len - Low4(len), Low4(len)) + Zeros(16 - Low4(len))
    ensures forall a :: at <= a < at + 16 ==> InputPage(source, len, a)
  {
    var last := source + (len - len % 16);
    var len8 := len % 16;
    var e := LastOfPage(source + len - 1);
    var lastOk := e - 16;
    var align := if last > lastOk then last % 16 else 0;
    at := last - align;
    x := Keep(Rotate(Read(mem, at, 16), align), len8);
    if last > lastOk {
      RealignedLoad(last, len8, e);
    }
    TailPages(source, len, last, at, e);
    TailBytes(mem, last, align, len8);
  }

  lemma TailBytes(mem: int -> Byte, last: int, align: nat, n: nat)
    requires align + n <= 16
    ensures Keep(Rotate(Read(mem, last - align, 16), align), n) == Read(mem, last, n) + Zeros(16 - n)
  {
    hide Read; hide Zeros; hide Rotate;
    var x := Rotate(Read(mem, last - align, 16), align);
    forall i | 0 <= i < n
      ensures x[i] == Read(mem, last, n)[i]
    {
      assert (align + i) % 16 == align + i;
    }
    assert x[..n] == Read(mem, last, n);
  }

  lemma TailPages(source: nat, len: nat, last: nat, at: int, e: nat)
    requires source <= last < source + len && at <= last && at + 15 <= e
    requires e / PAGE == (source + len - 1) / PAGE && source + len - 1 <= e
    requires at < last ==> at / PAGE == e / PAGE
    ensures forall a :: at <= a < at + 16 ==> InputPage(source, len, a)
  {
    forall a | at <= a < at + 16
      ensures InputPage(source, len, a)
    {
      if last <= a < source + len {
        assert source <= a < source + len && a / PAGE == a / PAGE;
      } else if last <= a {
        BetweenOnPage(source + len - 1, a, e);
        assert source <= source + len - 1 < source + len;
      } else {
        BetweenOnPage(at, a, e);
        BetweenOnPage(at, last, e);
        assert source <= last < source + len;
      }
    }
  }

  /** A load moved back to its 16-byte boundary ends with its page. */
  lemma RealignedLoad(last: nat, n: nat, e: nat)
    requires 0 < n < 16 && e % PAGE == PAGE - 1 && last + n - 1 <= e && last > e - 16
    ensures last - last % 16 == e - 15 && last % 16 + n <= 16
    ensures (e - 15) / PAGE == e / PAGE
  {
    var k := e / PAGE;
    var d := last - (e - 15);
    assert e == 4096 * k + 4095;
    Arith.Quotient(last, 16, 256 * k + 255, d);
    Arith.Quotient(e - 15, PAGE, k, 4080);
  }

  lemma BetweenOnPage(x: int, y: int, e: int)
    requires x <= y <= e && x / PAGE == e / PAGE
    ensures y / PAGE == x / PAGE
  {
  }

  /** Without the realignment the load would leave the input's pages exactly when it passes the last one's end. */
  lemma PlainLoadSafeIff(source: nat, len: nat)
    requires len % 16 != 0
    ensures var last := source + (len - len % 16);
      (forall a :: last <= a < last + 16 ==> InputPage(source, len, a)) <==> last + 15 <= LastOfPage(source + len - 1)
  {
    var last, e := source + (len - len % 16), LastOfPage(source + len - 1);
    if last + 15 <= e {
      forall a | last <= a < last + 16
        ensures InputPage(source, len, a)
      {
        if a < source + len {
          assert source <= a < source + len && a / PAGE == a / PAGE;
        } else {
          BetweenOnPage(source + len - 1, a, e);
          assert source <= source + len - 1 < source + len;
        }
      }
    } else {
      assert last <= e + 1 < last + 16;
      assert !InputPage(source, len, e + 1);
    }
  }

  // ---- The loops

  /** Mixes the first `count` pieces of b on successive lanes from k. */
  method MixPieces<T>(o: Ops<T>, l: seq<T>, k: nat, b: seq<Byte>, count: nat) returns (m: seq<T>)
    requires |l| == 8 && k < 8 && |b| / 32 == count
    ensures |m| == 8 && m == Pieces(o, l, k, b)
  {
    hide Mix;
    m := l;
    var n, lane, at := 0, k, 0;
    while n < count
      invariant 0 <= n <= count && |m| == 8 && at == 32 * n <= |b|
      invariant Pieces(o, l, k, b) == Pieces(o, m, lane, b[at..])
    {
      assert b[at..][..32] == b[at..at + 32] && b[at..][32..] == b[at + 32..];
      m := Mix(o, m, lane, b[at..at + 32]);
      n, lane, at := n + 1, (lane + 1) % 8, at + 32;
    }
  }

  /** The block loop shared by `MeowHash` and `MeowAbsorbBlocks`. */
  method MixBlocks<T>(o: Ops<T>, l: seq<T>, blockCount: nat, b: seq<Byte>) returns (m: seq<T>)
    requires |l| == 8 && |b| >= 256 * blockCount
    ensures |m| == 8 && m == Pieces(o, l, 0, b[..256 * blockCount])
  {
    hide Pieces;
    m := l;
    var n := 0;
    NoPieces(o, l);
    assert b[..0] == [];
    while n < blockCount
      invariant 0 <= n <= blockCount && |m| == 8
      invariant m == Pieces(o, l, 0, b[..256 * n])
    {
      var block := b[256 * n..256 * n + 256];
      assert b[..256 * n] + block == b[..256 * (n + 1)];
      BlocksAppend(o, l, b[..256 * n], block);
      m := MixPieces(o, m, 0, block, 8);
      n := n + 1;
    }
  }

  lemma NoPieces<T>(o: Ops<T>, l: seq<T>)
    requires |l| == 8
    ensures Pieces(o, l, 0, []) == l
  {
  }

  lemma AppendRegisters<T>(o: Ops<T>, l: seq<T>, k: nat, a: seq<Byte>, b: seq<Byte>)
    requires |l| == 8 && |a| == |b| == 16
    ensures MixReg(o, l, k, o.load(AlignRight(a, b, 15)), o.load(a), o.load(AlignRight(a, b, 1)), o.load(b))
         == Append(o, l, k, a + b)
  {
    hide MixReg;
    assert (a + b)[..16] == a && (a + b)[16..] == b;
  }

  /** The residual, in xmm9 and xmm11. */
  method MixResidual<T>(o: Ops<T>, l: seq<T>, xmm9: seq<Byte>, xmm11: seq<Byte>) returns (m: seq<T>)
    requires |l| == 8 && |xmm9| == |xmm11| == 16
    ensures |m| == 8 && m == Append(o, l, 0, xmm9 + xmm11)
  {
    hide MixReg; hide AlignRight; hide Append;
    var xmm8 := AlignRight(xmm9, xmm11, 15);
    var xmm10 := AlignRight(xmm9, xmm11, 1);
    m := MixReg(o, l, 0, o.load(xmm8), o.load(xmm9), o.load(xmm10), o.load(xmm11));
    AppendRegisters(o, l, 0, xmm9, xmm11);
  }

  method MixLength<T>(o: Ops<T>, l: seq<T>, len: nat) returns (m: seq<T>)
    requires |l| == 8
    ensures |m| == 8 && m == Append(o, l, 1, Zeros(16) + (Little(len, 8) + Zeros(8)))
  {
    hide MixReg; hide AlignRight; hide Append; hide Zeros; hide Little;
    var xmm13 := Zeros(16);
    var xmm15 := Little(len, 8) + Zeros(8);
    var xmm12 := AlignRight(Zeros(16), xmm15, 15);
    var xmm14 := AlignRight(Zeros(16), xmm15, 1);
    m := MixReg(o, l, 1, o.load(xmm12), o.load(xmm13), o.load(xmm14), o.load(xmm15));
    AppendRegisters(o, l, 1, xmm13, xmm15);
  }

  method MixDown<T>(o: Ops<T>, l: seq<T>) returns (m: seq<T>)
    requires |l| == 8
    ensures |m| == 8 && m == Shuffles(o, l, 12)
  {
    hide Shuffle;
    m := l;
    var n := 0;
    while n < 12
      invariant 0 <= n <= 12 && |m| == 8 && m == Shuffles(o, l, n)
    {
      m := Shuffle(o, m, n);
      n := n + 1;
    }
  }

  /** The residual (in xmm9 and xmm11), the length, the lanes and the mix-down. */
  method MixEnding<T>(o: Ops<T>, l: seq<T>, xmm9: seq<Byte>, xmm11: seq<Byte>, rest: seq<Byte>, len: nat)
    returns (m: seq<T>)
    requires |l| == 8 && |xmm9| == |xmm11| == 16 && xmm9 + xmm11 == Residual(rest) && |rest| == len % 256
    ensures |m| == 8 && m == Ending(o, l, rest, len)
  {
    hide Pieces; hide Residual; hide Shuffles; hide Little; hide Append; hide Zeros;
    m := MixResidual(o, l, xmm9, xmm11);
    m := MixLength(o, m, len);
    var laneCount := len / 32 % 8;
    LanesLeft(len);
    m := MixPieces(o, m, 2, rest, laneCount);
    m := MixDown(o, m);
  }

  lemma LanesLeft(n: nat)
    ensures n % 256 / 32 == n / 32 % 8
  {
    var q, r := n / 256, n % 256;
    assert n == 256 * q + r;
    Arith.Quotient(n, 32, 8 * q + r / 32, r % 32);
    Arith.Quotient(n / 32, 8, q, r / 32);
  }

  lemma Halves(n: nat)
    ensures n % 32 == Low4(n) + (if Bit4(n) then 16 else 0)
  {
  }

  /** What `MeowHash` and `MeowEnd` put in xmm9 and xmm11. */
  lemma ResidualHalves(rest: seq<Byte>)
    ensures var n, r := |rest|, Low4(|rest|); var tail := rest[n - r..] + Zeros(16 - r);
      Residual(rest) == if Bit4(n) then rest[n - r - 16..n - r] + tail else tail + Zeros(16)
  {
    var n := |rest|;
    Halves(n);
    var r := Low4(n);
    var tail := rest[n - r..];
    if Bit4(n) {
      assert rest[n - r - 16..] == rest[n - r - 16..n - r] + tail;
    } else {
      assert Zeros(32 - r) == Zeros(16 - r) + Zeros(16);
    }
  }

  // ---- One-shot

  /** The residual of the message at `source`: first and second 16 bytes. */
  method LoadResidual(mem: int -> Byte, source: nat, len: nat) returns (xmm9: seq<Byte>, xmm11: seq<Byte>)
    ensures |xmm9| == |xmm11| == 16 && xmm9 + xmm11 == Residual(Read(mem, source, len))
  {
    hide *;
    xmm9, xmm11 := Zeros(16), Zeros(16);
    var len8 := Low4(len);
    var last := source + (len - len8);
    if len8 != 0 {
      var at;
      xmm9, at := LoadTail(mem, source, len);
    } else {
      assert xmm9 == Read(mem, last, 0) + Zeros(16);
    }
    if Bit4(len) {
      xmm11 := xmm9;
      xmm9 := Read(mem, last - 16, 16);
    }
    ResidualInMemory(mem, source, len);
  }

  lemma ResidualInMemory(mem: int -> Byte, source: nat, len: nat)
    ensures var r := Low4(len);
      var tail := Read(mem, source + (len - r), r) + Zeros(16 - r);
      Residual(Read(mem, source, len))
      == if Bit4(len) then Read(mem, source + (len - r) - 16, 16) + tail else tail + Zeros(16)
  {
    hide *;
    var msg, r := Read(mem, source, len), Low4(len);
    ReadSlice(mem, source, len, len - r, len);
    assert msg[len - r..len] == msg[len - r..];
    ResidualHalves(msg);
    if Bit4(len) {
      ReadSlice(mem, source, len, len - r - 16, len - r);
    }
  }

  lemma ResidualOfRest(m: seq<Byte>)
    ensures Residual(m[Whole(|m|)..]) == Residual(m)
  {
    hide Zeros; hide Whole;
    var n, rest := |m|, m[Whole(|m|)..];
    RemainderOfRemainder(n);
    var r := n % 32;
    assert rest[|rest| - r..] == m[n - r..];
  }

  lemma RemainderOfRemainder(n: nat)
    ensures n % 256 % 32 == n % 32 <= n % 256
  {
    var q, r := n / 256, n % 256;
    assert n == 256 * q + r;
    Arith.Quotient(n, 32, 8 * q + r / 32, r % 32);
  }

  method MeowHash<T>(o: Ops<T>, seed: seq<Byte>, mem: int -> Byte, source: nat, len: nat) returns (r: T)
    requires |seed| == 128 && len < 0x1_0000_0000_0000_0000
    ensures r == Hash(o, seed, Read(mem, source, len))
  {
    hide Pieces; hide Residual; hide Ending; hide Fold; hide Read; hide SeedLanes;
    var l := SeedLanes(o, seed);
    var blockCount := len / 256;
    ghost var msg := Read(mem, source, len);
    var blocks := Read(mem, source, 256 * blockCount);
    l := MixBlocks(o, l, blockCount, blocks);
    assert blocks[..256 * blockCount] == msg[..Whole(len)];
    var rax := source + 256 * blockCount;
    var xmm9, xmm11 := LoadResidual(mem, source, len);
    var rest := Read(mem, rax, len % 256);
    assert rest == msg[Whole(len)..];
    ResidualOfRest(msg);
    l := MixEnding(o, l, xmm9, xmm11, rest, len);
    r := Fold(o, l);
  }

  // ---- Streaming

  /** `meow_u64` */
  function Wrapped(n: nat): (r: nat) { n % 0x1_0000_0000_0000_0000 }

  lemma WrappedSum(a: nat, b: nat)
    ensures Wrapped(Wrapped(a) + b) == Wrapped(a + b)
  {
    var w := 0x1_0000_0000_0000_0000;
    RemainderOfSum(a, b, w);
  }

  lemma RemainderOfSum(a: nat, b: nat, w: nat)
    requires w > 0
    ensures (a % w + b) % w == (a + b) % w
  {
    var q, s := a / w, a % w + b;
    assert a == q * w + a % w && s == s / w * w + s % w;
    assert (q + s / w) * w == q * w + s / w * w;
    Arith.Quotient(a + b, w, q + s / w, s % w);
  }

  /** The length's low byte and the bytes of the length survive the wrap. */
  lemma {:induction false} WrapKeepsLow(n: nat)
    ensures Wrapped(n) % 256 == n % 256
  {
  }

  lemma WrapOfZero()
    ensures Wrapped(0) == 0
  {
  }

  class MeowState<T> {
    const o: Ops<T>
    const buffer: array<Byte>
    var lanes: seq<T>
    var totalLength: nat
    var bufferLen: nat
    ghost var seed: seq<Byte>
    /** All that was absorbed since `Begin`. */
    ghost var message: seq<Byte>

    /** Whole blocks are in the lanes, what follows them is at the front of the buffer. */
    ghost predicate Holding()
      reads this`lanes, this`bufferLen, this`seed, this`message, buffer
    {
      && buffer.Length == 256 && |seed| == 128 && |lanes| == 8
      && bufferLen <= 256 && bufferLen <= |message| && (|message| - bufferLen) % 256 == 0
      && buffer[..bufferLen] == message[|message| - bufferLen..]
      && lanes == Pieces(o, SeedLanes(o, seed), 0, message[..|message| - bufferLen])
    }

    ghost predicate Valid()
      reads this, buffer
    {
      Holding() && bufferLen < 256 && totalLength == Wrapped(|message|)
    }

    /** The buffer's contents are arbitrary, as in uninitialised memory. */
    constructor (o: Ops<T>, l: seq<T>, stale: array<Byte>)
      requires stale.Length == 256
      ensures this.o == o && buffer == stale
    {
      this.o, buffer, lanes := o, stale, l;
      totalLength, bufferLen := 0, 0;
      seed, message := [], [];
    }

    method Begin(seed: seq<Byte>)
      requires |seed| == 128 && buffer.Length == 256
      modifies this
      ensures Valid() && this.seed == seed && message == []
    {
      hide MeowState.Valid;
      lanes := SeedLanes(o, seed);
      bufferLen := 0;
      totalLength := 0;
      this.seed := seed;
      message := [];
      EmptyIsValid();
    }

    lemma EmptyIsValid()
      requires buffer.Length == 256 && |seed| == 128 && message == [] && bufferLen == 0 && totalLength == 0
      requires lanes == SeedLanes(o, seed)
      ensures Valid()
    {
      hide Pieces; hide SeedLanes; hide Wrapped;
      NoPieces(o, lanes);
      WrapOfZero();
      var m, n := message, |message| - bufferLen;
      assert m[..n] == [] && m[n..] == [] && buffer[..bufferLen] == [];
    }

    method AbsorbBlocks(blockCount: nat, src: seq<Byte>)
      requires Holding() && (bufferLen == 0 || blockCount == 0) && |src| == 256 * blockCount
      modifies this`lanes, this`message
      ensures Holding() && message == old(message) + src
    {
      hide Pieces; hide SeedLanes;
      lanes := MixBlocks(o, lanes, blockCount, src);
      assert src[..256 * blockCount] == src;
      if blockCount == 0 {
        NoPieces(o, old(lanes));
        assert src == [];
        assert message + src == message;
      } else {
        LanesAfter(o, SeedLanes(o, seed), message, src, blockCount);
      }
      message := message + src;
    }

    /** Mixes a full buffer. */
    method AbsorbBuffer()
      requires Holding() && bufferLen == 256
      modifies this`lanes, this`bufferLen
      ensures Holding() && bufferLen == 0
    {
      hide Pieces; hide SeedLanes;
      ghost var n := |message| - 256;
      lanes := MixBlocks(o, lanes, 1, buffer[..]);
      assert buffer[..][..256] == buffer[..256];
      assert message[..n] + message[n..] == message == message[..|message|];
      BlocksAppend(o, SeedLanes(o, seed), message[..n], message[n..]);
      bufferLen := 0;
    }

    /** Appends bytes to the buffer one by one. */
    method Store(src: seq<Byte>)
      requires Holding() && bufferLen + |src| <= 256
      modifies this`bufferLen, this`message, buffer
      ensures Holding() && message == old(message) + src && bufferLen == old(bufferLen) + |src|
    {
      hide Pieces; hide SeedLanes;
      var k := 0;
      assert src[..0] == [];
      while k < |src|
        invariant 0 <= k <= |src| && bufferLen == old(bufferLen) + k
        invariant Holding() && message == old(message) + src[..k]
      {
        ghost var was := message;
        buffer[bufferLen] := src[k];
        bufferLen := bufferLen + 1;
        message := message + [src[k]];
        assert src[..k + 1] == src[..k] + [src[k]];
        assert message[..|message| - bufferLen] == was[..|was| - (bufferLen - 1)];
        k := k + 1;
      }
      assert src[..k] == src;
    }

    /** Fills a buffer that is not empty; what is left of src starts on a block boundary. */
    method Fill(src: seq<Byte>) returns (rest: seq<Byte>)
      requires Holding() && 0 < bufferLen < 256
      modifies this`lanes, this`bufferLen, this`message, buffer
      ensures Holding() && bufferLen < 256 && message + rest == old(message) + src && (bufferLen == 0 || rest == [])
    {
      hide Pieces; hide SeedLanes;
      var fill := 256 - bufferLen;
      if fill > |src| {
        fill := |src|;
      }
      Store(src[..fill]);
      rest := src[fill..];
      assert src[..fill] + rest == src;
      if bufferLen == 256 {
        AbsorbBuffer();
      }
    }

    method Absorb(src: seq<Byte>)
      requires Valid()
      modifies this`lanes, this`totalLength, this`bufferLen, this`message, buffer
      ensures Valid() && message == old(message) + src
    {
      hide Wrapped; hide Holding;
      totalLength := Wrapped(totalLength + |src|);
      var rest := src;
      if bufferLen != 0 {
        rest := Fill(src);
      }
      var blockCount := |rest| / 256;
      var advance := blockCount * 256;
      AbsorbBlocks(blockCount, rest[..advance]);
      Store(rest[advance..]);
      assert rest[..advance] + rest[advance..] == rest;
      assert message == old(message) + src;
      WrappedSum(|old(message)|, |src|);
    }

    /** The two halves of the residual, from the buffer; bytes past `bufferLen` are masked off. */
    method BufferResidual(len: nat) returns (xmm9: seq<Byte>, xmm11: seq<Byte>)
      requires bufferLen < 256 == buffer.Length && len % 256 == bufferLen
      ensures |xmm9| == |xmm11| == 16 && xmm9 + xmm11 == Residual(buffer[..bufferLen])
    {
      hide Residual; hide Zeros; hide Low4; hide Bit4; hide Keep;
      SameLowBits(len);
      xmm9, xmm11 := Zeros(16), Zeros(16);
      var last := bufferLen - Low4(bufferLen);
      var len8 := Low4(len);
      LastFits(bufferLen);
      var bytes := buffer[..];
      if len8 != 0 {
        xmm9 := Keep(bytes[last..last + 16], len8);
      }
      TailInBuffer(bytes, bufferLen);
      if Bit4(len) {
        xmm11 := xmm9;
        xmm9 := bytes[last - 16..last];
        SliceOfPrefix(bytes, bufferLen, last - 16, last);
      }
      ResidualHalves(bytes[..bufferLen]);
      assert bytes[..bufferLen] == buffer[..bufferLen];
    }

    method End() returns (r: T, stored: seq<T>)
      requires Valid()
      ensures r == Hash(o, seed, message) && stored == Lanes(o, seed, message)
    {
      hide Pieces; hide Residual; hide Ending; hide Fold; hide SeedLanes; hide Wrapped;
      WrapKeepsLow(|message|);
      RestOfWhole(|message|, bufferLen);
      var xmm9, xmm11 := BufferResidual(totalLength);
      stored := MixEnding(o, lanes, xmm9, xmm11, buffer[..bufferLen], totalLength);
      r := Fold(o, stored);
      RestOfWhole(|message|, bufferLen);
      WrappedLength(o, lanes, buffer[..bufferLen], |message|);
    }
  }

  lemma LanesAfter<T>(o: Ops<T>, l: seq<T>, m: seq<Byte>, src: seq<Byte>, n: nat)
    requires |l| == 8 && |m| % 256 == 0 && |src| == 256 * n
    ensures Pieces(o, Pieces(o, l, 0, m[..|m|]), 0, src) == Pieces(o, l, 0, (m + src)[..|m + src|])
    ensures |m + src| % 256 == 0
  {
    hide Pieces;
    assert m[..|m|] == m && (m + src)[..|m + src|] == m + src;
    BlocksAppend(o, l, m, src);
  }

  /** The 16 bytes at the last boundary below n, without what lies beyond n. */
  lemma TailInBuffer(bytes: seq<Byte>, n: nat)
    requires n < 256 == |bytes| && n - Low4(n) <= 240
    ensures var r := Low4(n);
      var tail := bytes[..n][n - r..] + Zeros(16 - r);
      tail == Keep(bytes[n - r..n - r + 16], r) && (r == 0 ==> tail == Zeros(16)) && |tail| == 16
  {
    hide Zeros; hide Low4;
    var r := Low4(n);
    assert bytes[..n][n - r..] == bytes[n - r..n - r + 16][..r];
  }

  lemma SliceOfPrefix(s: seq<Byte>, n: nat, i: nat, j: nat)
    requires i <= j <= n <= |s|
    ensures s[..n][i..j] == s[i..j]
  {
  }

  lemma RestOfWhole(n: nat, r: nat)
    requires r < 256 && r <= n && (n - r) % 256 == 0
    ensures n % 256 == r && Whole(n) == n - r
  {
    var q := (n - r) / 256;
    assert n - r == 256 * q;
    Arith.Quotient(n, 256, q, r);
  }

  lemma SameLowBits(n: nat)
    ensures Low4(n % 256) == Low4(n) && Bit4(n % 256) == Bit4(n)
  {
    var q, r := n / 256, n % 256;
    Arith.Quotient(n, 16, 16 * q + r / 16, r % 16);
    Arith.Quotient(n / 16, 2, 8 * q + r / 16 / 2, r / 16 % 2);
  }

  lemma LastFits(n: nat)
    requires n < 256
    ensures n - Low4(n) <= 240
  {
  }

  function Pow256(k: nat): (p: nat)
    ensures p > 0
  {
    if k == 0 then 1 else 256 * Pow256(k - 1)
  }

  lemma {:induction false} LittleWraps(n: nat, size: nat)
    ensures Little(n % Pow256(size), size) == Little(n, size)
  {
    if size > 0 {
      var p := Pow256(size - 1);
      ByteOff(n, p);
      LittleWraps(n / 256, size - 1);
    }
  }

  lemma ByteOff(n: nat, p: nat)
    requires p > 0
    ensures n % (256 * p) % 256 == n % 256 && n % (256 * p) / 256 == n / 256 % p
  {
    var q, r := n / (256 * p), n % (256 * p);
    assert n == q * (256 * p) + r;
    assert q * (256 * p) == (q * p) * 256;
    Arith.Quotient(n, 256, q * p + r / 256, r % 256);
    Arith.Quotient(n / 256, p, q, r / 256);
  }

  lemma WrappedLength<T>(o: Ops<T>, l: seq<T>, rest: seq<Byte>, n: nat)
    requires |l| == 8
    ensures Ending(o, l, rest, Wrapped(n)) == Ending(o, l, rest, n)
  {
    hide Append; hide Pieces; hide Residual; hide Shuffles; hide Little;
    LittleWraps(n, 8);
    assert Pow256(8) == 256 * 256 * 256 * 256 * Pow256(4);
  }

  // ---- Every way of cutting a message

  /** Begin, any number of absorptions, empty ones too, then End: the one-shot hash, whatever was in the buffer. */
  method HashChunks<T>(o: Ops<T>, seed: seq<Byte>, chunks: seq<seq<Byte>>, l: seq<T>, stale: array<Byte>) returns (r: T)
    requires |seed| == 128 && stale.Length == 256
    modifies stale
    ensures r == Hash(o, seed, Concat(chunks))
  {
    hide Hash; hide Lanes; hide MeowState.Holding;
    var state := new MeowState(o, l, stale);
    state.Begin(seed);
    var n := 0;
    assert chunks[..0] == [];
    while n < |chunks|
      invariant 0 <= n <= |chunks| && state.Valid() && state.buffer == stale && state.o == o && state.seed == seed
      invariant state.message == Concat(chunks[..n])
    {
      assert chunks[..n + 1][..n] == chunks[..n];
      state.Absorb(chunks[n]);
      n := n + 1;
    }
    assert chunks[..n] == chunks;
    var stored;
    r, stored := state.End();
  }
}
