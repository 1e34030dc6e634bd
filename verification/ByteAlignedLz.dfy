/**
 Level 2 of `LZBuffer`: byte-aligned LZ77 codes, and their reading by the `lzpre`
 post-processor.
 */
module ByteAlignedLz {
  import opened Arith
  import opened Bytes
  import opened Wrappers
  import opened Lz77
  import opened BitPackedLz
  import E8E9

  // ---- Codes

  /** Runs of at most 64 literals, each behind its length minus one. */
  function LiteralBytes(bytes: seq<Byte>): (s: seq<Byte>)
    decreases |bytes|
  {
    if bytes == [] then []
    else
      var k := if |bytes| > 64 then 64 else |bytes|;
      [k - 1] + bytes[..k] + LiteralBytes(bytes[k..])
  }

  /** The length of the next piece of a match. */
  function Piece(minMatch: nat, len: nat): (l: nat) {
    if len > minMatch * 2 + 63 then minMatch + 63
    else if len > minMatch + 63 then len - minMatch
    else len
  }

  /**
   Splitting is right exactly for the minimum lengths the format allows: for every match
   length the piece lies in minMatch..minMatch+63 and leaves nothing or a whole match, if
   and only if minMatch is at most 64.
   */
  lemma PiecesFit(minMatch: nat)
    requires minMatch >= 1
    ensures minMatch <= 64 <==>
      forall len :: len >= minMatch ==> PieceFits(minMatch, len)
  {
    if minMatch > 64 {
      assert !PieceFits(minMatch, minMatch + 64);
    }
  }

  predicate PieceFits(minMatch: nat, len: nat) {
    var l := Piece(minMatch, len);
    minMatch <= l < minMatch + 64 && (l == len || len - l >= minMatch)
  }

  /** A match of 129 with minimum 65 would be cut to a piece of 64. */
  lemma PieceTooShort()
    ensures Piece(65, 129) == 64 && !PieceFits(65, 129)
  {
  }

  function PieceCode(minMatch: nat, l: nat, o: nat): (s: seq<Byte>)
    requires minMatch <= l < minMatch + 64 && o < 0x1_0000_0000
    ensures |s| <= 5
  {
    if o < 0x1_0000 then [64 + l - minMatch, o / 256, o % 256]
    else if o < 0x100_0000 then [128 + l - minMatch, o / 256 / 256, o / 256 % 256, o % 256]
    else [192 + l - minMatch, o / 256 / 256 / 256, o / 256 / 256 % 256, o / 256 % 256, o % 256]
  }

  function MatchBytes(minMatch: nat, len: nat, off: nat): (s: seq<Byte>)
    requires 1 <= minMatch <= 64 && 1 <= off <= 0x1_0000_0000 && (len == 0 || len >= minMatch)
    decreases len
  {
    if len == 0 then []
    else
      PieceOk(minMatch, len);
      var l := Piece(minMatch, len);
      PieceCode(minMatch, l, off - 1) + MatchBytes(minMatch, len - l, off)
  }

  /** len / q, rounded up. */
  function Ceil(len: nat, q: nat): (n: nat)
    requires q > 0
    decreases len
  {
    if len == 0 then 0 else if len <= q then 1 else 1 + Ceil(len - q, q)
  }

  lemma {:induction false} CeilGrows(a: nat, b: nat, q: nat)
    requires q > 0 && a <= b
    ensures Ceil(a, q) <= Ceil(b, q)
    decreases a
  {
    if a > q {
      CeilGrows(a - q, b - q, q);
    }
  }

  lemma {:induction false} CeilShrinks(len: nat, q: nat, r: nat)
    requires 0 < q <= r
    ensures Ceil(len, r) <= Ceil(len, q)
    decreases len
  {
    if len > r {
      CeilShrinks(len - r, q, r);
      CeilGrows(len - r, len - q, q);
    }
  }

  lemma {:induction false} CeilOf64(len: nat)
    ensures Ceil(len, 64) == (len + 63) / 64
    decreases len
  {
    if len > 64 {
      CeilOf64(len - 64);
    }
  }

  /** The bytes of the code of one piece. */
  function PieceSize(off: nat): (w: nat)
    ensures 3 <= w <= 5
  {
    if off <= 0x1_0000 then 3 else if off <= 0x100_0000 then 4 else 5
  }

  lemma {:induction false} MatchBytesSize(minMatch: nat, len: nat, off: nat)
    requires 1 <= minMatch <= 64 && 1 <= off <= 0x1_0000_0000 && (len == 0 || len >= minMatch)
    ensures |MatchBytes(minMatch, len, off)| == PieceSize(off) * Ceil(len, minMatch + 63)
    decreases len
  {
    if len > 0 {
      var l := Piece(minMatch, len);
      PieceOk(minMatch, len);
      MatchBytesSize(minMatch, len - l, off);
      assert |PieceCode(minMatch, l, off - 1)| == PieceSize(off);
      PieceCounts(minMatch, len);
      Distributes(PieceSize(off), Ceil(len - l, minMatch + 63));
    }
  }

  lemma Distributes(w: nat, n: nat)
    ensures w * (1 + n) == w + w * n
  {
  }

  lemma PieceCounts(minMatch: nat, len: nat)
    requires 1 <= minMatch <= 64 && len >= minMatch
    ensures Piece(minMatch, len) <= len
    ensures Ceil(len, minMatch + 63) == 1 + Ceil(len - Piece(minMatch, len), minMatch + 63)
  {
  }

  lemma {:induction false} LiteralBytesSize(bytes: seq<Byte>)
    ensures |LiteralBytes(bytes)| == |bytes| + (|bytes| + 63) / 64
    decreases |bytes|
  {
    if bytes != [] {
      LiteralBytesSize(bytes[if |bytes| > 64 then 64 else |bytes|..]);
    }
  }

  predicate Writable(minMatch: nat, item: Item) {
    item.Match? ==> item.len >= minMatch && 1 <= item.off <= 0x1_0000_0000
  }

  function ItemBytes(minMatch: nat, item: Item): (s: seq<Byte>)
    requires 1 <= minMatch <= 64 && Writable(minMatch, item)
  {
    match item
    case Literals(bytes) => LiteralBytes(bytes)
    case Match(len, off) => MatchBytes(minMatch, len, off)
  }

  function AllBytes(minMatch: nat, items: seq<Item>): (s: seq<Byte>)
    requires 1 <= minMatch <= 64 && forall i :: 0 <= i < |items| ==> Writable(minMatch, items[i])
  {
    if items == [] then [] else ItemBytes(minMatch, items[0]) + AllBytes(minMatch, items[1..])
  }

  lemma {:induction false} AllBytesLast(minMatch: nat, items: seq<Item>, item: Item)
    requires 1 <= minMatch <= 64 && Writable(minMatch, item)
    requires forall i :: 0 <= i < |items| ==> Writable(minMatch, items[i])
    ensures forall i :: 0 <= i < |items + [item]| ==> Writable(minMatch, (items + [item])[i])
    ensures AllBytes(minMatch, items + [item]) == AllBytes(minMatch, items) + ItemBytes(minMatch, item)
  {
    hide ItemBytes;
    if items == [] {
      assert items + [item] == [item] && [item][1..] == [];
    } else {
      AllBytesLast(minMatch, items[1..], item);
      assert (items + [item])[1..] == items[1..] + [item];
    }
  }

  // ---- Reading

  /** The state register d with the registers that are live in it. */
  datatype Pre =
    | Fresh(buf: seq<Byte>)                                    // d == 0
    | InRun(len: nat, buf: seq<Byte>)                          // d == 1
    | InOffset(d: nat, len: nat, off: nat, buf: seq<Byte>)     // d >= 2

  /** One byte; None if a match would read outside the bytes written. */
  function Eat(minMatch: nat, p: Pre, c: Byte): (o: Option<Pre>) {
    match p
    case Fresh(buf) =>
      if c < 64 then Some(InRun(c as int + 1, buf))
      else Some(InOffset(c as int / 64 + 2, c as int % 64 + minMatch, 0, buf))
    case InRun(len, buf) =>
      if len == 1 then Some(Fresh(buf + [c]))
      else if len > 1 then Some(InRun(len - 1, buf + [c])) else None
    case InOffset(d, len, off, buf) =>
      var o := off * 256 + c;
      if d > 2 then Some(InOffset(d - 1, len, o, buf))
      else if o + 1 <= |buf| then Some(Fresh(CopyMatch(buf, len, o + 1))) else None
  }

  function EatAll(minMatch: nat, p: Pre, s: seq<Byte>): (o: Option<Pre>)
    decreases |s|
  {
    if s == [] then Some(p)
    else
      match Eat(minMatch, p, s[0])
      case None => None
      case Some(p') => EatAll(minMatch, p', s[1..])
  }

  lemma {:induction false} ReadRunBytes(minMatch: nat, bytes: seq<Byte>, buf: seq<Byte>, rest: seq<Byte>)
    requires bytes != []
    ensures EatAll(minMatch, InRun(|bytes|, buf), bytes + rest) == EatAll(minMatch, Fresh(buf + bytes), rest)
    decreases |bytes|
  {
    var s := bytes + rest;
    if |bytes| == 1 {
      assert s[1..] == rest && bytes == [bytes[0]];
    } else {
      ReadRunBytes(minMatch, bytes[1..], buf + [bytes[0]], rest);
      assert s[1..] == bytes[1..] + rest && buf + [bytes[0]] + bytes[1..] == buf + bytes;
    }
  }

  lemma {:induction false} ReadLiteralBytes(minMatch: nat, bytes: seq<Byte>, buf: seq<Byte>, rest: seq<Byte>)
    ensures EatAll(minMatch, Fresh(buf), LiteralBytes(bytes) + rest) == EatAll(minMatch, Fresh(buf + bytes), rest)
    decreases |bytes|
  {
    hide EatAll; hide Eat; hide LiteralBytes;
    LiteralRuns(bytes);
    if bytes == [] {
      assert [] + rest == rest && buf + bytes == buf;
    } else {
      var k := if |bytes| > 64 then 64 else |bytes|;
      var later := LiteralBytes(bytes[k..]) + rest;
      assert LiteralBytes(bytes) + rest == [k - 1] + (bytes[..k] + later);
      RunHeader(minMatch, k, buf, bytes[..k] + later);
      ReadRunBytes(minMatch, bytes[..k], buf, later);
      ReadLiteralBytes(minMatch, bytes[k..], buf + bytes[..k], rest);
      assert buf + bytes[..k] + bytes[k..] == buf + bytes;
    }
  }

  lemma LiteralRuns(bytes: seq<Byte>)
    ensures LiteralBytes([]) == []
    ensures var k := if |bytes| > 64 then 64 else |bytes|;
      bytes != [] ==> LiteralBytes(bytes) == [k - 1] + bytes[..k] + LiteralBytes(bytes[k..])
  {
  }

  lemma EatOne(minMatch: nat, p: Pre, c: Byte, rest: seq<Byte>)
    ensures EatAll(minMatch, p, [c] + rest) ==
      match Eat(minMatch, p, c) case None => None case Some(p') => EatAll(minMatch, p', rest)
  {
    assert ([c] + rest)[1..] == rest;
  }

  lemma RunHeader(minMatch: nat, k: nat, buf: seq<Byte>, rest: seq<Byte>)
    requires 1 <= k <= 64
    ensures EatAll(minMatch, Fresh(buf), [k - 1] + rest) == EatAll(minMatch, InRun(k, buf), rest)
  {
    EatOne(minMatch, Fresh(buf), k - 1, rest);
  }

  lemma ReadPiece(minMatch: nat, l: nat, off: nat, buf: seq<Byte>, rest: seq<Byte>)
    requires minMatch <= l < minMatch + 64 && 1 <= off <= |buf| && off <= 0x1_0000_0000
    ensures EatAll(minMatch, Fresh(buf), PieceCode(minMatch, l, off - 1) + rest)
         == EatAll(minMatch, Fresh(CopyMatch(buf, l, off)), rest)
  {
    hide EatAll; hide CopyMatch;
    var o := off - 1;
    var o1, o2 := o / 256, o / 256 / 256;
    if o < 0x1_0000 {
      EatOne(minMatch, InOffset(2, l, o1, buf), o % 256, rest);
      EatOne(minMatch, InOffset(3, l, 0, buf), o1, [o % 256] + rest);
      EatOne(minMatch, Fresh(buf), 64 + l - minMatch, [o1] + ([o % 256] + rest));
      assert PieceCode(minMatch, l, o) + rest == [64 + l - minMatch] + ([o1] + ([o % 256] + rest));
    } else if o < 0x100_0000 {
      EatOne(minMatch, InOffset(2, l, o1, buf), o % 256, rest);
      EatOne(minMatch, InOffset(3, l, o2, buf), o1 % 256, [o % 256] + rest);
      EatOne(minMatch, InOffset(4, l, 0, buf), o2, [o1 % 256] + ([o % 256] + rest));
      EatOne(minMatch, Fresh(buf), 128 + l - minMatch, [o2] + ([o1 % 256] + ([o % 256] + rest)));
      assert PieceCode(minMatch, l, o) + rest == [128 + l - minMatch] + ([o2] + ([o1 % 256] + ([o % 256] + rest)));
    } else {
      var o3 := o2 / 256;
      EatOne(minMatch, InOffset(2, l, o1, buf), o % 256, rest);
      EatOne(minMatch, InOffset(3, l, o2, buf), o1 % 256, [o % 256] + rest);
      EatOne(minMatch, InOffset(4, l, o3, buf), o2 % 256, [o1 % 256] + ([o % 256] + rest));
      EatOne(minMatch, InOffset(5, l, 0, buf), o3, [o2 % 256] + ([o1 % 256] + ([o % 256] + rest)));
      EatOne(minMatch, Fresh(buf), 192 + l - minMatch, [o3] + ([o2 % 256] + ([o1 % 256] + ([o % 256] + rest))));
      assert PieceCode(minMatch, l, o) + rest
        == [192 + l - minMatch] + ([o3] + ([o2 % 256] + ([o1 % 256] + ([o % 256] + rest))));
    }
  }

  lemma {:induction false} ReadMatchBytes(minMatch: nat, len: nat, off: nat, buf: seq<Byte>, rest: seq<Byte>)
    requires 1 <= minMatch <= 64 && 1 <= off <= |buf| && off <= 0x1_0000_0000 && (len == 0 || len >= minMatch)
    ensures EatAll(minMatch, Fresh(buf), MatchBytes(minMatch, len, off) + rest)
         == EatAll(minMatch, Fresh(CopyMatch(buf, len, off)), rest)
    decreases len
  {
    hide EatAll; hide PieceCode; hide CopyMatch; hide Piece;
    if len == 0 {
      CopyNone(buf, off);
      assert MatchBytes(minMatch, len, off) + rest == rest;
    } else {
      PieceOk(minMatch, len);
      var l := Piece(minMatch, len);
      var later := MatchBytes(minMatch, len - l, off) + rest;
      assert MatchBytes(minMatch, len, off) + rest == PieceCode(minMatch, l, off - 1) + later;
      ReadPiece(minMatch, l, off, buf, later);
      ReadMatchBytes(minMatch, len - l, off, CopyMatch(buf, l, off), rest);
      CopyTwice(buf, l, len - l, off);
    }
  }

  lemma PieceOk(minMatch: nat, len: nat)
    requires 1 <= minMatch <= 64 && len >= minMatch
    ensures PieceFits(minMatch, len) && 1 <= Piece(minMatch, len) <= len
    ensures Piece(minMatch, len) == len || Piece(minMatch, len) >= 64
  {
  }

  /** Reading undoes writing, item by item. */
  lemma {:induction false} BytesMean(minMatch: nat, items: seq<Item>, buf: seq<Byte>, target: seq<Byte>)
    requires 1 <= minMatch <= 64 && Rebuilds(buf, items, target)
    requires forall i :: 0 <= i < |items| ==> Writable(minMatch, items[i])
    ensures EatAll(minMatch, Fresh(buf), AllBytes(minMatch, items)) == Some(Fresh(target))
    decreases |items|
  {
    hide MatchBytes; hide LiteralBytes;
    if items != [] {
      var rest := AllBytes(minMatch, items[1..]);
      match items[0] {
        case Literals(bytes) => ReadLiteralBytes(minMatch, bytes, buf, rest);
        case Match(len, off) => ReadMatchBytes(minMatch, len, off, buf, rest);
      }
      BytesMean(minMatch, items[1..], Apply(buf, items[0]), target);
    }
  }

  /** The `lzpre` post-processor as a register machine. */
  class Machine {
    const minMatch: nat
    const doe8: bool
    const m: array<Byte>  // M
    var d: nat            // state
    var len: nat          // r1
    var off: nat          // r2
    var b: nat            // bytes written to M
    var out: seq<Byte>
    ghost var base: seq<Byte>

    constructor (minMatch: nat, doe8: bool, size: nat)
      requires 1 <= minMatch && size > 0
      ensures Valid() && Reset() && this.minMatch == minMatch && this.doe8 == doe8
      ensures m.Length == size && fresh(m) && out == []
    {
      this.minMatch, this.doe8 := minMatch, doe8;
      m := new Byte[size];
      d, len, off, b := 0, 0, 0, 0;
      out, base := [], [];
    }

    ghost predicate Valid()
      reads this
    {
      m.Length > 0 && minMatch >= 1 && (d > 0 ==> len >= 1)
    }

    ghost predicate Reset()
      reads this
    {
      d == 0 && b == 0 && base == out
    }

    ghost function Abs(): (p: Pre)
      requires b <= m.Length
      reads this, m
    {
      if d == 0 then Fresh(m[..b]) else if d == 1 then InRun(len, m[..b]) else InOffset(d, len, off, m[..b])
    }

    /** With `rest` still to come, everything means `target`. */
    ghost predicate On(rest: seq<Byte>, target: seq<Byte>)
      reads this, m
    {
      && b <= m.Length && |target| <= m.Length
      && EatAll(minMatch, Abs(), rest) == Some(Fresh(target))
      && out == base + (if doe8 then [] else m[..b])
    }

    method PutByte(a: Byte)
      requires m.Length > 0
      modifies this`b, this`out, m
      ensures b == old(b) + 1 && out == if doe8 then old(out) else old(out) + [a]
      ensures old(b) < m.Length ==> m[..b] == old(m[..b]) + [a]
    {
      if b < m.Length {
        Quotient(b, m.Length, 0, b);
      }
      m[b % m.Length] := a;
      if !doe8 { out := out + [a]; }
      b := b + 1;
    }

    /** *b=*c, c=o back from b; k bytes are left to copy */
    method CopyByte(c: int, ghost k: nat, ghost o: nat, ghost on: bool)
      requires m.Length > 0 && k > 0 && c == b - o - 1
      requires on ==> o + 1 <= b < m.Length && out == base + (if doe8 then [] else m[..b])
      modifies this`b, this`out, m
      ensures b == old(b) + 1
      ensures on ==> CopyMatch(m[..b], k - 1, o + 1) == CopyMatch(old(m[..b]), k, o + 1)
      ensures on ==> out == base + (if doe8 then [] else m[..b])
    {
      hide CopyMatch;
      if on {
        Quotient(c, m.Length, 0, c);
        assert m[c] == m[..b][b - (o + 1)];
        CopyMore(m[..b], k, o + 1);
      }
      PutByte(m[c % m.Length]);
    }

    /** copy and output d=len bytes */
    method Copy(o: nat, ghost on: bool)
      requires m.Length > 0
      requires on ==> o + 1 <= b && b + len <= m.Length && out == base + (if doe8 then [] else m[..b])
      modifies this`b, this`out, m
      ensures b == old(b) + len
      ensures on ==> m[..b] == CopyMatch(old(m[..b]), len, o + 1)
      ensures on ==> out == base + (if doe8 then [] else m[..b])
    {
      hide CopyMatch;
      ghost var buf := if on then m[..b] else [];
      var c, k := b - o - 1, len;
      while k > 0
        invariant 0 <= k <= len && b == old(b) + len - k && c == b - o - 1
        invariant on ==> CopyMatch(m[..b], k, o + 1) == CopyMatch(buf, len, o + 1)
        invariant on ==> out == base + (if doe8 then [] else m[..b])
      {
        CopyByte(c, k, o, on);
        c, k := c + 1, k - 1;
      }
      if on {
        CopyNone(m[..b], o + 1);
      }
    }

    method Feed(c: Byte, ghost rest: seq<Byte>, ghost target: seq<Byte>)
      requires Valid()
      modifies this, m
      ensures Valid() && base == old(base)
      ensures old(On([c] + rest, target)) ==> On(rest, target)
    {
      hide EatAll; hide CopyMatch;
      ghost var on := On([c] + rest, target);
      if on {
        EatOne(minMatch, Abs(), c, rest);
        EatGrows(minMatch, Eat(minMatch, Abs(), c).value, rest);
      }
      if d == 0 {
        d, off := c as int / 64 + 1, 0;
        if d == 1 {
          len := 1 + c;
        } else {
          d := d + 1;
          len := c % 64 + minMatch;
        }
      } else if d == 1 {
        PutByte(c);
        len := len - 1;
        if len == 0 {
          d := 0;
        }
      } else if d > 2 {
        off := off * 256 + c;
        d := d - 1;
      } else {
        Copy(off * 256 + c, on);
        d := 0;
      }
    }

    method Finish(ghost target: seq<Byte>)
      requires Valid() && (doe8 ==> b <= m.Length)
      modifies this, m
      ensures Valid() && Reset()
      ensures old(On([], target)) ==> out == old(base) + if doe8 then E8E9.Decode(target) else target
    {
      hide E8E9.Decode;
      if doe8 {
        var filtered := E8E9.DecodeAndOutput(m, b);
        out := out + filtered;
      }
      b, d, len, off := 0, 0, 0, 0;
      base := out;
    }
  }

  lemma {:induction false} EatGrows(minMatch: nat, p: Pre, s: seq<Byte>)
    requires EatAll(minMatch, p, s).Some?
    ensures |p.buf| <= |EatAll(minMatch, p, s).value.buf|
    decreases |s|
  {
    if s != [] {
      EatGrows(minMatch, Eat(minMatch, p, s[0]).value, s[1..]);
    }
  }
}
