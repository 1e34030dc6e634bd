/**
 Level 3 of `LZBuffer` and its `bwtrle` post-processor.  The machine keeps the transform
 in M, 256 counters at the top of H and, below them, a linked list of rows that it then
 walks; blocks of at most 16 MB also pack the byte of each row into the list.
 */
module InverseBwt {
  import opened Arith
  import opened Bytes
  import opened SuffixOrder
  import E8E9

  /** The end mark's row, least significant byte first. */
  function IndexBytes(idx: U32): (s: seq<Byte>) {
    [idx % 256, idx / 256 % 256, idx / 256 / 256 % 256, idx / 256 / 256 / 256]
  }

  ghost function Coded(s: seq<Byte>, sa: seq<nat>): (out: seq<Byte>)
    requires IsSuffixArray(s, sa) && |s| < 0x1_0000_0000
  {
    Bwt(s, sa) + IndexBytes(Start(s, sa))
  }

  /** `fill` at level 3 */
  method Fill(input: seq<Byte>, sa: seq<nat>) returns (out: seq<Byte>)
    requires IsSuffixArray(input, sa) && |input| < 0x1_0000_0000
    ensures out == Coded(input, sa)
  {
    hide IndexBytes;
    var n, idx, i: nat := |input|, 0, 0;
    ghost var l := Bwt(input, sa);
    out := [];
    while i <= n
      invariant i <= n + 1 && out == l[..i]
      invariant idx == (if Start(input, sa) < i then Start(input, sa) else 0)
    {
      assert l[..i] + [l[i]] == l[..i + 1];
      StartIsOnly(input, sa, i);
      if i == 0 {
        out := out + [if n > 0 then input[n - 1] else 255];
      } else if sa[i - 1] == 0 {
        idx := i;
        out := out + [255];
      } else {
        out := out + [input[sa[i - 1] - 1]];
      }
      i := i + 1;
    }
    ghost var whole := idx;
    out := out + [idx % 256];
    idx := idx / 256;
    out := out + [idx % 256];
    idx := idx / 256;
    out := out + [idx % 256];
    idx := idx / 256;
    SmallIndex(whole);
    out := out + [idx % 256];
    assert l[..n + 1] == l;
    assert out == l + IndexBytes(whole) by { IndexIs(whole); }
  }

  lemma SmallIndex(idx: U32)
    ensures idx / 256 / 256 / 256 < 256
  {
  }

  lemma IndexIs(idx: U32)
    ensures IndexBytes(idx) == [idx % 256, idx / 256 % 256, idx / 256 / 256 % 256, idx / 256 / 256 / 256 % 256]
  {
    SmallIndex(idx);
  }

  lemma IndexReadsBack(idx: U32)
    ensures var s := IndexBytes(idx);
      ((s[3] as int * 256 + s[2] as int) * 256 + s[1] as int) * 256 + s[0] as int == idx
  {
  }

  class Machine {
    const m: array<Byte>    // M
    const h: array<nat>     // H, 32-bit cells
    const packed: bool      // blocks of at most 16 MB
    const doe8: bool
    var b: nat
    var out: seq<Byte>

    constructor (size: nat, packed: bool, doe8: bool)
      ensures m.Length == h.Length == size && fresh(m) && fresh(h) && b == 0 && out == []
      ensures this.packed == packed && this.doe8 == doe8
      ensures forall k :: 0 <= k < h.Length ==> h[k] == 0
    {
      this.packed, this.doe8 := packed, doe8;
      m := new Byte[size];
      h := new nat[size](_ => 0);
      b, out := 0, [];
    }

    /** Input byte: *b=a b++ */
    method Feed(a: Byte)
      requires b < m.Length
      modifies this`b, m
      ensures b == old(b) + 1 && m[..b] == old(m[..b]) + [a]
    {
      m[b] := a;
      b := b + 1;
    }

    /** The index of H for ~x. */
    function Top(x: nat): int { h.Length - 1 - x }

    /** count bytes in H[~1..~255, ~0] */
    method CountBytes(l: seq<Byte>)
      requires h.Length >= 256 && |l| <= m.Length && m[..|l|] == l
      requires forall x :: 0 <= x < 256 ==> h[Top(x)] == 0
      modifies h
      ensures forall x :: 0 <= x < 256 ==> h[Top(x)] == Count(Bumped(l, x), |l|)
    {
      var k := |l|;
      while k > 0
        invariant 0 <= k <= |l|
        invariant forall x :: 0 <= x < 256 ==> h[Top(x)] + Count(Bumped(l, x), k) == Count(Bumped(l, x), |l|)
      {
        k := k - 1;
        var d := Top((m[k] as int + 1) % 256);
        assert m[k] == l[k];
        h[d] := h[d] + 1;
      }
    }

    /** cumulative counts: H[~i=0..255] = count of bytes before i */
    method Accumulate(l: seq<Byte>)
      requires h.Length >= 256
      requires forall x :: 0 <= x < 256 ==> h[Top(x)] == Count(Bumped(l, x), |l|)
      modifies h
      ensures forall x :: 0 <= x < 256 ==> h[Top(x)] == First(l, x)
    {
      hide Count; hide First;
      var i, a: nat := 0, 0;
      h[Top(0)] := 1;
      FirstZero(l);
      while i <= 255
        invariant 0 <= i <= 256
        invariant i == 0 ==> a == 0 && h[Top(0)] == 1
        invariant i > 0 ==> a == First(l, i - 1)
        invariant forall x :: 0 <= x < i ==> h[Top(x)] == First(l, x)
        invariant forall x :: i <= x < 256 && x > 0 ==> h[Top(x)] == Count(Bumped(l, x), |l|)
      {
        if i > 0 {
          FirstNext(l, i - 1);
          BumpedIs(l, i);
        }
        a := a + h[Top(i)];
        h[Top(i)] := a;
        i := i + 1;
      }
    }

    /** The transform fits below the 256 counters. */
    ghost predicate Holds(s: seq<Byte>, sa: seq<nat>)
      reads m
    {
      && IsSuffixArray(s, sa) && |s| + 1 + 256 <= h.Length
      && |s| < m.Length && m[..|s| + 1] == Bwt(s, sa)
    }

    /** Rows below k have been put in the list, and the counters have moved past them. */
    ghost predicate Linked(s: seq<Byte>, sa: seq<nat>, k: nat)
      requires Holds(s, sa)
      reads m, h
    {
      var l, idx := Bwt(s, sa), Start(s, sa);
      && (forall c :: 0 <= c < 256 ==> h[Top(c)] == First(l, c) + Count(Equal(l, idx, c), k))
      && (forall j: nat :: j < k && j <= |s| && j != idx ==> h[Longer(s, sa, j)] == j)
    }

    /** d=*b d! *d++ d=*d d-- *d=b */
    method LinkRow(k: nat, ghost s: seq<Byte>, ghost sa: seq<nat>)
      requires Holds(s, sa) && k <= |s| && k != Start(s, sa) && Linked(s, sa, k)
      modifies h
      ensures Linked(s, sa, k + 1)
    {
      hide First; hide Longer; hide Start;
      ghost var l, idx := Bwt(s, sa), Start(s, sa);
      assert m[k] == l[k];
      SlotIsLonger(s, sa, k);
      LongerApart(s, sa, k);
      var t := Top(m[k]);
      h[t] := h[t] + 1;
      var d := h[t] - 1;
      h[d] := k;
    }

    method LinkRows(from: nat, to: nat, ghost s: seq<Byte>, ghost sa: seq<nat>)
      requires Holds(s, sa) && from <= to <= |s| + 1 && !(from <= Start(s, sa) < to) && Linked(s, sa, from)
      modifies h
      ensures Linked(s, sa, to)
    {
      hide Machine.Linked; hide Start;
      var k := from;
      while k < to
        invariant from <= k <= to && Linked(s, sa, k)
      {
        LinkRow(k, s, sa);
        k := k + 1;
      }
    }

    /** The end mark is skipped. */
    lemma SkipMark(s: seq<Byte>, sa: seq<nat>)
      requires Holds(s, sa) && Linked(s, sa, Start(s, sa))
      ensures Linked(s, sa, Start(s, sa) + 1)
    {
      hide First; hide Longer;
    }

    /** Every row but row 0 points to the row of the suffix one byte shorter. */
    ghost predicate Threaded(s: seq<Byte>, sa: seq<nat>)
      requires Holds(s, sa)
      reads m, h
    {
      forall r: nat :: 1 <= r <= |s| ==> h[r] == Row(s, sa, At(s, sa, r) + 1)
    }

    lemma LinkedIsThreaded(s: seq<Byte>, sa: seq<nat>)
      requires Holds(s, sa) && Linked(s, sa, |s| + 1)
      ensures Threaded(s, sa)
    {
      forall r: nat | 1 <= r <= |s|
        ensures h[r] == Row(s, sa, At(s, sa, r) + 1)
      {
        var j := Row(s, sa, At(s, sa, r) + 1);
        StartIsOnly(s, sa, j);
        RowsAreDistinct(s, sa, Longer(s, sa, j), r);
      }
    }

    /** As Threaded, with the row's own byte in the low 8 bits. */
    ghost predicate Packed(s: seq<Byte>, sa: seq<nat>)
      requires IsSuffixArray(s, sa) && |s| < h.Length
      reads h
    {
      && (forall r: nat :: 1 <= r <= |s| ==> h[r] / 256 == Row(s, sa, At(s, sa, r) + 1))
      && (forall r: nat :: r <= |s| ==> h[r] % 256 == Bwt(s, sa)[r])
    }

    /** copy M to low 8 bits of H */
    method PackCells(n: nat)
      requires n <= h.Length && n <= m.Length
      modifies h
      ensures forall r: nat :: r < n ==> h[r] == Cell(old(h[r]), m[r])
    {
      hide Cell;
      var k := 0;
      while k < n
        invariant 0 <= k <= n
        invariant forall r: nat :: k <= r < n ==> h[r] == old(h[r])
        invariant forall r: nat :: r < k ==> h[r] == Cell(old(h[r]), m[r])
      {
        h[k] := Cell(h[k], m[k]);
        k := k + 1;
      }
    }

    method Pack(ghost s: seq<Byte>, ghost sa: seq<nat>, n: nat)
      requires Holds(s, sa) && n == |s| + 1 && |s| < 0x100_0000 && Threaded(s, sa)
      modifies h
      ensures Packed(s, sa)
    {
      hide Row; hide IsSuffixArray; hide Indexes; hide At; hide Cell;
      ghost var was := h[..];
      PackCells(n);
      PackedFrom(s, sa, was);
    }

    lemma PackedFrom(s: seq<Byte>, sa: seq<nat>, was: seq<nat>)
      requires Holds(s, sa) && |s| < 0x100_0000 && |was| == h.Length
      requires forall r: nat :: 1 <= r <= |s| ==> was[r] == Row(s, sa, At(s, sa, r) + 1)
      requires forall r: nat :: r < |s| + 1 ==> h[r] == Cell(was[r], m[r])
      ensures Packed(s, sa)
    {
      hide Row; hide IsSuffixArray; hide Indexes; hide At; hide Cell;
      Indexed(s, sa);
      forall r: nat | r <= |s|
        ensures h[r] % 256 == Bwt(s, sa)[r] && (was[r] < 0x100_0000 ==> h[r] / 256 == was[r])
      {
        assert m[r] == m[..|s| + 1][r];
        PackCell(was[r], m[r]);
      }
    }

    /** d=*d; a=M[d] */
    method StepPlain(d: nat, ghost s: seq<Byte>, ghost sa: seq<nat>) returns (d': nat, a: Byte)
      requires Holds(s, sa) && Threaded(s, sa) && 1 <= d <= |s|
      ensures At(s, sa, d) < |s| && IsRow(s, sa, d', At(s, sa, d) + 1) && a == s[At(s, sa, d)]
    {
      hide IsSuffixArray; hide Indexes; hide Row;
      Indexed(s, sa);
      BeforeLast(s, sa, d, At(s, sa, d));
      d' := h[d];
      a := m[d'];
      assert a == m[..|s| + 1][d'];
    }

    /** d=*d>>8; a=*d */
    method StepPacked(d: nat, ghost s: seq<Byte>, ghost sa: seq<nat>) returns (d': nat, a: Byte)
      requires IsSuffixArray(s, sa) && |s| < h.Length && Packed(s, sa) && 1 <= d <= |s|
      ensures At(s, sa, d) < |s| && IsRow(s, sa, d', At(s, sa, d) + 1) && a == s[At(s, sa, d)]
    {
      hide IsSuffixArray; hide Indexes; hide Row;
      Indexed(s, sa);
      BeforeLast(s, sa, d, At(s, sa, d));
      d' := h[d] / 256;
      a := h[d'] % 256;
    }

    /** Walk the list from the end mark's row and output. */
    method WalkPlain(idx: nat, ghost s: seq<Byte>, ghost sa: seq<nat>)
      requires IsSuffixArray(s, sa) && Holds(s, sa) && Threaded(s, sa) && idx == Start(s, sa) && !doe8
      modifies this`out
      ensures out == old(out) + s
    {
      hide *;
      StartRow(s, sa);
      var d: nat := idx;
      ghost var p := 0;
      while d != 0
        invariant IsRow(s, sa, d, p) && p <= |s| && out == old(out) + s[..p]
        decreases |s| - p
      {
        d, p := EmitPlain(d, p, s, sa);
      }
      LastRow(s, sa, p);
      assert s[..|s|] == s;
    }

    method EmitPlain(d: nat, ghost p: nat, ghost s: seq<Byte>, ghost sa: seq<nat>) returns (d': nat, ghost p': nat)
      requires Holds(s, sa) && Threaded(s, sa) && IsRow(s, sa, d, p) && d != 0
      modifies this`out
      ensures p < |s| && p' == p + 1 && IsRow(s, sa, d', p') && out == old(out) + [s[p]]
    {
      var a;
      d', a := StepPlain(d, s, sa);
      out := out + [a];
      p' := p + 1;
    }

    /** Walk, passing every byte through the filter in R4 and R5 before it is output. */
    method WalkFiltering(idx: nat, ghost s: seq<Byte>, ghost sa: seq<nat>)
      requires IsSuffixArray(s, sa) && Holds(s, sa) && Threaded(s, sa) && idx == Start(s, sa) && doe8
      modifies this`out
      ensures out == old(out) + E8E9.Decode(s)
    {
      hide *;
      StartRow(s, sa);
      var filter := new E8E9.RegisterWindow(out);
      var d: nat := idx;
      ghost var p := 0;
      assert s[..0] == [];
      while d != 0
        invariant IsRow(s, sa, d, p) && p <= |s| && fresh(filter) && filter.Read(s[..p], old(out))
        decreases |s| - p
        modifies filter
      {
        BeforeLast(s, sa, d, p);
        var d', a := StepPlain(d, s, sa);
        assert s[..p] + [a] == s[..p + 1];
        filter.Take(a, s[..p], old(out));
        d, p := d', p + 1;
      }
      LastRow(s, sa, p);
      assert s[..|s|] == s;
      filter.Flush(s, old(out));
      out := filter.out;
    }

    /** Walk the packed list; a filtered block is first copied back to M. */
    method WalkPacked(idx: nat, ghost s: seq<Byte>, ghost sa: seq<nat>)
      requires IsSuffixArray(s, sa) && |s| < h.Length && |s| <= m.Length && Packed(s, sa) && idx == Start(s, sa)
      modifies this`out, m
      ensures out == old(out) + if doe8 then E8E9.Decode(s) else s
    {
      hide *;
      StartRow(s, sa);
      var d: nat, b: nat := idx, 0;
      while d != 0
        invariant IsRow(s, sa, d, b) && b <= |s|
        invariant doe8 ==> m[..b] == s[..b] && out == old(out)
        invariant !doe8 ==> out == old(out) + s[..b]
        decreases |s| - b
      {
        BeforeLast(s, sa, d, b);
        var d', a := StepPacked(d, s, sa);
        assert s[..b] + [a] == s[..b + 1];
        if doe8 { m[b] := a; } else { out := out + [a]; }
        b := b + 1;
        d := d';
      }
      LastRow(s, sa, b);
      assert s[..|s|] == s;
      if doe8 {
        var filtered := E8E9.DecodeAndOutput(m, b);
        out := out + filtered;
      }
    }

    /** End of input: the inverse transform. */
    method Finish(ghost s: seq<Byte>, ghost sa: seq<nat>)
      requires IsSuffixArray(s, sa) && |s| + 1 + 256 <= h.Length && |s| < 0x1_0000_0000
      requires b <= m.Length && m[..b] == Coded(s, sa) && (packed ==> |s| < 0x100_0000)
      requires forall x :: 0 <= x < 256 ==> h[Top(x)] == 0
      modifies this, m, h
      ensures out == old(out) + if doe8 then E8E9.Decode(s) else s
    {
      var idx := ReadIndex(s, sa);
      Thread(idx, s, sa);
      if packed {
        Pack(s, sa, b);
        WalkPacked(idx, s, sa);
      } else if doe8 {
        WalkFiltering(idx, s, sa);
      } else {
        WalkPlain(idx, s, sa);
      }
    }

    /** index in last 4 bytes */
    method ReadIndex(ghost s: seq<Byte>, ghost sa: seq<nat>) returns (idx: nat)
      requires IsSuffixArray(s, sa) && |s| < 0x1_0000_0000 && b <= m.Length && m[..b] == Coded(s, sa)
      modifies this`b
      ensures idx == Start(s, sa) && b == |s| + 1 && m[..b] == Bwt(s, sa)
    {
      hide IndexBytes; hide Bwt; hide Start; hide IsSuffixArray; hide Indexes;
      Indexed(s, sa);
      ghost var code, i := Coded(s, sa), Start(s, sa);
      IndexSize(i);
      assert code[b - 4..] == IndexBytes(i);
      assert m[b - 4] == code[b - 4] && m[b - 3] == code[b - 3] && m[b - 2] == code[b - 2] && m[b - 1] == code[b - 1];
      assert code[b - 4] == IndexBytes(i)[0] && code[b - 3] == IndexBytes(i)[1];
      assert code[b - 2] == IndexBytes(i)[2] && code[b - 1] == IndexBytes(i)[3];
      IndexReadsBack(i);
      idx := ((m[b - 1] as int * 256 + m[b - 2] as int) * 256 + m[b - 3] as int) * 256 + m[b - 4] as int;
      b := b - 4;
      assert m[..b] == code[..b] == Bwt(s, sa);
    }

    /** Count, accumulate, and build the list around the end mark. */
    method Thread(idx: nat, ghost s: seq<Byte>, ghost sa: seq<nat>)
      requires Holds(s, sa) && idx == Start(s, sa) && b == |s| + 1
      requires forall x :: 0 <= x < 256 ==> h[Top(x)] == 0
      modifies h
      ensures Holds(s, sa) && Threaded(s, sa)
    {
      hide First; hide Longer; hide Count;
      CountBytes(m[..b]);
      Accumulate(m[..b]);
      NothingYet(Bwt(s, sa), idx);
      LinkRows(0, idx, s, sa);
      SkipMark(s, sa);
      LinkRows(idx + 1, b, s, sa);
      LinkedIsThreaded(s, sa);
    }
  }

  /** Row d is the row of suffix p. */
  ghost predicate IsRow(s: seq<Byte>, sa: seq<nat>, d: nat, p: nat)
    requires IsSuffixArray(s, sa)
  {
    d <= |s| && At(s, sa, d) == p
  }

  lemma StartRow(s: seq<Byte>, sa: seq<nat>)
    requires IsSuffixArray(s, sa)
    ensures IsRow(s, sa, Start(s, sa), 0)
  {
  }

  /** Only row 0 holds the empty suffix. */
  lemma LastRow(s: seq<Byte>, sa: seq<nat>, p: nat)
    requires IsSuffixArray(s, sa) && IsRow(s, sa, 0, p)
    ensures p == |s|
  {
  }

  lemma BeforeLast(s: seq<Byte>, sa: seq<nat>, d: nat, p: nat)
    requires IsSuffixArray(s, sa) && IsRow(s, sa, d, p) && d != 0
    ensures 1 <= d <= |s| && Indexes(s, sa) && At(s, sa, d) == p < |s|
  {
  }

  lemma NothingYet(l: seq<Byte>, idx: nat)
    ensures forall c :: Count(Equal(l, idx, c), 0) == 0
  {
  }

  lemma IndexSize(idx: U32)
    ensures |IndexBytes(idx)| == 4
  {
  }

  /** `(x << 8) + a` in 32 bits */
  function Cell(x: nat, a: Byte): (y: nat) {
    (x % 0x100_0000 * 256 + a) % 0x1_0000_0000
  }

  lemma PackCell(x: nat, a: Byte)
    ensures Cell(x, a) % 256 == a && (x < 0x100_0000 ==> Cell(x, a) / 256 == x)
  {
    var z := x % 0x100_0000 * 256 + a;
    assert z < 0x1_0000_0000;
    Quotient(z, 256, x % 0x100_0000, a);
  }

  /** Distinct rows go to distinct slots. */
  lemma LongerApart(s: seq<Byte>, sa: seq<nat>, k: nat)
    requires IsSuffixArray(s, sa) && k <= |s| && k != Start(s, sa)
    ensures forall j: nat :: j <= |s| && j != Start(s, sa) && j != k ==> Longer(s, sa, j) != Longer(s, sa, k)
  {
    forall j: nat | j <= |s| && j != Start(s, sa) && j != k
      ensures Longer(s, sa, j) != Longer(s, sa, k)
    {
      if Longer(s, sa, j) == Longer(s, sa, k) {
        RowsAreDistinct(s, sa, j, k);
      }
    }
  }

  /** Bytes counted in H[~x]. */
  function Bumped(l: seq<Byte>, x: nat): (p: nat -> bool) {
    (j: nat) => j < |l| && (l[j] as int + 1) % 256 == x
  }

  lemma BumpedIs(l: seq<Byte>, x: nat)
    requires 0 < x < 256
    ensures Count(Bumped(l, x), |l|) == Count(Same(l, x - 1), |l|)
  {
    CountSame(Bumped(l, x), Same(l, x - 1), |l|);
  }

  /**
   BWT round trip: for every block that leaves room for the counters and every correct
   suffix array of it (after the filter, if any), packed or not, the machine outputs the
   data.
   */
  method BwtThroughBoth(data: seq<Byte>, sa: seq<nat>, size: nat, packed: bool, doe8: bool) returns (out: seq<Byte>)
    requires IsSuffixArray(if doe8 then E8E9.Encode(data) else data, sa)
    requires |data| + 4096 <= size && |data| < 0x1_0000_0000 && (packed ==> |data| < 0x100_0000)
    ensures out == data
  {
    hide E8E9.Encode; hide E8E9.Decode; hide IsSuffixArray;
    var input := data;
    if doe8 {
      var buf := new Byte[|data|](i requires 0 <= i < |data| => data[i]);
      assert buf[..] == data;
      E8E9.EncodeInPlace(buf);
      input := buf[..];
    }
    E8E9.RoundTrip(data);
    var code := Fill(input, sa);
    var z := new Machine(size, packed, doe8);
    var k := 0;
    CodeSize(input, sa);
    while k < |code|
      invariant 0 <= k <= |code| && z.b == k && z.m[..k] == code[..k] && fresh(z) && fresh(z.m) && z.out == []
      invariant forall j :: 0 <= j < z.h.Length ==> z.h[j] == 0
      modifies z, z.m
    {
      z.Feed(code[k]);
      assert code[..k] + [code[k]] == code[..k + 1];
      k := k + 1;
    }
    assert code[..k] == code;
    z.Finish(input, sa);
    out := z.out;
  }

  lemma CodeSize(s: seq<Byte>, sa: seq<nat>)
    requires IsSuffixArray(s, sa) && |s| < 0x1_0000_0000
    ensures |Coded(s, sa)| == |s| + 5
  {
  }
}
