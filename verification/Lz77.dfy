/**
 LZ77 as both `LZBuffer` levels see it: the input is a list of literal runs and of
 matches that repeat earlier output, possibly overlapping themselves.
 */
module Lz77 {
  import opened Bytes

  datatype Item = Literals(bytes: seq<Byte>) | Match(len: nat, off: nat)

  /** Copies `len` bytes from `off` behind the end, one at a time. */
  function CopyMatch(buf: seq<Byte>, len: nat, off: nat): (r: seq<Byte>)
    requires 1 <= off <= |buf|
    ensures |r| == |buf| + len && buf <= r
    decreases len
  {
    if len == 0 then buf else CopyMatch(buf + [buf[|buf| - off]], len - 1, off)
  }

  lemma {:induction false} CopyTwice(buf: seq<Byte>, a: nat, b: nat, off: nat)
    requires 1 <= off <= |buf|
    ensures CopyMatch(CopyMatch(buf, a, off), b, off) == CopyMatch(buf, a + b, off)
    decreases a
  {
    if a > 0 {
      CopyTwice(buf + [buf[|buf| - off]], a - 1, b, off);
    }
  }

  lemma CopyMore(buf: seq<Byte>, k: nat, off: nat)
    requires 1 <= off <= |buf| && k > 0
    ensures CopyMatch(buf, k, off) == CopyMatch(buf + [buf[|buf| - off]], k - 1, off)
  {
  }

  lemma CopyNone(buf: seq<Byte>, off: nat)
    requires 1 <= off <= |buf|
    ensures CopyMatch(buf, 0, off) == buf
  {
  }

  predicate Fits(buf: seq<Byte>, item: Item) {
    item.Match? ==> 1 <= item.off <= |buf|
  }

  function Apply(buf: seq<Byte>, item: Item): (r: seq<Byte>)
    requires Fits(buf, item)
    ensures buf <= r
  {
    match item
    case Literals(bytes) => buf + bytes
    case Match(len, off) => CopyMatch(buf, len, off)
  }

  /** Applying the items to `buf` in order gives `target`. */
  predicate Rebuilds(buf: seq<Byte>, items: seq<Item>, target: seq<Byte>)
    decreases |items|
  {
    if items == [] then buf == target
    else Fits(buf, items[0]) && Rebuilds(Apply(buf, items[0]), items[1..], target)
  }

  lemma {:induction false} RebuildsLast(buf: seq<Byte>, items: seq<Item>, target: seq<Byte>, item: Item)
    requires Rebuilds(buf, items, target) && Fits(target, item)
    ensures Rebuilds(buf, items + [item], Apply(target, item))
    decreases |items|
  {
    if items == [] {
      assert (items + [item])[1..] == [];
    } else {
      RebuildsLast(Apply(buf, items[0]), items[1..], target, item);
      assert (items + [item])[1..] == items[1..] + [item];
    }
  }

  /** What the search loops of `fill` establish about a candidate `p`: equal bytes at distances l1..l-1. */
  predicate SameBytes(input: seq<Byte>, p: nat, i: nat, l1: nat, l: nat) {
    p < i && l1 <= l && i + l <= |input| && forall j :: i + l1 <= j < i + l ==> input[j] == input[j - (i - p)]
  }

  /** Copying from a match reproduces the input. */
  lemma {:induction false} MatchReproduces(input: seq<Byte>, p: nat, i: nat, l1: nat, l: nat)
    requires SameBytes(input, p, i, l1, l)
    ensures CopyMatch(input[..i + l1], l - l1, i - p) == input[..i + l]
    decreases l - l1
  {
    if l1 < l {
      assert input[..i + l1] + [input[i + l1]] == input[..i + l1 + 1];
      MatchReproduces(input, p, i, l1 + 1, l);
    }
  }

  /** The match length loops: forward from the look-ahead, then backward to the first differing byte. */
  method MeasureMatch(input: seq<Byte>, p: nat, i: nat, lookahead: nat, maxMatch: nat) returns (l: nat, l1: nat)
    requires p < i && i + lookahead <= |input| && lookahead <= maxMatch
    ensures SameBytes(input, p, i, l1, l) && l1 <= lookahead <= l <= maxMatch
    ensures i + l < |input| && l < maxMatch ==> input[p + l] != input[i + l]
    ensures l1 > 0 ==> input[p + l1 - 1] != input[i + l1 - 1]
  {
    l := lookahead;
    while i + l < |input| && l < maxMatch && input[p + l] == input[i + l]
      invariant lookahead <= l <= maxMatch && SameBytes(input, p, i, lookahead, l)
    {
      l := l + 1;
    }
    l1 := lookahead;
    while l1 > 0 && input[p + l1 - 1] == input[i + l1 - 1]
      invariant l1 <= lookahead && SameBytes(input, p, i, l1, l)
    {
      l1 := l1 - 1;
    }
  }
}
