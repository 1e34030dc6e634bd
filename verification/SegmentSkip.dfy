/**
 `Decoder::skip` finds the end of a segment without decoding it: on modelled data
 by looking for four zero bytes, on stored data by hopping over the chunks.
 */
module SegmentSkip {
  import opened Bytes
  import opened CodingInterval
  import opened ModeledSegments

  /** `while (curr==0) curr=get();` */
  function SkipLead(curr: U32, rest: seq<Byte>): (r: (U32, seq<Byte>))
    ensures r.0 != 0
    decreases |rest|
  {
    if curr != 0 then (curr, rest)
    else if rest == [] then (0xFFFF_FFFF, [])
    else SkipLead(rest[0], rest[1..])
  }

  /** `while (curr && (c=get())>=0) curr=curr<<8|c;` */
  function SkipToZeros(curr: U32, rest: seq<Byte>): (r: (U32, seq<Byte>))
    decreases |rest|
  {
    if curr == 0 || rest == [] then (curr, rest)
    else SkipToZeros(Slide(curr, rest[0]), rest[1..])
  }

  /** `while ((c=get())==0);` : the byte it stops at, or -1. */
  function SkipZeros(rest: seq<Byte>): (r: (int, seq<Byte>))
    decreases |rest|
  {
    if rest == [] then (-1, [])
    else if rest[0] == 0 then SkipZeros(rest[1..])
    else (rest[0], rest[1..])
  }

  /** `Decoder::skip` on modelled data: the byte returned, the window left, the input left. */
  function SkipModeled(curr: U32, rest: seq<Byte>): (r: (int, U32, seq<Byte>)) {
    var (w, rest1) := SkipLead(curr, rest);
    var (w', rest2) := SkipToZeros(w, rest1);
    var (c, rest3) := SkipZeros(rest2);
    (c, w', rest3)
  }

  lemma {:induction false} ZerosThenMarker(k: nat, marker: Byte, tail: seq<Byte>)
    requires marker != 0
    ensures SkipZeros(Zeros(k) + [marker] + tail) == (marker, tail)
  {
    var s := Zeros(k) + [marker] + tail;
    if k == 0 {
      assert s[1..] == tail;
    } else {
      ZerosThenMarker(k - 1, marker, tail);
      assert s[1..] == Zeros(k - 1) + [marker] + tail;
    }
  }

  /** A word is zero only if its four bytes are. */
  lemma ZeroWordBytes(s: seq<Byte>)
    requires |s| >= 4
    ensures Word(s) == 0 <==> s[0] == s[1] == s[2] == s[3] == 0
  {
  }

  /** The window slides over the code; it can become zero only when it has reached the zeros. */
  lemma {:induction false} WindowFindsTheZeros(code: seq<Byte>, marker: Byte, tail: seq<Byte>, i: nat)
    requires NoZeroWord(code) && |code| >= 4 && marker != 0
    requires i <= |code|
    ensures var all := code + ZEROS + [marker] + tail;
      var r := SkipToZeros(Word(all[i..]), all[i + 4..]);
      r.0 == 0 && SkipZeros(r.1) == (marker, tail)
    decreases |code| - i
  {
    hide Word; hide SkipZeros;
    var all := code + ZEROS + [marker] + tail;
    if Word(all[i..]) == 0 {
      ZeroWordBytes(all[i..]);
      if i <= |code| - 4 {
        assert all[i..] == code[i..] + (ZEROS + [marker] + tail);
        SameWord(code[i..], ZEROS + [marker] + tail);
        assert false;
      }
      assert all[i + 4..] == Zeros(|code| - i) + [marker] + tail;
      ZerosThenMarker(|code| - i, marker, tail);
    } else {
      if i == |code| {
        ZeroWordBytes(all[i..]);
        assert false;
      }
      WordSlides(all[i..]);
      assert all[i..][1..] == all[i + 1..] && all[i..][4] == all[i + 4] == all[i + 4..][0];
      assert all[i + 4..][1..] == all[i + 1 + 4..];
      WindowFindsTheZeros(code, marker, tail, i + 1);
    }
  }

  /** From the start: the leading zero bytes and the first nonzero one fill the window. */
  lemma LeadFillsWindow(all: seq<Byte>)
    requires |all| >= 4 && Word(all) != 0
    ensures var r := SkipLead(0, all);
      SkipToZeros(r.0, r.1) == SkipToZeros(Word(all), all[4..])
  {
    ZeroWordBytes(all);
    var a, b, c, d := all[0], all[1], all[2], all[3];
    assert all[1..][1..] == all[2..] && all[2..][1..] == all[3..] && all[3..][1..] == all[4..];
    assert SkipLead(0, all) == SkipLead(a, all[1..]);
    if a != 0 {
      Feed(a, all, 1);
      Feed(Append(a, b), all, 2);
      Feed(Append(Append(a, b), c), all, 3);
    } else if b != 0 {
      assert SkipLead(a, all[1..]) == SkipLead(b, all[2..]);
      Feed(b, all, 2);
      Feed(Append(b, c), all, 3);
    } else if c != 0 {
      assert SkipLead(a, all[1..]) == SkipLead(b, all[2..]) == SkipLead(c, all[3..]);
      Feed(c, all, 3);
    } else {
      assert SkipLead(a, all[1..]) == SkipLead(b, all[2..]) == SkipLead(c, all[3..]) == SkipLead(d, all[4..]);
    }
  }

  lemma Feed(w: U32, all: seq<Byte>, i: nat)
    requires 0 < w < 0x100_0000 && i < |all|
    ensures SkipToZeros(w, all[i..]) == SkipToZeros(Append(w, all[i]), all[i + 1..])
  {
    hide Slide;
    SlideDrops(0, w, all[i]);
    assert all[i..][1..] == all[i + 1..];
  }

  /**
   Skip agrees with decoding.  Let the decoder stand at the start of a segment
   (`curr == 0`) or at any byte boundary inside it (in step with the encoder).  Then
   `skip` returns the byte behind the four zeros, which is where SegmentRoundTrip says
   full decoding stops, and leaves the window empty for the next segment.
   */
  lemma SkipAgrees<S>(m: Predictor<S>, c: Coder<S>, data: seq<Byte>, marker: Byte, tail: seq<Byte>, d: Decoding<S>)
    requires c.r.Ready() && marker != 0
    requires d == Before(m, c, data, [marker] + tail)
          || Sync(d, c, CodeSegment(m, c, data) + ZEROS + ([marker] + tail))
    ensures SkipModeled(d.curr, d.rest) == (marker, 0, tail)
  {
    hide SkipToZeros; hide SkipZeros; hide Word; hide CodeSegment;
    var code := CodeSegment(m, c, data);
    var all := code + ZEROS + ([marker] + tail);
    assert all == code + ZEROS + [marker] + tail == code + (ZEROS + [marker] + tail);
    SegmentInside(m, c, data);
    NonzeroWindow(c.r, code, ZEROS + [marker] + tail);
    WindowFindsTheZeros(code, marker, tail, 0);
    assert all[0..] == all;
    if d == Before(m, c, data, [marker] + tail) {
      LeadFillsWindow(all);
    }
  }

  /** The decoder after `k` calls of `decompress`. */
  function After<S>(m: Predictor<S>, d: Decoding<S>, k: nat): (o: Outcome<Decoding<S>>)
    requires d.r.Ready()
    decreases k
  {
    if k == 0 then Ok(d)
    else var (_, d') :- Decompress(m, d); After(m, d', k - 1)
  }

  lemma {:induction false} StaysInSync<S>(m: Predictor<S>, c: Coder<S>, data: seq<Byte>, k: nat,
                                          end: seq<Byte>, d: Decoding<S>)
    returns (c': Coder<S>)
    requires c.r.Ready() && k <= |data|
    requires Sync(d, c, CodeSegment(m, c, data) + ZEROS + end)
    ensures c'.r.Ready() && After(m, d, k).Ok?
    ensures Sync(After(m, d, k).value, c', CodeSegment(m, c', data[k..]) + ZEROS + end)
    decreases k
  {
    hide Decompress; hide Sync; hide AfterByte; hide CodeSegment;
    if k == 0 {
      assert data[0..] == data;
      return c;
    }
    NextFollows(m, d, c, data, end);
    c' := StaysInSync(m, AfterByte(m, c, data[0]), data[1..], k - 1, end, Decompress(m, d).value.1);
    assert data[1..][k - 1..] == data[k..];
  }

  /** `skip` called after any number of decoded bytes still finds the marker. */
  lemma SkipFromAnyBoundary<S>(m: Predictor<S>, c: Coder<S>, data: seq<Byte>, k: nat, marker: Byte, tail: seq<Byte>)
    requires c.r.Ready() && marker != 0 && k <= |data|
    ensures var o := After(m, Before(m, c, data, [marker] + tail), k);
      o.Ok? && SkipModeled(o.value.curr, o.value.rest) == (marker, 0, tail)
  {
    hide SkipModeled; hide Load; hide GetBit; hide GetBits; hide Word; hide CodeSegment;
    var d := Before(m, c, data, [marker] + tail);
    if k == 0 {
      SkipAgrees(m, c, data, marker, tail, d);
    } else {
      BeginSyncs(m, c, data, [marker] + tail);
      var c' := StaysInSync(m, c, data, k, [marker] + tail, Begin(d));
      assert Decompress(m, d) == Decompress(m, Begin(d));
      SkipAgrees(m, c', data[k..], marker, tail, After(m, d, k).value);
    }
  }
}
