/**
 Segments of a modelled ZPAQ block: what `Encoder::compress` writes for a run of
 bytes under any deterministic predictor, what `Decoder::decompress` makes of it,
 and what `Decoder::skip` makes of it without decoding.
 */
module ModeledSegments {
  import opened Arith
  import opened Bytes
  import opened CodingInterval

  /** Any deterministic bit predictor: a start state, a 15-bit prediction, an update. */
  datatype Predictor<!S> = Predictor(init: S, predict: S -> Prediction, update: (S, bool) -> S)

  type Prediction = p: int | 0 <= p < 0x8000

  /** The encoder's interval and predictor state. */
  datatype Coder<S> = Coder(r: Interval, s: S)

  // ---- Encoding

  /** What one coded bit writes, and the interval it leaves. */
  function PutBit(r: Interval, y: bool, p: Prob): (out: seq<Byte>)
    requires r.Ready()
  {
    Shifted(Narrow(r, y, p))
  }

  function AfterBit(r: Interval, y: bool, p: Prob): (r': Interval)
    requires r.Ready()
    ensures r'.Ready()
  {
    Settle(Narrow(r, y, p))
  }

  /** A bit of chance `p` leaves its share of the interval, written out and widened. */
  ghost predicate LeavesShare(r: Interval, y: bool, p: Prob, out: seq<Byte>, r': Interval) {
    exists n: Interval :: n.Live() && Share(r, y, p, n) && out == Shifted(n) && r' == Settle(n)
  }

  lemma BitLeavesShare(r: Interval, y: bool, p: Prob)
    requires r.Ready()
    ensures LeavesShare(r, y, p, PutBit(r, y, p), AfterBit(r, y, p))
  {
    hide Share; hide Shifted; hide Settle; hide Mid;
    var n := Narrow(r, y, p);
    assert n.Live() && Share(r, y, p, n);
  }

  function Chance<S>(m: Predictor<S>, s: S): Prob {
    m.predict(s) * 2 + 1
  }

  function PredictedBit<S>(m: Predictor<S>, c: Coder<S>, y: bool): (c': Coder<S>)
    requires c.r.Ready()
    ensures c'.r.Ready()
  {
    Coder(AfterBit(c.r, y, Chance(m, c.s)), m.update(c.s, y))
  }

  function CodeBits<S>(m: Predictor<S>, c: Coder<S>, bits: seq<bool>): (out: seq<Byte>)
    requires c.r.Ready()
    decreases |bits|
  {
    if bits == [] then []
    else PutBit(c.r, bits[0], Chance(m, c.s)) + CodeBits(m, PredictedBit(m, c, bits[0]), bits[1..])
  }

  function AfterBits<S>(m: Predictor<S>, c: Coder<S>, bits: seq<bool>): (c': Coder<S>)
    requires c.r.Ready()
    ensures c'.r.Ready()
    decreases |bits|
  {
    hide Settle;
    if bits == [] then c else AfterBits(m, PredictedBit(m, c, bits[0]), bits[1..])
  }

  /** The low `k` bits of a number, most significant first. */
  function BitsOf(b: nat, k: nat): (bits: seq<bool>)
    ensures |bits| == k
  {
    if k == 0 then [] else BitsOf(b / 2, k - 1) + [b % 2 == 1]
  }

  /** `b >> i & 1` */
  function BitOf(b: nat, i: nat): bool {
    b / Pow2(i) % 2 == 1
  }

  /** Bit `i` from the left is `b >> (k-1-i) & 1`. */
  lemma {:induction false} BitAt(b: nat, k: nat, i: nat)
    requires i < k
    ensures BitsOf(b, k)[i] == BitOf(b, k - 1 - i)
    decreases k
  {
    if i < k - 1 {
      BitAt(b / 2, k - 1, i);
      HalveDivide(b, Pow2(k - 2 - i));
    }
  }

  /** The decoder's accumulator `c += c + bit`, started at `c`. */
  function Gather(c: nat, bits: seq<bool>): (r: nat)
    decreases |bits|
  {
    if bits == [] then c else Gather(2 * c + (if bits[0] then 1 else 0), bits[1..])
  }

  lemma {:induction false} GatherLast(c: nat, bits: seq<bool>, y: bool)
    ensures Gather(c, bits + [y]) == 2 * Gather(c, bits) + (if y then 1 else 0)
    decreases |bits|
  {
    if bits == [] {
      assert (bits + [y])[1..] == [];
    } else {
      GatherLast(2 * c + (if bits[0] then 1 else 0), bits[1..], y);
      assert (bits + [y])[1..] == bits[1..] + [y];
    }
  }

  lemma {:induction false} GatherBits(b: nat, k: nat)
    requires b < Pow2(k)
    ensures Gather(1, BitsOf(b, k)) == Pow2(k) + b
  {
    if k > 0 {
      GatherBits(b / 2, k - 1);
      GatherLast(1, BitsOf(b / 2, k - 1), b % 2 == 1);
    }
  }

  /** A byte is a 0 flag at probability 0 and then eight predicted bits. */
  function CodeByte<S>(m: Predictor<S>, c: Coder<S>, b: Byte): (out: seq<Byte>)
    requires c.r.Ready()
  {
    PutBit(c.r, false, 0) + CodeBits(m, c.(r := AfterBit(c.r, false, 0)), BitsOf(b, 8))
  }

  function AfterByte<S>(m: Predictor<S>, c: Coder<S>, b: Byte): (c': Coder<S>)
    requires c.r.Ready()
    ensures c'.r.Ready()
  {
    AfterBits(m, c.(r := AfterBit(c.r, false, 0)), BitsOf(b, 8))
  }

  /** All bytes of a segment, then the 1 flag that ends it. */
  function CodeSegment<S>(m: Predictor<S>, c: Coder<S>, data: seq<Byte>): (out: seq<Byte>)
    requires c.r.Ready()
    decreases |data|
  {
    hide Settle;
    if data == [] then PutBit(c.r, true, 0)
    else CodeByte(m, c, data[0]) + CodeSegment(m, AfterByte(m, c, data[0]), data[1..])
  }

  function AfterSegment<S>(m: Predictor<S>, c: Coder<S>, data: seq<Byte>): (c': Coder<S>)
    requires c.r.Ready()
    ensures c'.r.Ready()
    decreases |data|
  {
    hide Settle;
    if data == [] then c.(r := AfterBit(c.r, true, 0))
    else AfterSegment(m, AfterByte(m, c, data[0]), data[1..])
  }

  // ---- Decoding

  /** The decoder: interval, 32-bit window `curr`, predictor state and unread input. */
  datatype Decoding<S> = Decoding(r: Interval, curr: U32, s: S, rest: seq<Byte>)

  datatype Fault = ArchiveCorrupted | UnexpectedEndOfFile | DecodingEndOfStream | SkippedToEof

  datatype Outcome<+T> = Ok(value: T) | Fail(fault: Fault) {
    predicate IsFailure() { Fail? }

    function PropagateFailure<U>(): (o: Outcome<U>)
      requires Fail?
    {
      Fail(fault)
    }

    function Extract(): (v: T)
      requires Ok?
    {
      value
    }
  }

  /** The answer without the state that follows it. */
  function Answer<T, U>(o: Outcome<(T, U)>): (r: Outcome<T>) {
    if o.Ok? then Ok(o.value.0) else Fail(o.fault)
  }

  /** The shifting loop of `decode`. */
  function Refill<S>(d: Decoding<S>): (o: Outcome<Decoding<S>>)
    requires d.r.Live()
    ensures o.Ok? ==> o.value.r == Settle(d.r) && o.value.s == d.s
    decreases |d.rest|
  {
    if !d.r.SameLead() then Ok(d)
    else if d.rest == [] then Fail(UnexpectedEndOfFile)
    else Refill(Decoding(Shift(d.r), Slide(d.curr, d.rest[0]), d.s, d.rest[1..]))
  }

  /** `Decoder::decode`. */
  function GetBit<S>(d: Decoding<S>, p: Prob): (o: Outcome<(bool, Decoding<S>)>)
    requires d.r.Ready()
    ensures o.Ok? ==> o.value.1.r.Ready() && o.value.1.s == d.s
  {
    if d.curr < d.r.low || d.curr > d.r.high then Fail(ArchiveCorrupted)
    else
      var y := d.curr <= Mid(d.r, p);
      var d' :- Refill(d.(r := Narrow(d.r, y, p)));
      Ok((y, d'))
  }

  /** Reads predicted bits into the accumulator until it reaches 256. */
  function GetBits<S>(m: Predictor<S>, d: Decoding<S>, c: nat): (o: Outcome<(nat, Decoding<S>)>)
    requires d.r.Ready() && 0 < c < 512
    ensures o.Ok? ==> o.value.1.r.Ready() && 256 <= o.value.0 < 512
    decreases 512 - c
  {
    if c >= 256 then Ok((c, d))
    else
      var (y, d') :- GetBit(d, Chance(m, d.s));
      GetBits(m, d'.(s := m.update(d.s, y)), 2 * c + (if y then 1 else 0))
  }

  /** `curr = curr<<8 | get()`, where `get` gives -1 at the end of the input. */
  function LoadByte(w: (U32, seq<Byte>)): (r: (U32, seq<Byte>)) {
    if w.1 == [] then (0xFFFF_FFFF, [])
    else (Slide(w.0, w.1[0]), w.1[1..])
  }

  function Load(w: (U32, seq<Byte>)): (r: (U32, seq<Byte>)) {
    LoadByte(LoadByte(LoadByte(LoadByte(w))))
  }

  lemma LoadWord(rest: seq<Byte>)
    requires |rest| >= 4
    ensures Load((0, rest)) == (Word(rest), rest[4..])
  {
    hide LoadByte;
    LoadStep(0, rest, 0);
    LoadStep(Append(0, rest[0]), rest, 1);
    LoadStep(Append(rest[0], rest[1]), rest, 2);
    LoadStep(Append(Append(rest[0], rest[1]), rest[2]), rest, 3);
    assert rest[0..] == rest;
  }

  lemma LoadStep(curr: U32, rest: seq<Byte>, i: nat)
    requires curr < 0x100_0000 && i < |rest|
    ensures LoadByte((curr, rest[i..])) == (Append(curr, rest[i]), rest[i + 1..])
  {
    hide Slide;
    SlideDrops(0, curr, rest[i]);
    assert rest[i..][1..] == rest[i + 1..];
  }

  function Begin<S>(d: Decoding<S>): (d': Decoding<S>)
    ensures d'.r == d.r && d'.s == d.s
  {
    if d.curr != 0 then d
    else var (w, rest) := Load((0, d.rest)); d.(curr := w, rest := rest)
  }

  /** `Decoder::decompress` on a modelled segment: a byte, or -1 at its end. */
  function Decompress<S>(m: Predictor<S>, d: Decoding<S>): (o: Outcome<(int, Decoding<S>)>)
    requires d.r.Ready()
    ensures o.Ok? ==> o.value.1.r.Ready() && -1 <= o.value.0 < 256
  {
    var (end, d') :- GetBit(Begin(d), 0);
    if end then
      if d'.curr != 0 then Fail(DecodingEndOfStream) else Ok((-1, d'))
    else
      var (c, d'') :- GetBits(m, d', 1);
      Ok((c - 256, d''))
  }

  /** Calling `Decompress` until it answers -1 yields exactly `data` and ends in `d'`. */
  ghost predicate Decodes<S>(m: Predictor<S>, d: Decoding<S>, data: seq<Byte>, d': Decoding<S>)
    requires d.r.Ready()
    decreases |data|
  {
    if data == [] then Decompress(m, d) == Ok((-1, d'))
    else
      match Decompress(m, d)
      case Ok((c, d1)) => c == data[0] && Decodes(m, d1, data[1..], d')
      case _ => false
  }

  /** What a decoder yields is determined by its state. */
  lemma {:induction false} DecodesOnce<S>(m: Predictor<S>, d: Decoding<S>,
                                          data: seq<Byte>, e: Decoding<S>, data': seq<Byte>, e': Decoding<S>)
    requires d.r.Ready()
    requires Decodes(m, d, data, e) && Decodes(m, d, data', e')
    ensures data == data' && e == e'
    decreases |data|
  {
    hide Decompress;
    if data != [] && data' != [] {
      DecodesOnce(m, Decompress(m, d).value.1, data[1..], e, data'[1..], e');
      assert data == [data[0]] + data[1..] && data' == [data'[0]] + data'[1..];
    }
  }

  // ---- The code of a segment lies inside the interval it was coded in

  lemma BitKeepsInside(r: Interval, y: bool, p: Prob, code: seq<Byte>)
    requires r.Ready() && Inside(AfterBit(r, y, p), code)
    ensures Inside(r, PutBit(r, y, p) + code)
    ensures Inside(Narrow(r, y, p), PutBit(r, y, p) + code)
  {
    SettleKeepsInside(Narrow(r, y, p), code);
  }

  /** As BitFollows, for code that is known to lie inside the interval. */
  lemma CodeBitFollows<S>(d: Decoding<S>, c: Coder<S>, y: bool, p: Prob, code: seq<Byte>, tail: seq<Byte>)
    requires c.r.Ready() && Inside(AfterBit(c.r, y, p), code)
    requires Sync(d, c, PutBit(c.r, y, p) + code + tail)
    ensures GetBit(d, p).Ok? && GetBit(d, p).value.0 == y
    ensures Sync(GetBit(d, p).value.1, Coder(AfterBit(c.r, y, p), c.s), code + tail)
  {
    hide Settle; hide Shifted; hide Narrow; hide Mid; hide GetBit; hide Word;
    BitKeepsInside(c.r, y, p, code);
    SameWord(PutBit(c.r, y, p) + code, tail);
    assert PutBit(c.r, y, p) + code + tail == PutBit(c.r, y, p) + (code + tail);
    BitFollows(d, c, y, p, code + tail);
  }

  lemma {:induction false} BitsKeepInside<S>(m: Predictor<S>, c: Coder<S>, bits: seq<bool>, code: seq<Byte>)
    requires c.r.Ready() && Inside(AfterBits(m, c, bits).r, code)
    ensures Inside(c.r, CodeBits(m, c, bits) + code)
    decreases |bits|
  {
    hide Settle; hide Shifted; hide Narrow; hide Mid; hide Inside;
    if bits == [] {
      assert CodeBits(m, c, bits) + code == code;
    } else {
      var c1 := PredictedBit(m, c, bits[0]);
      BitsKeepInside(m, c1, bits[1..], code);
      BitKeepsInside(c.r, bits[0], Chance(m, c.s), CodeBits(m, c1, bits[1..]) + code);
      assert CodeBits(m, c, bits) + code
        == PutBit(c.r, bits[0], Chance(m, c.s)) + (CodeBits(m, c1, bits[1..]) + code);
    }
  }

  lemma ByteKeepsInside<S>(m: Predictor<S>, c: Coder<S>, b: Byte, code: seq<Byte>)
    requires c.r.Ready() && Inside(AfterByte(m, c, b).r, code)
    ensures Inside(c.r, CodeByte(m, c, b) + code)
  {
    var c1 := c.(r := AfterBit(c.r, false, 0));
    BitsKeepInside(m, c1, BitsOf(b, 8), code);
    BitKeepsInside(c.r, false, 0, CodeBits(m, c1, BitsOf(b, 8)) + code);
    assert CodeByte(m, c, b) + code == PutBit(c.r, false, 0) + (CodeBits(m, c1, BitsOf(b, 8)) + code);
  }

  /** The end flag always writes the four bytes of `low`. */
  lemma EndIsLow(r: Interval)
    requires r.Ready()
    ensures PutBit(r, true, 0) == WordBytes(r.low)
  {
    hide Narrow; hide Shifted; hide WordBytes; hide Interval.SameLead;
    PointInterval(r);
    PointIsWrittenWhole(r.low);
  }

  /** A segment's code starts inside the interval and never holds four zero bytes in a row. */
  lemma {:induction false} SegmentInside<S>(m: Predictor<S>, c: Coder<S>, data: seq<Byte>)
    requires c.r.Ready()
    ensures Inside(c.r, CodeSegment(m, c, data))
    decreases |data|
  {
    if data == [] {
      EndIsLow(c.r);
      var w := WordBytes(c.r.low);
      assert w[0..] == w;
    } else {
      var c1 := AfterByte(m, c, data[0]);
      SegmentInside(m, c1, data[1..]);
      ByteKeepsInside(m, c, data[0], CodeSegment(m, c1, data[1..]));
    }
  }

  // ---- Round trip

  /** The decoder stands where the encoder stood when `code` was still to be written. */
  ghost predicate Sync<S>(d: Decoding<S>, c: Coder<S>, code: seq<Byte>) {
    d.r == c.r && d.s == c.s && |code| >= 4 && d.curr == Word(code) && d.rest == code[4..]
  }

  lemma {:induction false} RefillFollows<S>(d: Decoding<S>, code: seq<Byte>)
    requires d.r.Live() && |code| >= 4
    requires Sync(d, Coder(d.r, d.s), Shifted(d.r) + code)
    ensures Refill(d).Ok? && Sync(Refill(d).value, Coder(Settle(d.r), d.s), code)
    decreases |d.rest|
  {
    hide Shift; hide Slide; hide Word;
    var all := Shifted(d.r) + code;
    if !d.r.SameLead() {
      assert all == code;
    } else {
      var all' := Shifted(Shift(d.r)) + code;
      assert all == [d.r.high / 0x100_0000] + all';
      assert all[1..] == all' && all'[4..] == all[4..][1..] && all'[3] == all[4];
      var d1 := Decoding(Shift(d.r), Slide(d.curr, d.rest[0]), d.s, d.rest[1..]);
      assert d1.curr == Word(all') by { WordSlides(all); }
      RefillFollows(d1, code);
    }
  }

  lemma WordSlides(s: seq<Byte>)
    requires |s| >= 5
    ensures Slide(Word(s), s[4]) == Word(s[1..])
  {
    hide Slide;
    var b: int, w := s[0], Append(Append(s[1], s[2]), s[3]);
    assert Word(s) == b * 0x100_0000 + w;
    SlideDrops(b, w, s[4]);
  }

  /** One bit: the decoder recovers it and stays in step, whatever code follows. */
  lemma BitFollows<S>(d: Decoding<S>, c: Coder<S>, y: bool, p: Prob, code: seq<Byte>)
    requires c.r.Ready() && |code| >= 4
    requires Sync(d, c, PutBit(c.r, y, p) + code)
    requires Narrow(c.r, y, p).low <= d.curr <= Narrow(c.r, y, p).high
    ensures GetBit(d, p).Ok? && GetBit(d, p).value.0 == y
    ensures Sync(GetBit(d, p).value.1, Coder(AfterBit(c.r, y, p), c.s), code)
  {
    RefillFollows(d.(r := Narrow(c.r, y, p)), code);
  }

  /** An accumulator that reaches 256..511 after exactly `k` more bits. */
  ghost predicate OnTrack(n: nat, k: nat) {
    256 <= n * Pow2(k) && (n + 1) * Pow2(k) <= 512
  }

  lemma StaysOnTrack(n: nat, k: nat)
    requires k > 0 && OnTrack(n, k)
    ensures 0 < n < 256 && OnTrack(2 * n, k - 1) && OnTrack(2 * n + 1, k - 1)
  {
    var q := Pow2(k - 1);
    assert n * (2 * q) == 2 * n * q;
    assert (n + 1) * (2 * q) == (2 * n + 2) * q == (2 * n + 1) * q + q;
  }

  lemma SameWord(code: seq<Byte>, tail: seq<Byte>)
    requires |code| >= 4
    ensures Word(code + tail) == Word(code)
  {
  }

  lemma {:induction false} BitsFollow<S>(m: Predictor<S>, d: Decoding<S>, c: Coder<S>, n: nat,
                                         bits: seq<bool>, code: seq<Byte>, tail: seq<Byte>)
    requires c.r.Ready() && Inside(AfterBits(m, c, bits).r, code)
    requires Sync(d, c, CodeBits(m, c, bits) + code + tail)
    requires OnTrack(n, |bits|) && 0 < n < 512
    ensures GetBits(m, d, n).Ok? && GetBits(m, d, n).value.0 == Gather(n, bits)
    ensures Sync(GetBits(m, d, n).value.1, AfterBits(m, c, bits), code + tail)
    decreases |bits|
  {
    hide Settle; hide Shifted; hide Narrow; hide Mid; hide GetBit; hide Word; hide Inside;
    if bits == [] {
      assert n * Pow2(0) == n && (n + 1) * Pow2(0) == n + 1;
      assert CodeBits(m, c, bits) + code + tail == code + tail;
    } else {
      var p := Chance(m, c.s);
      var c1 := PredictedBit(m, c, bits[0]);
      BitsKeepInside(m, c1, bits[1..], code);
      assert CodeBits(m, c, bits) + code + tail
        == PutBit(c.r, bits[0], p) + (CodeBits(m, c1, bits[1..]) + code) + tail;
      CodeBitFollows(d, c, bits[0], p, CodeBits(m, c1, bits[1..]) + code, tail);
      StaysOnTrack(n, |bits|);
      BitsFollow(m, GetBit(d, p).value.1.(s := m.update(d.s, bits[0])), c1,
                 2 * n + (if bits[0] then 1 else 0), bits[1..], code, tail);
    }
  }

  lemma ByteFollows<S>(m: Predictor<S>, d: Decoding<S>, c: Coder<S>, b: Byte, code: seq<Byte>, tail: seq<Byte>)
    requires c.r.Ready() && Inside(AfterByte(m, c, b).r, code)
    requires Sync(d, c, CodeByte(m, c, b) + code + tail) && d.curr != 0
    ensures Decompress(m, d).Ok? && Decompress(m, d).value.0 == b
    ensures Sync(Decompress(m, d).value.1, AfterByte(m, c, b), code + tail)
  {
    hide Settle; hide Shifted; hide Narrow; hide Mid; hide GetBit; hide GetBits; hide Word; hide Inside; hide CodeBits;
    hide AfterBits; hide BitsOf;
    var c1 := c.(r := AfterBit(c.r, false, 0));
    var later := CodeBits(m, c1, BitsOf(b, 8)) + code;
    BitsKeepInside(m, c1, BitsOf(b, 8), code);
    assert CodeByte(m, c, b) + code + tail == PutBit(c.r, false, 0) + later + tail;
    CodeBitFollows(d, c, false, 0, later, tail);
    assert OnTrack(1, 8);
    BitsFollow(m, GetBit(d, 0).value.1, c1, 1, BitsOf(b, 8), code, tail);
    assert Pow2(8) == 256;
    GatherBits(b, 8);
  }

  /** At the end flag the window is exactly `low`, and the four zero bytes replace it. */
  lemma EndFollows<S>(m: Predictor<S>, d: Decoding<S>, c: Coder<S>, tail: seq<Byte>)
    requires c.r.Ready() && d.curr != 0
    requires Sync(d, c, PutBit(c.r, true, 0) + ZEROS + tail)
    ensures Decompress(m, d) == Ok((-1, Decoding(AfterBit(c.r, true, 0), 0, c.s, tail)))
  {
    hide Settle; hide Shifted; hide Mid; hide Narrow; hide GetBit; hide Word; hide WordBytes;
    EndIsLow(c.r);
    SameWord(WordBytes(c.r.low), ZEROS + tail);
    SameWord(ZEROS, tail);
    ZeroWord();
    assert PutBit(c.r, true, 0) + ZEROS + tail == PutBit(c.r, true, 0) + (ZEROS + tail);
    PointInterval(c.r);
    BitFollows(d, c, true, 0, ZEROS + tail);
    assert (ZEROS + tail)[4..] == tail;
  }

  lemma ZeroWord()
    ensures Word(ZEROS) == 0
  {
  }

  lemma PointInterval(r: Interval)
    requires r.Ready()
    ensures Narrow(r, true, 0) == Interval(r.low, r.low)
  {
  }

  /** The first byte of what is left of a segment. */
  lemma NextFollows<S>(m: Predictor<S>, d: Decoding<S>, c: Coder<S>, data: seq<Byte>, tail: seq<Byte>)
    requires c.r.Ready() && data != []
    requires Sync(d, c, CodeSegment(m, c, data) + ZEROS + tail)
    ensures d.r == c.r && d.curr != 0 && Decompress(m, d).Ok? && Decompress(m, d).value.0 == data[0]
    ensures var c1 := AfterByte(m, c, data[0]);
      Sync(Decompress(m, d).value.1, c1, CodeSegment(m, c1, data[1..]) + ZEROS + tail)
  {
    hide Decompress; hide Word; hide AfterByte; hide CodeByte; hide PutBit; hide Inside;
    var c1 := AfterByte(m, c, data[0]);
    var later := CodeSegment(m, c1, data[1..]);
    SegmentInside(m, c, data);
    SegmentInside(m, c1, data[1..]);
    NonzeroWindow(c.r, CodeSegment(m, c, data), ZEROS + tail);
    assert CodeSegment(m, c, data) + ZEROS + tail == CodeSegment(m, c, data) + (ZEROS + tail)
      == CodeByte(m, c, data[0]) + later + (ZEROS + tail);
    ByteFollows(m, d, c, data[0], later, ZEROS + tail);
    assert later + (ZEROS + tail) == later + ZEROS + tail;
  }

  lemma {:induction false} CodeFollows<S>(m: Predictor<S>, d: Decoding<S>, c: Coder<S>,
                                          data: seq<Byte>, tail: seq<Byte>)
    requires c.r.Ready()
    requires Sync(d, c, CodeSegment(m, c, data) + ZEROS + tail)
    ensures d.r == c.r && Decodes(m, d, data, Ended(m, c, data, tail))
    decreases |data|
  {
    hide Decompress; hide Sync; hide PutBit; hide AfterByte; hide CodeByte; hide AfterBit;
    if data == [] {
      SegmentInside(m, c, data);
      NonzeroWindow(c.r, CodeSegment(m, c, data), ZEROS + tail);
      assert CodeSegment(m, c, data) + (ZEROS + tail) == CodeSegment(m, c, data) + ZEROS + tail;
      SyncWindow(d, c, CodeSegment(m, c, data) + ZEROS + tail);
      EndFollows(m, d, c, tail);
    } else {
      NextFollows(m, d, c, data, tail);
      CodeFollows(m, Decompress(m, d).value.1, AfterByte(m, c, data[0]), data[1..], tail);
    }
  }

  lemma SyncWindow<S>(d: Decoding<S>, c: Coder<S>, code: seq<Byte>)
    requires Sync(d, c, code)
    ensures d.r == c.r && |code| >= 4 && d.curr == Word(code)
  {
  }

  lemma NonzeroWindow(r: Interval, code: seq<Byte>, tail: seq<Byte>)
    requires r.Ready() && Inside(r, code)
    ensures Word(code + tail) != 0
  {
    SameWord(code, tail);
  }

  /** The decoder after the segment: in step with the encoder, right behind the four zeros. */
  function Ended<S>(m: Predictor<S>, c: Coder<S>, data: seq<Byte>, tail: seq<Byte>): (d: Decoding<S>)
    requires c.r.Ready()
  {
    Decoding(AfterSegment(m, c, data).r, 0, AfterSegment(m, c, data).s, tail)
  }

  /** Standing before the segment, window empty. */
  function Before<S>(m: Predictor<S>, c: Coder<S>, data: seq<Byte>, tail: seq<Byte>): (d: Decoding<S>)
    requires c.r.Ready()
  {
    Decoding(c.r, 0, c.s, CodeSegment(m, c, data) + ZEROS + tail)
  }

  lemma BeginSyncs<S>(m: Predictor<S>, c: Coder<S>, data: seq<Byte>, tail: seq<Byte>)
    requires c.r.Ready()
    ensures Sync(Begin(Before(m, c, data, tail)), c, CodeSegment(m, c, data) + ZEROS + tail)
    ensures Begin(Before(m, c, data, tail)).curr != 0
  {
    hide Word; hide Load; hide CodeSegment;
    var code := CodeSegment(m, c, data) + ZEROS + tail;
    assert code == CodeSegment(m, c, data) + (ZEROS + tail);
    SegmentInside(m, c, data);
    NonzeroWindow(c.r, CodeSegment(m, c, data), ZEROS + tail);
    LoadWord(code);
  }

  /**
   Segment round trip: for every predictor, every starting state and every data,
   the decoder returns the data and then -1, ends in the encoder's state, and has
   consumed the four zero bytes and nothing after them.
   */
  lemma SegmentRoundTrip<S>(m: Predictor<S>, c: Coder<S>, data: seq<Byte>, tail: seq<Byte>)
    requires c.r.Ready()
    ensures Decodes(m, Before(m, c, data, tail), data, Ended(m, c, data, tail))
  {
    hide GetBit; hide GetBits; hide Load; hide Word; hide CodeSegment; hide AfterSegment;
    var d := Before(m, c, data, tail);
    BeginSyncs(m, c, data, tail);
    CodeFollows(m, Begin(d), c, data, tail);
    assert Decompress(m, Begin(d)) == Decompress(m, d);
  }

  // ---- Whole blocks

  /** A segment and the bytes that follow its four zeros: marker, checksum, next header. */
  datatype Segment = Segment(data: seq<Byte>, trailer: seq<Byte>)

  function CodeBlock<S>(m: Predictor<S>, c: Coder<S>, segs: seq<Segment>): (out: seq<Byte>)
    requires c.r.Ready()
    decreases |segs|
  {
    hide Settle;
    if segs == [] then []
    else CodeSegment(m, c, segs[0].data) + ZEROS
         + (segs[0].trailer + CodeBlock(m, AfterSegment(m, c, segs[0].data), segs[1..]))
  }

  /** Segment by segment the decoder yields the data, and its reader then finds the trailer. */
  ghost predicate DecodesBlock<S(!new)>(m: Predictor<S>, d: Decoding<S>, segs: seq<Segment>)
    requires d.r.Ready()
    decreases |segs|
  {
    segs == [] ||
    exists d': Decoding<S> ::
      && Decodes(m, d, segs[0].data, d')
      && d'.r.Ready()
      && segs[0].trailer <= d'.rest
      && DecodesBlock(m, d'.(rest := d'.rest[|segs[0].trailer|..]), segs[1..])
  }

  /** Every run of segments in a block decodes to itself. */
  lemma {:induction false} BlockRoundTrip<S(!new)>(m: Predictor<S>, c: Coder<S>, segs: seq<Segment>, d: Decoding<S>)
    requires c.r.Ready()
    requires d == Decoding(c.r, 0, c.s, CodeBlock(m, c, segs))
    ensures DecodesBlock(m, d, segs)
    decreases |segs|
  {
    hide Decodes; hide CodeSegment; hide AfterSegment;
    if segs != [] {
      var seg := segs[0];
      var c1 := AfterSegment(m, c, seg.data);
      var later := CodeBlock(m, c1, segs[1..]);
      SegmentRoundTrip(m, c, seg.data, seg.trailer + later);
      var d' := Ended(m, c, seg.data, seg.trailer + later);
      assert d'.rest[|seg.trailer|..] == later;
      BlockRoundTrip(m, c1, segs[1..], d'.(rest := later));
    }
  }
}
