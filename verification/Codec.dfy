/**
 The coder objects themselves: `Encoder` and `Decoder` of libzpaq, with the fields
 and loops of the original, each method proved against the functions of
 ModeledSegments, StoredSegments and SegmentSkip.
 */
module Codec {
  import opened Arith
  import opened Bytes
  import opened CodingInterval
  import opened ModeledSegments
  import opened SegmentSkip
  import opened StoredSegments

  class Encoder<S> {
    const modeled: bool
    const model: Predictor<S>
    var low: int           // interval, or number of bytes in buf when not modelled
    var high: int
    var pr: S
    const buf: array<Byte> // pending bytes when not modelled
    var out: seq<Byte>

    ghost predicate Valid()
      reads this
    {
      if modeled then Interval(low, high).Ready() else buf.Length == CHUNK && 0 <= low <= CHUNK
    }

    ghost function State(): (c: Coder<S>)
      requires modeled && Valid()
      reads this
    {
      Coder(Interval(low, high), pr)
    }

    ghost function Held(): (p: Chunk)
      requires !modeled && Valid()
      reads this, buf
    {
      buf[..low]
    }

    constructor (modeled: bool, model: Predictor<S>)
      ensures Valid() && fresh(buf) && this.modeled == modeled && this.model == model && out == []
      ensures modeled ==> State() == Coder(FULL, model.init)
      ensures !modeled ==> Held() == []
    {
      this.modeled := modeled;
      this.model := model;
      low := if modeled then 1 else 0;
      high := 0xFFFF_FFFF;
      pr := model.init;
      out := [];
      buf := new Byte[CHUNK];
    }

    method Encode(y: bool, p: Prob)
      requires modeled && Valid()
      modifies this`low, this`high, this`out
      ensures Valid()
      ensures State() == Coder(AfterBit(old(State()).r, y, p), old(pr))
      ensures out == old(out) + PutBit(old(State()).r, y, p)
      ensures LeavesShare(old(State()).r, y, p, out[|old(out)|..], State().r)
    {
      hide Share; hide Mid; hide Shifted; hide Settle; hide Narrow; hide LeavesShare;
      BitLeavesShare(Interval(low, high), y, p);
      CutInterval(y, p);
      ShiftOut();
    }

    /** `if (y) high=mid; else low=mid+1;` */
    method CutInterval(y: bool, p: Prob)
      requires modeled && Valid()
      modifies this`low, this`high
      ensures Interval(low, high) == Narrow(old(State()).r, y, p)
    {
      var mid := low + (high - low) * p / 0x1_0000;
      if y { high := mid; } else { low := mid + 1; }
    }

    /** The loop of `encode`: write and drop equal leading bytes. */
    method ShiftOut()
      requires modeled && Interval(low, high).Live()
      modifies this`low, this`high, this`out
      ensures Interval(low, high) == Settle(old(Interval(low, high))) && Valid()
      ensures out == old(out) + Shifted(old(Interval(low, high)))
    {
      ghost var r := Interval(low, high);
      while low / 0x100_0000 == high / 0x100_0000
        invariant Interval(low, high).Live()
        invariant Settle(Interval(low, high)) == Settle(r)
        invariant out + Shifted(Interval(low, high)) == old(out) + Shifted(r)
        decreases 0x1_0000_0000 - (high - low)
      {
        ghost var o, i := out, Interval(low, high);
        out := out + [high / 0x100_0000];
        high := high % 0x100_0000 * 256 + 255;
        low := low % 0x100_0000 * 256;
        if low == 0 { low := 1; }
        assert Interval(low, high) == Shift(i);
        assert out + Shifted(Interval(low, high)) == o + Shifted(i);
      }
    }

    method Compress(c: int)
      requires -1 <= c < 256 && Valid()
      modifies this, buf
      ensures Valid()
      ensures modeled && c >= 0 ==> State() == AfterByte(model, old(State()), c)
      ensures modeled && c >= 0 ==> out == old(out) + CodeByte(model, old(State()), c)
      ensures modeled && c < 0 ==> State() == old(State()).(r := AfterBit(old(State()).r, true, 0))
      ensures modeled && c < 0 ==> out == old(out) + PutBit(old(State()).r, true, 0)
      ensures !modeled && c >= 0 ==> Held() == Pending(old(Held()), c)
      ensures !modeled && c >= 0 ==> out == old(out) + PutStored(old(Held()), c)
      ensures !modeled && c < 0 ==> Held() == [] && out == old(out) + Flush(old(Held()))
    {
      hide LeavesShare; hide Settle; hide Shifted; hide Narrow;
      if modeled {
        if c == -1 {
          Encode(true, 0);
        } else {
          EncodeByte(c);
        }
      } else {
        hide WordBytes;
        ghost var held := Held();
        if low > 0 && (c < 0 || low == buf.Length) {
          out := out + WordBytes(low) + buf[..low];
          assert out == old(out) + Flush(held);
          low := 0;
        }
        if c >= 0 {
          buf[low] := c;
          low := low + 1;
        }
      }
    }

    /** One predicted bit: code it, then let the predictor learn it. */
    method EncodePredicted(y: bool)
      requires modeled && Valid()
      modifies this`low, this`high, this`out, this`pr
      ensures Valid()
      ensures State() == PredictedBit(model, old(State()), y)
      ensures out == old(out) + PutBit(old(State()).r, y, Chance(model, old(pr)))
    {
      hide AfterBit; hide PutBit; hide LeavesShare; hide Interval.Ready;
      var p := model.predict(pr) * 2 + 1;
      Encode(y, p);
      pr := model.update(pr, y);
    }

    /** The eight bits of `c`, most significant first. */
    method EncodeBits(c: Byte)
      requires modeled && Valid()
      modifies this`low, this`high, this`out, this`pr
      ensures Valid()
      ensures State() == AfterBits(model, old(State()), BitsOf(c, 8))
      ensures out == old(out) + CodeBits(model, old(State()), BitsOf(c, 8))
    {
      hide AfterBit; hide PutBit; hide LeavesShare; hide BitsOf; hide BitOf; hide Interval.Ready; hide PredictedBit;
      ghost var bits := BitsOf(c, 8);
      var i := 0;
      assert bits[0..] == bits;
      while i < 8
        invariant 0 <= i <= 8 && Valid()
        invariant AfterBits(model, State(), bits[i..]) == AfterBits(model, old(State()), bits)
        invariant out + CodeBits(model, State(), bits[i..]) == old(out) + CodeBits(model, old(State()), bits)
      {
        ghost var o, c0 := out, State();
        BitAt(c, 8, i);
        EncodePredicted(BitOf(c, 7 - i));
        assert bits[i..][1..] == bits[i + 1..];
        assert out + CodeBits(model, State(), bits[i + 1..]) == o + CodeBits(model, c0, bits[i..]);
        i := i + 1;
      }
      assert bits[8..] == [];
    }

    method EncodeByte(c: Byte)
      requires modeled && Valid()
      modifies this`low, this`high, this`out, this`pr
      ensures Valid()
      ensures State() == AfterByte(model, old(State()), c)
      ensures out == old(out) + CodeByte(model, old(State()), c)
    {
      hide AfterBit; hide PutBit; hide LeavesShare; hide BitsOf; hide Interval.Ready; hide CodeBits; hide AfterBits;
      Encode(false, 0);
      EncodeBits(c);
    }

    /** A whole segment as `Compressor` writes it: the bytes, the end flag, four zeros. */
    method CompressSegment(data: seq<Byte>)
      requires Valid()
      requires !modeled ==> Held() == []
      modifies this, buf
      ensures Valid()
      ensures modeled ==> State() == AfterSegment(model, old(State()), data)
      ensures modeled ==> out == old(out) + CodeSegment(model, old(State()), data) + ZEROS
      ensures !modeled ==> Held() == [] && out == old(out) + StoreSegment([], data) + ZEROS
    {
      hide AfterByte; hide CodeByte; hide AfterBit; hide PutBit; hide LeavesShare; hide Interval.Ready;
      hide Flush; hide PutStored; hide Pending;
      var i := 0;
      assert data[0..] == data;
      while i < |data|
        invariant 0 <= i <= |data|
        invariant Valid()
        invariant modeled ==> AfterSegment(model, State(), data[i..]) == AfterSegment(model, old(State()), data)
        invariant modeled ==>
          out + CodeSegment(model, State(), data[i..]) == old(out) + CodeSegment(model, old(State()), data)
        invariant !modeled ==> out + StoreSegment(Held(), data[i..]) == old(out) + StoreSegment([], data)
      {
        ghost var o := out;
        label L:
        Compress(data[i]);
        assert data[i..][1..] == data[i + 1..];
        assert modeled ==>
          out + CodeSegment(model, State(), data[i + 1..]) == o + CodeSegment(model, old@L(State()), data[i..]);
        assert !modeled ==>
          out + StoreSegment(Held(), data[i + 1..]) == o + StoreSegment(old@L(Held()), data[i..]);
        i := i + 1;
      }
      assert data[i..] == [];
      Compress(-1);
      out := out + ZEROS;
    }
  }

  /** What the encoder will write for the segments still to come. */
  ghost function Ahead<S>(enc: Encoder<S>, segs: seq<Segment>): (out: seq<Byte>)
    requires enc.Valid()
    reads enc
  {
    if enc.modeled then CodeBlock(enc.model, enc.State(), segs) else StoreBlock(segs)
  }

  method WriteSegment<S>(enc: Encoder<S>, segs: seq<Segment>)
    requires enc.Valid() && segs != [] && (!enc.modeled ==> enc.Held() == [])
    modifies enc, enc.buf
    ensures enc.Valid() && (!enc.modeled ==> enc.Held() == [])
    ensures enc.out + Ahead(enc, segs[1..]) == old(enc.out + Ahead(enc, segs))
  {
    hide CodeSegment; hide AfterSegment; hide StoreSegment; hide Interval.Ready;
    enc.CompressSegment(segs[0].data);
    enc.out := enc.out + segs[0].trailer;
  }

  /** `Decoder`: the input still to be read stands for its reader and read-ahead buffer. */
  class Decoder<S> {
    const modeled: bool
    const model: Predictor<S>
    var low: int
    var high: int
    var curr: U32     // last four bytes read, or bytes left in the chunk
    var pr: S
    var input: seq<Byte>

    ghost predicate Valid()
      reads this
    {
      modeled ==> Interval(low, high).Ready()
    }

    ghost function State(): (d: Decoding<S>)
      reads this
    {
      Decoding(Interval(low, high), curr, pr, input)
    }

    constructor (modeled: bool, model: Predictor<S>, input: seq<Byte>)
      ensures Valid() && this.modeled == modeled && this.model == model
      ensures this.input == input && curr == 0
      ensures modeled ==> State() == Decoding(FULL, 0, model.init, input)
    {
      this.modeled := modeled;
      this.model := model;
      this.input := input;
      low := if modeled then 1 else 0;
      high := if modeled then 0xFFFF_FFFF else 0;
      curr := 0;
      pr := model.init;
    }

    method Get() returns (c: int)
      modifies this`input
      ensures old(input) == [] ==> c == -1 && input == []
      ensures old(input) != [] ==> c == old(input)[0] && input == old(input)[1..]
    {
      if input == [] {
        c := -1;
      } else {
        c, input := input[0], input[1..];
      }
    }

    method Decode(p: Prob) returns (o: Outcome<bool>)
      requires modeled && Valid()
      modifies this`low, this`high, this`curr, this`input
      ensures o == Answer(GetBit(old(State()), p))
      ensures o.Ok? ==> Valid() && GetBit(old(State()), p) == Ok((o.value, State()))
    {
      hide Mid; hide Refill; hide Interval.SameLead;
      if curr < low || curr > high {
        return Fail(ArchiveCorrupted);
      }
      var y := CutInterval(p);
      var more := ShiftIn();
      return if more then Ok(y) else Fail(UnexpectedEndOfFile);
    }

    /** `if (curr<=mid) y=1, high=mid; else y=0, low=mid+1;` */
    method CutInterval(p: Prob) returns (y: bool)
      requires modeled && Valid()
      modifies this`low, this`high
      ensures y <==> curr <= Mid(old(State()).r, p)
      ensures Interval(low, high) == Narrow(old(State()).r, y, p)
    {
      hide Share;
      var mid := low + (high - low) * p / 0x1_0000;
      y := curr <= mid;
      if y { high := mid; } else { low := mid + 1; }
    }

    /** The loop of `decode`: drop equal leading bytes, read as many. */
    method ShiftIn() returns (more: bool)
      requires modeled && Interval(low, high).Live()
      modifies this`low, this`high, this`curr, this`input
      ensures Refill(old(State())) == if more then Ok(State()) else Fail(UnexpectedEndOfFile)
      ensures more ==> Valid()
    {
      hide Slide; hide Settle;
      while low / 0x100_0000 == high / 0x100_0000
        invariant Interval(low, high).Live()
        invariant Refill(State()) == Refill(old(State()))
        decreases |input|
      {
        ghost var r := Interval(low, high);
        high := high % 0x100_0000 * 256 + 255;
        low := low % 0x100_0000 * 256;
        if low == 0 { low := 1; }
        assert Interval(low, high) == Shift(r);
        var c := Get();
        if c < 0 {
          return false;
        }
        curr := Slide(curr, c);
      }
      assert Refill(State()) == Ok(State());
      return true;
    }

    method Decompress() returns (o: Outcome<int>)
      requires Valid()
      modifies this
      ensures modeled ==> o == Answer(ModeledSegments.Decompress(model, old(State())))
      ensures modeled && o.Ok? ==>
        Valid() && ModeledSegments.Decompress(model, old(State())) == Ok((o.value, State()))
      ensures !modeled ==> o == Ok(Unstore(old(curr), old(input)).0) && Valid()
      ensures !modeled ==> (curr, input) == (Unstore(old(curr), old(input)).1, Unstore(old(curr), old(input)).2)
    {
      hide GetBit; hide GetBits; hide Load; hide Interval.Ready;
      if modeled {
        if curr == 0 {
          LoadCurr();
        }
        assert State() == Begin(old(State()));
        var end :- Decode(0);
        if end {
          return if curr != 0 then Fail(DecodingEndOfStream) else Ok(-1);
        }
        var c :- DecodeByte();
        return Ok(c - 256);
      } else {
        if curr == 0 {
          LoadCurr();
          if curr == 0 {
            return Ok(-1);
          }
        }
        curr := curr - 1;
        var c := Get();
        return Ok(c);
      }
    }

    /** `for (i<4) curr=curr<<8|get();` */
    method LoadCurr()
      requires curr == 0
      modifies this`curr, this`input
      ensures (curr, input) == Load((0, old(input)))
    {
      hide Slide;
      ghost var w := (curr, input);
      var i := 0;
      while i < 4
        invariant 0 <= i <= 4
        invariant (curr, input) == LoadTimes(w, i)
      {
        var c := Get();
        curr := if c < 0 then 0xFFFF_FFFF else Slide(curr, c);
        i := i + 1;
      }
      assert LoadTimes(w, 4) == LoadByte(LoadTimes(w, 3)) == LoadByte(LoadByte(LoadTimes(w, 2)));
      assert LoadTimes(w, 2) == LoadByte(LoadTimes(w, 1)) == LoadByte(LoadByte(w));
    }

    /** Eight predicted bits behind a leading 1. */
    method DecodeByte() returns (o: Outcome<int>)
      requires modeled && Valid()
      modifies this`low, this`high, this`curr, this`input, this`pr
      ensures o == Answer(GetBits(model, old(State()), 1))
      ensures o.Ok? ==> Valid() && GetBits(model, old(State()), 1) == Ok((o.value, State()))
    {
      hide GetBit; hide Interval.Ready;
      var c := 1;
      while c < 256
        invariant 0 < c < 512 && Valid()
        invariant GetBits(model, State(), c) == GetBits(model, old(State()), 1)
        decreases 512 - c
      {
        var y :- Decode(model.predict(pr) * 2 + 1);
        pr := model.update(pr, y);
        c := 2 * c + (if y then 1 else 0);
      }
      return Ok(c);
    }

    /** `Decompresser::decompress`: take bytes until -1. */
    method ReadSegment(ghost data: seq<Byte>, ghost end: Decoding<S>) returns (got: seq<Byte>)
      requires Valid()
      requires modeled ==> Decodes(model, State(), data, end)
      requires !modeled ==> Unstores(curr, input, data, end.rest)
      modifies this
      ensures got == data && input == end.rest
      ensures modeled ==> State() == end
      ensures !modeled ==> curr == 0
    {
      hide ModeledSegments.Decompress; hide Unstore; hide Interval.Ready;
      got := [];
      ghost var left := data;
      while true
        invariant Valid() && data == got + left
        invariant modeled ==> Decodes(model, State(), left, end)
        invariant !modeled ==> Unstores(curr, input, left, end.rest)
        decreases |left|
      {
        var o := Decompress();
        if o.value < 0 {
          return;
        }
        got := got + [o.value];
        left := left[1..];
      }
    }

    /** Reads the bytes between two segments. */
    method ReadTrailer(n: nat)
      requires n <= |input|
      modifies this`input
      ensures input == old(input)[n..]
    {
      for i := 0 to n
        invariant n - i <= |input| && input == old(input)[i..]
      {
        var _ := Get();
      }
    }

    method Skip() returns (o: Outcome<int>)
      requires Valid()
      modifies this`curr, this`input
      ensures Valid()
      ensures modeled ==> o.Ok? && SkipModeled(old(curr), old(input)) == (o.value, curr, input)
      ensures !modeled ==> o == Answer3(SkipStored(old(curr), old(input)))
      ensures !modeled && o.Ok? ==> SkipStored(old(curr), old(input)) == Ok((o.value, curr, input))
    {
      if modeled {
        var c := SkipToMarker();
        return Ok(c);
      }
      o := HopChunks();
    }

    method HopChunks() returns (o: Outcome<int>)
      modifies this`curr, this`input
      ensures o == Answer3(SkipStored(old(curr), old(input)))
      ensures o.Ok? ==> SkipStored(old(curr), old(input)) == Ok((o.value, curr, input))
    {
      hide Length;
      var c := -1;
      if curr == 0 {
        c := ReadLength(c);
      }
      while curr > 0
        invariant SkipChunks(c, curr, input) == SkipStored(old(curr), old(input))
        decreases |input|
      {
        ghost var n, chunk := curr, input;
        while curr > 0
          invariant 0 <= curr <= n && n - curr <= |chunk| && input == chunk[n - curr..]
        {
          curr := curr - 1;
          var b := Get();
          if b < 0 {
            return Fail(SkippedToEof);
          }
        }
        c := ReadLength(c);
      }
      if c >= 0 {
        c := Get();
      }
      return Ok(c);
    }

    /** `for (i<4 && (c=get())>=0) curr=curr<<8|c;` */
    method ReadLength(c0: int) returns (c: int)
      requires curr == 0
      modifies this`curr, this`input
      ensures Length(c0, 0, old(input), 4) == (c, curr, input)
    {
      hide Slide;
      c := c0;
      var i := 0;
      while i < 4
        invariant 0 <= i <= 4
        invariant Length(c, curr, input, 4 - i) == Length(c0, 0, old(input), 4)
      {
        c := Get();
        if c < 0 { return; }
        curr := Slide(curr, c);
        i := i + 1;
      }
    }

    method SkipToMarker() returns (c: int)
      modifies this`curr, this`input
      ensures SkipModeled(old(curr), old(input)) == (c, curr, input)
    {
      hide Slide;
      while curr == 0
        invariant SkipLead(curr, input) == SkipLead(old(curr), old(input))
        decreases curr == 0, |input|
      {
        var b := Get();
        curr := if b < 0 then 0xFFFF_FFFF else b;
      }
      ghost var lead := (curr, input);
      assert lead == SkipLead(old(curr), old(input));
      c := -1;
      while curr != 0
        invariant SkipToZeros(curr, input) == SkipToZeros(lead.0, lead.1)
        decreases |input|
      {
        c := Get();
        if c < 0 { break; }
        curr := Slide(curr, c);
      }
      ghost var found := input;
      assert (curr, found) == SkipToZeros(lead.0, lead.1);
      c := Get();
      while c == 0
        invariant (c == 0 ==> SkipZeros(input) == SkipZeros(found)) && (c != 0 ==> (c, input) == SkipZeros(found))
        decreases c == 0, |input|
        modifies this`input
      {
        c := Get();
      }
      assert (c, input) == SkipZeros(found);
    }
  }

  function Answer3<T, U, V>(o: Outcome<(T, U, V)>): (r: Outcome<T>) {
    if o.Ok? then Ok(o.value.0) else Fail(o.fault)
  }

  ghost function LoadTimes(w: (U32, seq<Byte>), k: nat): (r: (U32, seq<Byte>)) {
    if k == 0 then w else LoadByte(LoadTimes(w, k - 1))
  }

  function StoreBlock(segs: seq<Segment>): (out: seq<Byte>) {
    if segs == [] then []
    else StoreSegment([], segs[0].data) + ZEROS + (segs[0].trailer + StoreBlock(segs[1..]))
  }

  lemma FullIsReady()
    ensures FULL.Ready()
  {
  }

  ghost function BlockBytes<S>(modeled: bool, model: Predictor<S>, segs: seq<Segment>): (out: seq<Byte>) {
    FullIsReady();
    if modeled then CodeBlock(model, Coder(FULL, model.init), segs) else StoreBlock(segs)
  }

  method WriteBlock<S>(modeled: bool, model: Predictor<S>, segs: seq<Segment>) returns (out: seq<Byte>)
    ensures out == BlockBytes(modeled, model, segs)
  {
    hide CodeBlock; hide StoreBlock; hide Interval.Ready;
    var enc := new Encoder(modeled, model);
    var i := 0;
    assert segs[0..] == segs;
    while i < |segs|
      invariant 0 <= i <= |segs| && enc.Valid() && fresh(enc) && fresh(enc.buf)
      invariant !enc.modeled ==> enc.Held() == []
      invariant enc.out + Ahead(enc, segs[i..]) == BlockBytes(modeled, model, segs)
    {
      WriteSegment(enc, segs[i..]);
      assert segs[i..][1..] == segs[i + 1..];
      i := i + 1;
    }
    assert segs[i..] == [];
    NothingAhead(enc);
    return enc.out;
  }

  lemma NothingAhead<S>(enc: Encoder<S>)
    requires enc.Valid()
    ensures Ahead(enc, []) == []
  {
  }

  /**
   A whole block: whatever the predictor, whether modelled or stored, and however
   many segments, the decoder hands back the data of every segment.
   */
  method ReadBlock<S>(modeled: bool, model: Predictor<S>, input: seq<Byte>, segs: seq<Segment>)
    returns (got: seq<seq<Byte>>)
    requires input == BlockBytes(modeled, model, segs)
    ensures |got| == |segs| && forall i :: 0 <= i < |segs| ==> got[i] == segs[i].data
  {
    hide CodeSegment; hide AfterSegment; hide StoreSegment; hide Interval.Ready; hide Decodes; hide Unstores;
    hide Settle; hide Narrow; hide Share; hide Mid; hide Shift; hide Shifted;
    var dec := new Decoder(modeled, model, input);
    got := [];
    var i := 0;
    FullIsReady();
    ghost var c := Coder(FULL, model.init);
    assert segs[0..] == segs;
    while i < |segs|
      invariant 0 <= i <= |segs| && dec.Valid() && dec.modeled == modeled && dec.model == model && fresh(dec)
      invariant c.r.Ready()
      invariant modeled ==> dec.State() == Decoding(c.r, 0, c.s, CodeBlock(model, c, segs[i..]))
      invariant !modeled ==> dec.curr == 0 && dec.input == StoreBlock(segs[i..])
      invariant |got| == i && forall j :: 0 <= j < i ==> got[j] == segs[j].data
    {
      ghost var seg, later := segs[i], segs[i + 1..];
      assert segs[i..][0] == seg && segs[i..][1..] == later;
      ghost var next :=
        if modeled then CodeBlock(model, AfterSegment(model, c, seg.data), later) else StoreBlock(later);
      SegmentRoundTrip(model, c, seg.data, seg.trailer + next);
      StoredRoundTrip(seg.data, seg.trailer + next);
      var data := dec.ReadSegment(seg.data, Ended(model, c, seg.data, seg.trailer + next));
      dec.ReadTrailer(|segs[i].trailer|);
      assert (seg.trailer + next)[|seg.trailer|..] == next;
      c := AfterSegment(model, c, seg.data);
      got := got + [data];
      i := i + 1;
    }
  }
}
