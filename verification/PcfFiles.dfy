/**
 `compress_file` and `decompress_file`: the loops over the files, with recursion into the
 contents of streams up to a depth limit.
 */
module PcfFiles {
  import opened Bytes
  import opened Wrappers
  import opened Vlints
  import opened Pcf
  import MultiPng

  /** What is found at a position of a file; the path of enclosing streams lets it depend on everything before. */
  type Detector = (seq<nat>, seq<Byte>, nat) -> Option<Stream>

  /** The stream is in the file at pos, and its re-encoder is exact. */
  predicate Found(re: Reencoder, file: seq<Byte>, pos: nat, st: Stream) {
    && st.Exact(re)
    && pos + |st.Source()| <= |file| && file[pos..pos + |st.Source()|] == st.Source()
  }

  ghost predicate Sound(re: Reencoder, detect: Detector) {
    forall path, file, pos: nat :: pos < |file| && detect(path, file, pos).Some? ==>
      Found(re, file, pos, detect(path, file, pos).value)
  }

  /** Some stream was found. */
  ghost predicate HasStream(items: seq<Item>) {
    exists i :: 0 <= i < |items| && !items[i].Raw?
  }

  // ---- Which items the detector calls for

  /** A file at some recursion depth, with the search that is made in it. */
  datatype Level = Level(detect: Detector, maxDepth: nat, depth: nat, path: seq<nat>, file: seq<Byte>)
  {
    /** What is found at a position. */
    function At(pos: nat): Option<Stream> { detect(path, file, pos) }

    /** The contents of a stream found at a position, one level deeper. */
    function Inner(pos: nat, st: Stream): Level { Level(detect, maxDepth, depth + 1, path + [pos], st.plain) }

    /** Nothing is found from one position up to another. */
    ghost predicate Silent(from: nat, to: nat) {
      forall p: nat :: from <= p < to ==> At(p).None?
    }

    predicate MayRecurse(st: Stream) { depth + 1 <= maxDepth && st.kind.Recurses() }
  }

  /**
   The item is what has to be written at `pos`: a run in which nothing is found, or the stream found
   there, nested exactly when recursion is allowed and something is found in its contents.
   */
  ghost predicate Chosen(lv: Level, pos: nat, it: Item)
    decreases it
  {
    match it
    case Raw(run) =>
      && run != [] && pos + |run| <= |lv.file| && run == lv.file[pos..pos + |run|]
      && lv.Silent(pos, pos + |run|)
    case Packed(st) =>
      pos < |lv.file| && lv.At(pos) == Some(st) && (lv.MayRecurse(st) ==> lv.Inner(pos, st).Silent(0, |st.plain|))
    case Nested(st, inner) =>
      && pos < |lv.file| && lv.At(pos) == Some(st) && lv.MayRecurse(st)
      && HasStream(inner) && Walks(lv.Inner(pos, st), 0, inner, |st.plain|)
  }

  /** The items are what has to be written from one position up to another; no two runs are adjacent. */
  ghost predicate Walks(lv: Level, from: nat, items: seq<Item>, to: nat)
    decreases items
  {
    if items == [] then from == to
    else
      && Chosen(lv, from, items[0])
      && (|items| > 1 && items[0].Raw? ==> !items[1].Raw?)
      && Walks(lv, from + |Span(items[0])|, items[1..], to)
  }

  ghost predicate EndsInRun(items: seq<Item>) {
    items != [] && items[|items| - 1].Raw?
  }

  lemma {:induction false} WalksOn(lv: Level, from: nat, items: seq<Item>, to: nat, it: Item)
    requires Walks(lv, from, items, to) && Chosen(lv, to, it) && (EndsInRun(items) ==> !it.Raw?)
    ensures Walks(lv, from, items + [it], to + |Span(it)|)
    decreases |items|
  {
    hide Chosen; hide Span;
    var all := items + [it];
    if items == [] {
      assert all[1..] == [];
    } else {
      WalksOn(lv, from + |Span(items[0])|, items[1..], to, it);
      assert all[1..] == items[1..] + [it];
    }
  }

  /** Items without a stream come from a file in which nothing is found. */
  lemma OneRunOnly(lv: Level, items: seq<Item>)
    requires Walks(lv, 0, items, |lv.file|) && !HasStream(items)
    ensures lv.Silent(0, |lv.file|)
  {
    if items != [] {
      assert forall i :: 0 <= i < |items| ==> items[i].Raw?;
      assert items[1..] == [];
    }
  }

  /** A stream among the items was found somewhere. */
  lemma {:induction false} StreamWasFound(lv: Level, from: nat, items: seq<Item>, to: nat)
    requires Walks(lv, from, items, to) && HasStream(items)
    ensures exists p: nat :: from <= p < |lv.file| && lv.At(p).Some?
    decreases |items|
  {
    hide Span;
    var i :| 0 <= i < |items| && !items[i].Raw?;
    if i == 0 {
      assert Chosen(lv, from, items[0]) && lv.At(from).Some?;
    } else {
      assert items[1..][i - 1] == items[i];
      StreamWasFound(lv, from + |Span(items[0])|, items[1..], to);
    }
  }

  lemma WalksFirst(lv: Level, from: nat, items: seq<Item>, to: nat)
    requires Walks(lv, from, items, to) && items != []
    ensures Chosen(lv, from, items[0]) && Walks(lv, from + |Span(items[0])|, items[1..], to)
    ensures |items| > 1 && items[0].Raw? ==> !items[1].Raw?
  {
    hide Chosen; hide Span;
  }

  lemma WalksNowhere(lv: Level, from: nat, to: nat)
    ensures Walks(lv, from, [], to) <==> from == to
  {
  }

  lemma StreamIsFound(lv: Level, pos: nat, it: Item)
    requires Chosen(lv, pos, it) && !it.Raw?
    ensures lv.At(pos).Some?
  {
  }

  /** A run ends at the end of the file, or where a stream is found. */
  lemma RunStops(lv: Level, from: nat, a: seq<Item>)
    requires Walks(lv, from, a, |lv.file|) && a != [] && a[0].Raw?
    ensures var next := from + |a[0].bytes|; next == |lv.file| || lv.At(next).Some?
  {
    hide Walks; hide Chosen;
    WalksFirst(lv, from, a, |lv.file|);
    var next := from + |a[0].bytes|;
    if |a| == 1 {
      assert a[1..] == [];
      WalksNowhere(lv, next, |lv.file|);
    } else {
      assert a[1..][0] == a[1];
      WalksFirst(lv, next, a[1..], |lv.file|);
      StreamIsFound(lv, next, a[1]);
    }
  }

  lemma RunIsWhole(lv: Level, from: nat, a: seq<Item>, b: seq<Item>)
    requires Walks(lv, from, a, |lv.file|) && Walks(lv, from, b, |lv.file|)
    requires a != [] && b != [] && a[0].Raw? && b[0].Raw?
    ensures |b[0].bytes| <= |a[0].bytes|
  {
    hide Walks;
    RunStops(lv, from, a);
    WalksFirst(lv, from, b, |lv.file|);
  }

  lemma SameKind(lv: Level, from: nat, a: Item, b: Item)
    requires Chosen(lv, from, a) && Chosen(lv, from, b)
    ensures a.Raw? == b.Raw? && a.Nested? == b.Nested? && (!a.Raw? ==> a.stream == b.stream)
  {
    if !a.Raw? && !b.Raw? && lv.MayRecurse(a.stream) {
      var inner := lv.Inner(from, a.stream);
      if a.Nested? {
        StreamWasFound(inner, 0, a.inner, |a.stream.plain|);
      } else if b.Nested? {
        StreamWasFound(inner, 0, b.inner, |b.stream.plain|);
      }
    }
  }

  lemma SameRun(lv: Level, from: nat, a: seq<Item>, b: seq<Item>)
    requires Walks(lv, from, a, |lv.file|) && Walks(lv, from, b, |lv.file|)
    requires a != [] && b != [] && a[0].Raw? && b[0].Raw?
    ensures a[0] == b[0]
  {
    RunIsWhole(lv, from, a, b);
    RunIsWhole(lv, from, b, a);
    hide Walks;
    WalksFirst(lv, from, a, |lv.file|);
    WalksFirst(lv, from, b, |lv.file|);
  }

  lemma NestedWalks(lv: Level, from: nat, it: Item)
    requires Chosen(lv, from, it) && it.Nested?
    ensures Walks(lv.Inner(from, it.stream), 0, it.inner, |it.stream.plain|)
  {
  }

  lemma NothingAtEnd(lv: Level, it: Item)
    ensures !Chosen(lv, |lv.file|, it)
  {
  }

  /** The detector leaves no choice: two lists of items it calls for, from one position to the end, are equal. */
  lemma {:induction false} WalksOnce(lv: Level, from: nat, a: seq<Item>, b: seq<Item>)
    requires Walks(lv, from, a, |lv.file|) && Walks(lv, from, b, |lv.file|)
    ensures a == b
    decreases a
  {
    hide Chosen; hide Span;
    if a != [] && b != [] {
      SameKind(lv, from, a[0], b[0]);
      if a[0].Raw? {
        SameRun(lv, from, a, b);
      } else if a[0].Nested? {
        NestedWalks(lv, from, a[0]);
        NestedWalks(lv, from, b[0]);
        WalksOnce(lv.Inner(from, a[0].stream), 0, a[0].inner, b[0].inner);
      }
      WalksOnce(lv, from + |Span(a[0])|, a[1..], b[1..]);
      assert a == [a[0]] + a[1..] && b == [b[0]] + b[1..];
    } else if a != [] {
      NothingAtEnd(lv, a[0]);
    } else if b != [] {
      NothingAtEnd(lv, b[0]);
    }
  }

  // ---- Appending an item

  lemma {:induction false} AppendItem(re: Reencoder, items: seq<Item>, it: Item)
    requires ValidItems(re, items) && ValidItem(re, it)
    ensures ValidItems(re, items + [it])
    ensures EncodeItems(re, items + [it]) == EncodeItems(re, items) + EncodeItem(re, it)
    ensures Meaning(items + [it]) == Meaning(items) + Span(it)
    decreases |items|
  {
    hide EncodeItem; hide ValidItem; hide Span;
    var all := items + [it];
    if items == [] {
      assert all == [it];
      assert all[1..] == [];
      assert Meaning(all) == Span(it) + Meaning(all[1..]);
    } else {
      assert all[1..] == items[1..] + [it];
      AppendItem(re, items[1..], it);
    }
  }

  lemma RunIsNoStream(items: seq<Item>, run: seq<Byte>)
    ensures HasStream(items + [Raw(run)]) == HasStream(items)
  {
    if HasStream(items) {
      var i :| 0 <= i < |items| && !items[i].Raw?;
      assert (items + [Raw(run)])[i] == items[i];
    }
  }

  lemma AppendRun(re: Reencoder, items: seq<Item>, run: seq<Byte>)
    requires ValidItems(re, items) && run != []
    ensures var all := items + [Raw(run)];
      && ValidItems(re, all) && EncodeItems(re, all) == EncodeItems(re, items) + ([0] + Block(run))
      && Meaning(all) == Meaning(items) + run
  {
    hide EncodeItems; hide Meaning; hide ValidItems; hide Vlint;
    AppendItem(re, items, Raw(run));
  }

  // ---- Numbers, byte by byte

  method PutVlint(out: seq<Byte>, v: nat) returns (r: seq<Byte>)
    ensures r == out + Vlint(v)
  {
    var v := v;
    r := out;
    ghost var all := Vlint(v);
    assert out + all == r + Vlint(v);
    while v >= 128
      invariant r + Vlint(v) == out + all
    {
      ghost var w := v;
      r := r + [v % 128 + 128];
      v := v / 128 - 1;
      assert Vlint(w) == [w % 128 + 128] + Vlint(v);
    }
    r := r + [v];
  }

  // ---- Compression

  class Frame {
    const re: Reencoder
    const file: seq<Byte>
    var out: seq<Byte>
    var uncompressedLength: int
    var uncompressedPos: nat
    ghost var items: seq<Item>

    /** Everything before pos is written, except the uncompressed run in work. */
    ghost predicate Covers(pos: nat)
      reads this
    {
      && ValidItems(re, items) && pos <= |file|
      && if uncompressedLength == -1
         then out == EncodeItems(re, items) && Meaning(items) == file[..pos]
         else
           && uncompressedLength >= 0 && uncompressedPos + uncompressedLength == pos
           && out == EncodeItems(re, items) + [0] && Meaning(items) == file[..uncompressedPos]
    }

    constructor (re: Reencoder, file: seq<Byte>)
      ensures this.re == re && this.file == file && uncompressedLength == -1 && items == [] && Covers(0)
    {
      this.re, this.file := re, file;
      out, uncompressedLength, uncompressedPos, items := [], -1, 0, [];
    }

    method StartUncompressed(pos: nat)
      requires Covers(pos) && uncompressedLength == -1
      modifies this`out, this`uncompressedLength, this`uncompressedPos
      ensures Covers(pos) && uncompressedLength == 0 && uncompressedPos == pos
    {
      uncompressedLength := 0;
      uncompressedPos := pos;
      out := out + [0];
    }

    /** A run in work is never empty here, so length 0 stays free to mark the end of a PCF. */
    method EndUncompressed(pos: nat)
      requires Covers(pos) && uncompressedLength != 0
      modifies this`out, this`uncompressedLength, this`items
      ensures Covers(pos) && uncompressedLength == -1
      ensures old(uncompressedLength) == -1 ==> items == old(items)
      ensures old(uncompressedLength) != -1 ==>
        old(uncompressedPos) < pos && items == old(items) + [Raw(file[old(uncompressedPos)..pos])]
      ensures HasStream(items) == HasStream(old(items))
    {
      hide EncodeItems; hide Meaning; hide ValidItems; hide Vlint; hide EncodeItem; hide ValidItem; hide Span;
      if uncompressedLength == -1 {
        return;
      }
      var run := file[uncompressedPos..uncompressedPos + uncompressedLength];
      out := PutVlint(out, uncompressedLength);
      out := out + run;
      AppendRun(re, items, run);
      assert out == EncodeItems(re, items) + ([0] + Block(run));
      assert file[..pos] == file[..uncompressedPos] + run;
      RunIsNoStream(items, run);
      items := items + [Raw(run)];
      uncompressedLength := -1;
    }

    /** No stream starts at pos: its byte joins the run in work. */
    method KeepByte(pos: nat)
      requires Covers(pos) && pos < |file|
      modifies this`out, this`uncompressedLength, this`uncompressedPos
      ensures Covers(pos + 1) && uncompressedLength > 0
      ensures uncompressedPos == if old(uncompressedLength) == -1 then pos else old(uncompressedPos)
    {
      if uncompressedLength == -1 {
        StartUncompressed(pos);
      }
      uncompressedLength := uncompressedLength + 1;
    }

    method PutHeader(st: Stream, recursed: bool)
      requires st.params.Valid() && (st.kind.IncLast() ==> st.hdr != [])
      modifies this`out
      ensures out == old(out) + Header(st, recursed)
    {
      hide Vlint;
      var flags := 1 + (if st.params.Perfect? then 4 * st.params.level else 2) + (if recursed then 128 else 0);
      out := out + [flags];
      out := out + [st.kind.Code()];
      if st.params.Perfect? {
        out := out + [(st.params.window - 8) * 16 + st.params.mem];
      }
      ghost var front := out;
      hide Kind.Code; hide Kind.IncLast; hide Kind.Magic;
      out := PutVlint(out, |st.hdr|);
      if !st.kind.IncLast() {
        out := out + st.hdr;
        assert out == front + Block(st.hdr);
      } else {
        out := out + st.hdr[..|st.hdr| - 1];
        out := out + [(st.hdr[|st.hdr| - 1] as int + 1) % 256];
        assert out == front + Block(Increment(st.hdr));
      }
    }

    method PutReconData(st: Stream)
      modifies this`out
      ensures out == old(out) + ReconData(st)
    {
      hide Vlint;
      if st.params.Recon? {
        out := PutVlint(out, |st.params.data|);
        out := out + st.params.data;
      }
      out := PutVlint(out, |st.compressed|);
      out := PutVlint(out, |st.plain|);
    }

    /** The pair count, the first length, then a CRC and a length for each pair. */
    method PutChunks(chunks: seq<MultiPng.Idat>)
      modifies this`out
      ensures out == old(out) + ChunkBytes(chunks)
    {
      hide Vlint; hide MultiPng.PairBytes;
      if chunks == [] {
        return;
      }
      ghost var front := Vlint(|chunks| - 1) + Vlint(chunks[0].len + 2);
      out := PutVlint(out, |chunks| - 1);
      out := PutVlint(out, chunks[0].len + 2);
      var i := 1;
      while i < |chunks|
        invariant 1 <= i <= |chunks|
        invariant old(out) + (front + MultiPng.PairBytes(chunks[1..])) == out + MultiPng.PairBytes(chunks[i..])
      {
        MultiPng.FirstPair(chunks[i..]);
        assert chunks[i..][1..] == chunks[i + 1..];
        ghost var o := out;
        out := out + WordBytes(chunks[i].crc);
        out := PutVlint(out, chunks[i].len);
        assert o + MultiPng.PairBytes(chunks[i..]) == out + MultiPng.PairBytes(chunks[i + 1..]);
        i := i + 1;
      }
      MultiPng.NoPairs([]);
      assert chunks[i..] == [];
    }

    method PutOptions(p: Params)
      modifies this`out
      ensures out == old(out) + Options(p)
    {
      hide Vlint;
      ghost var o := out;
      if p.Bzip? {
        out := out + [p.blocks];
        if p.penalty != [] {
          out := PutVlint(out, |p.penalty|);
          out := out + p.penalty;
          assert out == o + ([p.blocks] + Block(p.penalty));
        }
      } else {
        assert o + [] == o;
      }
    }

    /** JPG, MP3 and bZip2. */
    method PutForeign(st: Stream, recursed: bool)
      modifies this`out
      ensures out == old(out) + ForeignLead(st, recursed)
    {
      hide Vlint; hide Kind.Code; hide ForeignFlags; hide Options;
      out := out + [ForeignFlags(st.params, recursed)];
      out := out + [st.kind.Code()];
      PutOptions(st.params);
      out := PutVlint(out, |st.compressed|);
      out := PutVlint(out, |st.plain|);
    }

    method PutLead(st: Stream, recursed: bool)
      requires st.Shaped()
      modifies this`out
      ensures out == old(out) + Lead(st, recursed)
    {
      hide Header; hide ReconData; hide ChunkBytes; hide ForeignLead;
      if st.kind.Foreign() {
        PutForeign(st, recursed);
      } else {
        PutHeader(st, recursed);
        PutChunks(st.chunks);
        PutReconData(st);
      }
    }

    /** Writes the stream found at pos; `inner` is the container made of its contents, if any stream was in there. */
    method PutStream(pos: nat, st: Stream, inner: Option<seq<Byte>>, ghost innerItems: seq<Item>)
      requires Covers(pos) && uncompressedLength == -1 && Found(re, file, pos, st)
      requires inner.Some? ==> st.kind.Recurses() && ValidItems(re, innerItems) && Meaning(innerItems) == st.plain
      requires inner.Some? ==> inner.value == EncodeItems(re, innerItems)
      modifies this`out, this`items
      ensures Covers(pos + |st.Source()|) && HasStream(items)
      ensures items == old(items) + [if inner.Some? then Nested(st, innerItems) else Packed(st)]
    {
      hide EncodeItems; hide Meaning; hide ValidItems; hide Vlint; hide Lead; hide Stream.Source;
      PutLead(st, inner.Some?);
      match inner {
        case None => out := out + st.plain;
        case Some(e) =>
          out := PutVlint(out, |e|);
          out := out + e;
      }
      ghost var it := if inner.Some? then Nested(st, innerItems) else Packed(st);
      AppendItem(re, items, it);
      assert out == EncodeItems(re, items) + EncodeItem(re, it);
      assert file[..pos + |st.Source()|] == file[..pos] + st.Source();
      items := items + [it];
      assert !items[|items| - 1].Raw?;
    }
  }

  /**
   The items written, and the run in work of `length` bytes from `start` on, if any, are what the
   detector calls for up to pos.
   */
  ghost predicate Follows(lv: Level, items: seq<Item>, length: int, start: nat, pos: nat) {
    && !EndsInRun(items)
    && if length == -1 then Walks(lv, 0, items, pos) else Walks(lv, 0, items, start) && lv.Silent(start, pos)
  }

  lemma RunEnds(lv: Level, items: seq<Item>, from: nat, pos: nat)
    requires Walks(lv, 0, items, from) && !EndsInRun(items) && lv.Silent(from, pos) && from < pos <= |lv.file|
    ensures Walks(lv, 0, items + [Raw(lv.file[from..pos])], pos)
  {
    hide Walks; hide EndsInRun;
    assert Chosen(lv, from, Raw(lv.file[from..pos]));
    WalksOn(lv, 0, items, from, Raw(lv.file[from..pos]));
  }

  /** The stream found at pos, with the items of its contents if recursion was allowed and found a stream. */
  lemma StreamIsChosen(lv: Level, pos: nat, st: Stream, inner: seq<Item>, nested: bool)
    requires pos < |lv.file| && lv.At(pos) == Some(st)
    requires lv.MayRecurse(st) ==> Walks(lv.Inner(pos, st), 0, inner, |st.plain|)
    requires nested == (lv.MayRecurse(st) && HasStream(inner))
    ensures Chosen(lv, pos, if nested then Nested(st, inner) else Packed(st))
  {
    if lv.MayRecurse(st) && !nested {
      OneRunOnly(lv.Inner(pos, st), inner);
    }
  }

  /**
   `compress_file` at some recursion depth; `used` tells whether any stream was found.  The items
   written are those the detector calls for, here and in all contents.
   */
  method CompressFile(re: Reencoder, detect: Detector, maxDepth: nat, depth: nat, path: seq<nat>, file: seq<Byte>)
    returns (out: seq<Byte>, used: bool, ghost items: seq<Item>)
    requires Sound(re, detect)
    ensures ValidItems(re, items) && out == EncodeItems(re, items) && Meaning(items) == file
    ensures used == HasStream(items) && Decompress(re, out) == Ok(file)
    ensures Walks(Level(detect, maxDepth, depth, path, file), 0, items, |file|)
    decreases maxDepth - depth, 2
  {
    hide ValidItems; hide EncodeItems; hide Meaning; hide Stream.Source; hide Stream.Exact; hide Decompress;
    hide Chosen; hide EndsInRun;
    used := false;
    ghost var lv := Level(detect, maxDepth, depth, path, file);
    var frame := new Frame(re, file);
    FreshFollows(lv);
    assert !HasStream(frame.items);
    hide HasStream; hide Walks; hide Level.Silent; hide Follows;
    var pos := 0;
    while pos < |file|
      invariant frame.re == re && frame.file == file
      invariant frame.Covers(pos) && frame.uncompressedLength != 0
      invariant used == HasStream(frame.items)
      invariant Follows(lv, frame.items, frame.uncompressedLength, frame.uncompressedPos, pos)
    {
      var found := detect(path, file, pos);
      match found {
        case None =>
          ghost var length, start := frame.uncompressedLength, frame.uncompressedPos;
          frame.KeepByte(pos);
          ByteFollows(lv, frame.items, length, start, pos, frame.uncompressedLength, frame.uncompressedPos);
          pos := pos + 1;
        case Some(st) =>
          assert Found(re, file, pos, st);
          used := true;
          TakeStream(frame, detect, maxDepth, depth, path, pos, st);
          SourceIsNotEmpty(re, st);
          pos := pos + |st.Source()|;
      }
    }
    RunFollows(lv, frame.items, frame.uncompressedLength, frame.uncompressedPos, pos);
    frame.EndUncompressed(pos);
    assert file[..pos] == file;
    out, items := frame.out, frame.items;
    DecompressUndoes(re, items);
  }

  /** The stream found at pos ends the run in work and is written with its contents. */
  method TakeStream(frame: Frame, detect: Detector, maxDepth: nat, depth: nat, path: seq<nat>, pos: nat, st: Stream)
    requires Sound(frame.re, detect) && pos < |frame.file| && detect(path, frame.file, pos) == Some(st)
    requires frame.Covers(pos) && frame.uncompressedLength != 0
    requires Follows(Level(detect, maxDepth, depth, path, frame.file), frame.items, frame.uncompressedLength,
                     frame.uncompressedPos, pos)
    modifies frame
    ensures frame.Covers(pos + |st.Source()|) && frame.uncompressedLength == -1 && HasStream(frame.items)
    ensures Follows(Level(detect, maxDepth, depth, path, frame.file), frame.items, -1, frame.uncompressedPos,
                    pos + |st.Source()|)
    decreases maxDepth - depth, 1
  {
    hide ValidItems; hide EncodeItems; hide Meaning; hide Stream.Source; hide Stream.Exact; hide Decompress;
    hide Chosen; hide EndsInRun; hide HasStream; hide Walks; hide Level.Silent; hide Follows;
    ghost var lv := Level(detect, maxDepth, depth, path, frame.file);
    RunFollows(lv, frame.items, frame.uncompressedLength, frame.uncompressedPos, pos);
    frame.EndUncompressed(pos);
    var inner;
    ghost var innerItems;
    inner, innerItems := CompressContents(frame.re, detect, maxDepth, depth, path, frame.file, pos, st);
    ghost var before := frame.items;
    frame.PutStream(pos, st, inner, innerItems);
    ghost var it := if inner.Some? then Nested(st, innerItems) else Packed(st);
    StreamFollows(lv, pos, before, it, frame.uncompressedPos);
  }

  /** The recursion into a stream found at pos: a container of its contents, if there is a stream in them. */
  method CompressContents(re: Reencoder, detect: Detector, maxDepth: nat, depth: nat, path: seq<nat>, file: seq<Byte>,
                          pos: nat, st: Stream)
    returns (inner: Option<seq<Byte>>, ghost innerItems: seq<Item>)
    requires Sound(re, detect) && pos < |file| && detect(path, file, pos) == Some(st)
    ensures inner.Some? ==> st.kind.Recurses() && ValidItems(re, innerItems) && Meaning(innerItems) == st.plain
    ensures inner.Some? ==> inner.value == EncodeItems(re, innerItems)
    ensures Chosen(Level(detect, maxDepth, depth, path, file), pos,
                   if inner.Some? then Nested(st, innerItems) else Packed(st))
    decreases maxDepth - depth, 0
  {
    hide ValidItems; hide EncodeItems; hide Meaning; hide Stream.Source; hide Stream.Exact; hide Decompress;
    hide Chosen; hide Walks; hide HasStream;
    inner, innerItems := None, [];
    if depth + 1 <= maxDepth && st.kind.Recurses() {
      var e, innerUsed;
      e, innerUsed, innerItems := CompressFile(re, detect, maxDepth, depth + 1, path + [pos], st.plain);
      if innerUsed {
        inner := Some(e);
      }
    }
    StreamIsChosen(Level(detect, maxDepth, depth, path, file), pos, st, innerItems, inner.Some?);
  }

  lemma FreshFollows(lv: Level)
    ensures Follows(lv, [], -1, 0, 0)
  {
  }

  /** A byte at which nothing is found joins the run in work. */
  lemma ByteFollows(lv: Level, items: seq<Item>, length: int, start: nat, pos: nat, length': int, start': nat)
    requires Follows(lv, items, length, start, pos) && lv.At(pos).None?
    requires length' >= 0 && start' == if length == -1 then pos else start
    ensures Follows(lv, items, length', start', pos + 1)
  {
    hide Walks;
  }

  /** Writing the run in work. */
  lemma RunFollows(lv: Level, items: seq<Item>, length: int, start: nat, pos: nat)
    requires Follows(lv, items, length, start, pos) && pos <= |lv.file|
    ensures length == -1 ==> Walks(lv, 0, items, pos)
    ensures length != -1 && start < pos ==> Walks(lv, 0, items + [Raw(lv.file[start..pos])], pos)
  {
    hide Walks;
    if length != -1 && start < pos {
      RunEnds(lv, items, start, pos);
    }
  }

  lemma StreamFollows(lv: Level, pos: nat, items: seq<Item>, it: Item, start: nat)
    requires Walks(lv, 0, items, pos) && Chosen(lv, pos, it) && !it.Raw?
    ensures Follows(lv, items + [it], -1, start, pos + |Span(it)|)
  {
    hide Walks; hide Chosen; hide Span;
    WalksOn(lv, 0, items, pos, it);
  }

  lemma SourceIsNotEmpty(re: Reencoder, st: Stream)
    requires st.Exact(re)
    ensures |st.Source()| > 0
  {
    NotInterleaved(st.compressed);
  }

  /** Whatever is found in a file, and at any depth limit, the file comes back. */
  method RoundTrip(re: Reencoder, detect: Detector, maxDepth: nat, file: seq<Byte>)
    returns (out: seq<Byte>, back: Result<seq<Byte>>)
    requires Sound(re, detect)
    ensures Decompress(re, out) == back == Ok(file)
  {
    hide *;
    var used;
    ghost var items;
    out, used, items := CompressFile(re, detect, maxDepth, 0, [], file);
    back := DecompressFile(re, out);
  }

  /** An image whose chunks are linked in the file is found there as a stream of its first k + 1 chunks. */
  lemma ImageIsFound(re: Reencoder, file: seq<Byte>, pos: nat, cs: seq<MultiPng.Idat>, st: Stream)
    requires cs != [] && pos + 6 <= |file| && file[pos..pos + 4] == MultiPng.IDAT
    requires MultiPng.Linked(file, pos + 6, cs, 0)
    requires st.Exact(re) && st.kind.PngMulti? && st.hdr == file[pos + 4..pos + 6]
    requires st.compressed <= MultiPng.Joined(file, pos + 6, cs, 0)
    requires st.chunks == cs[..MultiPng.Seams(cs, 0, |st.compressed|) + 1]
    ensures Found(re, file, pos, st)
  {
    hide MultiPng.Run; hide MultiPng.Linked; hide MultiPng.Joined; hide MultiPng.Seams; hide MultiPng.Holds;
    var n, joined := |st.compressed|, MultiPng.Joined(file, pos + 6, cs, 0);
    var k := MultiPng.Seams(cs, 0, n);
    assert joined[..n] == st.compressed;
    MultiPng.JoinedHolds(file, pos + 6, cs, 0, n);
    MultiPng.EnoughChunks(cs, 0, n, st.chunks, st.compressed);
    MultiPng.CutUndoesJoin(file, pos + 6, cs, 0, n);
    MultiPng.FileParts(file, pos, pos + 4, pos + 6, pos + 6 + n + 12 * k);
    assert st.Source() == file[pos..pos + 6 + n + 12 * k];
  }

  // ---- Decompression

  /** `c << s`, for m = 2^s. */
  function Shifted(c: nat, m: nat): (r: nat) { m * c }

  /** The number whose first k bytes gave v, o and m, where n is what the remaining bytes alone mean. */
  function Continued(v: nat, o: nat, m: nat, k: nat, n: Option<Number>): (r: Option<Number>) {
    match n
    case None => None
    case Some(n) => Some(Number(v + o + m * n.value, k + n.size))
  }

  lemma ContinuedFrom(n: Option<Number>)
    ensures Continued(0, 0, 1, 0, n) == n
  {
  }

  lemma Regroup(v: int, o: int, m: int, c: int, n: int)
    requires 127 * o + 128 == 128 * m
    ensures v + o + m * (c + 128 * (n + 1)) == (v + m * c) + (o + 1) * 128 + (m * 128) * n
  {
    assert m * (c + 128 * (n + 1)) == m * c + m * (128 * (n + 1));
    assert m * (128 * (n + 1)) == 128 * m + (m * 128) * n;
  }

  lemma UnvlintStep(s: seq<Byte>)
    requires s != [] && s[0] >= 128
    ensures Unvlint(s)
         == match Unvlint(s[1..])
            case None => None
            case Some(n) => Some(Number(s[0] as int - 128 + 128 * (n.value + 1), n.size + 1))
  {
  }

  lemma ContinuedOn(v: nat, o: nat, m: nat, k: nat, s: seq<Byte>)
    requires 127 * o + 128 == 128 * m && s != [] && s[0] >= 128
    ensures Continued(v, o, m, k, Unvlint(s))
         == Continued(v + Shifted(s[0] as int - 128, m), (o + 1) * 128, m * 128, k + 1, Unvlint(s[1..]))
  {
    hide Unvlint;
    UnvlintStep(s);
    var rest := Unvlint(s[1..]);
    if rest.Some? {
      Regroup(v, o, m, s[0] as int - 128, rest.value.value);
    }
  }

  lemma ContinuedToEnd(v: nat, o: nat, m: nat, k: nat, s: seq<Byte>)
    requires s == [] || s[0] < 128
    ensures Continued(v, o, m, k, Unvlint(s))
         == if s == [] then None else Some(Number(v + o + Shifted(s[0] as int, m), k + 1))
  {
  }

  /** A run of uncompressed data, with its marker. */
  function GetRun(s: seq<Byte>): (r: Result<Got<seq<Byte>>>)
    requires s != []
    ensures r.Ok? ==> 1 <= r.value.size <= |s|
  {
    var raw :- GetBlock(s[1..]);
    Ok(Got(raw.value, 1 + raw.size))
  }

  /** What was read already, and what follows. */
  function Joined(list: seq<MultiPng.Idat>, size: nat, more: Option<MultiPng.Chunks>): (r: Option<MultiPng.Chunks>) {
    match more
    case None => None
    case Some(c) => Some(MultiPng.Chunks(list + c.list, size + c.size))
  }

  lemma JoinedNone(more: Option<MultiPng.Chunks>)
    ensures Joined([], 0, more) == more
  {
    if more.Some? {
      assert [] + more.value.list == more.value.list;
    }
  }

  lemma JoinedMore(list: seq<MultiPng.Idat>, size: nat, c: MultiPng.Idat, k: nat, more: Option<MultiPng.Chunks>)
    ensures Joined(list, size, Joined([c], k, more)) == Joined(list + [c], size + k, more)
  {
    if more.Some? {
      assert list + ([c] + more.value.list) == list + [c] + more.value.list;
    }
  }

  function PairsWanted(c: Option<MultiPng.Chunks>): (r: Result<Got<seq<MultiPng.Idat>>>) {
    match c
    case None => Fail(Truncated)
    case Some(c) => Ok(Got(c.list, c.size))
  }

  /** The first pair, then the others. */
  lemma PairNext(s: seq<Byte>, count: nat)
    requires count > 0
    ensures |s| < 4 || GetNumber(s[4..]).Fail? ==> MultiPng.ReadPairs(s, count) == None
    ensures |s| >= 4 && GetNumber(s[4..]).Ok? ==>
      var n := GetNumber(s[4..]).value;
      MultiPng.ReadPairs(s, count)
      == Joined([MultiPng.Idat(Word(s[..4]), n.value % 0x1_0000_0000)], 4 + n.size,
                MultiPng.ReadPairs(s[4 + n.size..], count - 1))
  {
    hide Word; hide Unvlint;
  }

  lemma PairsEnd(s: seq<Byte>)
    ensures MultiPng.ReadPairs(s, 0) == Some(MultiPng.Chunks([], 0))
  {
  }

  lemma NumberOrNothing(s: seq<Byte>)
    ensures GetNumber(s).Fail? ==> GetNumber(s) == Fail(Truncated)
  {
  }

  class Input {
    const data: seq<Byte>
    var at: nat

    predicate Valid() reads this { at <= |data| }

    function Rest(): seq<Byte>
      requires Valid()
      reads this
    {
      data[at..]
    }

    constructor (data: seq<Byte>)
      ensures Valid() && this.data == data && at == 0
    {
      this.data, at := data, 0;
    }

    /** r is what `want` says, and the cursor has moved past it. */
    ghost predicate Took<T(!new)>(before: nat, want: Result<Got<T>>, r: Result<T>)
      reads this
    {
      && Valid()
      && if want.Fail? then r == Fail(want.error)
         else r == Ok(want.value.value) && at == before + want.value.size
    }

    method GetVlint() returns (r: Result<nat>)
      requires Valid()
      modifies this
      ensures Took(old(at), GetNumber(old(Rest())), r)
    {
      hide Unvlint; hide Continued; hide Shifted;
      var v: nat, o: nat, m: nat := 0, 0, 1;
      ContinuedFrom(Unvlint(Rest()));
      ghost var start := Unvlint(Rest());
      while at < |data| && data[at] >= 128
        invariant old(at) <= at <= |data| && v >= 0 && o >= 0 && m >= 1
        invariant 127 * o + 128 == 128 * m
        invariant start == Continued(v, o, m, at - old(at), Unvlint(Rest()))
        decreases |data| - at
      {
        assert Rest()[1..] == data[at + 1..];
        ContinuedOn(v, o, m, at - old(at), Rest());
        v := v + Shifted(data[at] as int - 128, m);
        m := m * 128;
        o := (o + 1) * 128;
        at := at + 1;
      }
      ContinuedToEnd(v, o, m, at - old(at), Rest());
      if at == |data| {
        return Fail(Truncated);
      }
      r := Ok(v + o + Shifted(data[at] as int, m));
      at := at + 1;
    }

    method Take(n: nat) returns (r: Result<seq<Byte>>)
      requires Valid()
      modifies this
      ensures Took(old(at), if |old(Rest())| < n then Fail(Truncated) else Ok(Got(old(Rest())[..n], n)), r)
    {
      if at + n > |data| {
        return Fail(Truncated);
      }
      assert Rest()[..n] == data[at..at + n];
      r := Ok(data[at..at + n]);
      at := at + n;
    }

    method TakeBlock() returns (r: Result<seq<Byte>>)
      requires Valid()
      modifies this
      ensures Took(old(at), GetBlock(old(Rest())), r)
    {
      hide GetNumber;
      ghost var start := Rest();
      var n :- GetVlint();
      ghost var k := at - old(at);
      assert Rest() == start[k..];
      if n <= |Rest()| {
        assert Rest()[..n] == start[k..k + n];
      }
      r := Take(n);
    }

    method TakeByte() returns (r: Result<Byte>)
      requires Valid()
      modifies this
      ensures Took(old(at), if old(Rest()) == [] then Fail(Truncated) else Ok(Got(old(Rest())[0], 1)), r)
    {
      if at == |data| {
        return Fail(Truncated);
      }
      r := Ok(data[at]);
      at := at + 1;
    }

    method TakeRun() returns (r: Result<seq<Byte>>)
      requires Valid() && Rest() != []
      modifies this
      ensures Took(old(at), GetRun(old(Rest())), r)
    {
      hide GetBlock;
      ghost var start := Rest();
      var _ := TakeByte();
      assert Rest() == start[1..];
      r := TakeBlock();
    }

    /** `fin_fget_deflate_hdr`, after the type byte. */
    method TakeHeader() returns (r: Result<StreamHeader>)
      requires Valid()
      modifies this
      ensures Took(old(at), GetHeader(old(Rest())), r)
    {
      hide GetBlock; hide KindOf; hide Kind.Code; hide Kind.IncLast; hide Decrement;
      ghost var start := Rest();
      if at + 2 > |data| {
        return Fail(Truncated);
      }
      var flags, code := data[at], data[at + 1];
      at := at + 2;
      assert start[0] == flags && start[1] == code && Rest() == start[2..];
      var kind := KindOf(code);
      if kind.None? || (kind.value.Pdf? && flags / 64 != 0) {
        return Fail(UnsupportedStream);
      }
      var params := Recon([]);
      if flags / 2 % 2 == 0 {
        var p :- TakeByte();
        params := Perfect(flags / 4 % 16, p / 16 % 8 + 8, p % 16);
      }
      assert Rest() == start[at - old(at)..];
      var hdr :- TakeBlock();
      if kind.value.IncLast() {
        if hdr == [] {
          return Fail(Truncated);
        }
        hdr := Decrement(hdr);
      }
      r := Ok(StreamHeader(kind.value, hdr, params, flags / 128 == 1));
    }

    method TakeSizes(params: Params) returns (r: Result<Sizes>)
      requires Valid()
      modifies this
      ensures Took(old(at), GetSizes(old(Rest()), params), r)
    {
      hide GetNumber;
      ghost var start := Rest();
      var c :- GetVlint();
      assert Rest() == start[at - old(at)..];
      var u :- GetVlint();
      r := Ok(Sizes(params, c, u));
    }

    method TakeReconData(p: Params) returns (r: Result<Sizes>)
      requires Valid()
      modifies this
      ensures Took(old(at), GetReconData(old(Rest()), p), r)
    {
      hide GetBlock; hide GetSizes;
      if p.Perfect? {
        r := TakeSizes(p);
        return;
      }
      ghost var start := Rest();
      var data :- TakeBlock();
      assert Rest() == start[at - old(at)..];
      r := TakeSizes(Recon(data));
    }

    /** One CRC and length after another. */
    method TakePairs(count: nat) returns (r: Result<seq<MultiPng.Idat>>)
      requires Valid()
      modifies this
      ensures Took(old(at), PairsWanted(MultiPng.ReadPairs(old(Rest()), count)), r)
    {
      hide MultiPng.ReadPairs; hide Word; hide GetNumber;
      ghost var want := MultiPng.ReadPairs(Rest(), count);
      var list: seq<MultiPng.Idat> := [];
      var i := 0;
      JoinedNone(want);
      while i < count
        invariant 0 <= i <= count && old(at) <= at <= |data|
        invariant want == Joined(list, at - old(at), MultiPng.ReadPairs(Rest(), count - i))
      {
        ghost var start, list0 := Rest(), list;
        ghost var before := at;
        PairNext(start, count - i);
        var crc := Take(4);
        if crc.Fail? {
          return Fail(Truncated);
        }
        assert Rest() == start[4..];
        var len := GetVlint();
        if len.Fail? {
          return Fail(Truncated);
        }
        assert Rest() == start[at - before..];
        list := list + [MultiPng.Idat(Word(crc.value), len.value % 0x1_0000_0000)];
        JoinedMore(list0, before - old(at), list[|list0|], at - before, MultiPng.ReadPairs(Rest(), count - i - 1));
        i := i + 1;
      }
      PairsEnd(Rest());
      r := Ok(list);
      assert list + [] == list;
    }

    method TakeChunks(kind: Kind) returns (r: Result<seq<MultiPng.Idat>>)
      requires Valid()
      modifies this
      ensures Took(old(at), GetChunks(old(Rest()), kind), r)
    {
      hide MultiPng.ReadPairs; hide GetNumber;
      if !kind.PngMulti? {
        return Ok([]);
      }
      ghost var start := Rest();
      StoredParts(start);
      NumberOrNothing(start);
      var k :- GetVlint();
      assert Rest() == start[at - old(at)..];
      NumberOrNothing(Rest());
      var first :- GetVlint();
      assert Rest() == start[at - old(at)..];
      var pairs :- TakePairs(k);
      r := Ok([MultiPng.Idat(0, (first as int - 2) % 0x1_0000_0000)] + pairs);
    }

    method TakeDeflate() returns (r: Result<Known>)
      requires Valid()
      modifies this
      ensures Took(old(at), GetDeflate(old(Rest())), r)
    {
      hide GetHeader; hide GetChunks; hide GetReconData;
      ghost var start := Rest();
      var h :- TakeHeader();
      assert Rest() == start[at - old(at)..];
      var chunks :- TakeChunks(h.kind);
      assert Rest() == start[at - old(at)..];
      var sizes :- TakeReconData(h.params);
      r := Ok(Known(h.kind, h.hdr, chunks, sizes, h.recursed && h.kind.Recurses()));
    }

    method TakeOptions(flags: Byte, kind: Kind) returns (r: Result<Params>)
      requires Valid()
      modifies this
      ensures Took(old(at), GetOptions(old(Rest()), flags, kind), r)
    {
      hide GetBlock;
      match kind {
        case Jpg => r := Ok(Jpeg(flags / 4 % 2 == 1));
        case Bzip2 =>
          ghost var start := Rest();
          var level :- TakeByte();
          assert Rest() == start[1..];
          var penalty := [];
          if flags / 2 % 2 == 1 {
            penalty :- TakeBlock();
          }
          r := Ok(Bzip(level, penalty));
        case _ => r := Ok(Mpeg);
      }
    }

    method TakeForeign(kind: Kind) returns (r: Result<Known>)
      requires Valid() && |Rest()| >= 2
      modifies this
      ensures Took(old(at), GetForeign(old(Rest()), kind), r)
    {
      hide GetOptions; hide GetSizes;
      ghost var start := Rest();
      var flags := data[at];
      at := at + 2;
      assert Rest() == start[2..];
      var params :- TakeOptions(flags, kind);
      assert Rest() == start[at - old(at)..];
      var sizes :- TakeSizes(params);
      r := Ok(Known(kind, [], [], sizes, kind.Bzip2? && flags / 128 == 1));
    }

    method TakeLead() returns (r: Result<Known>)
      requires Valid()
      modifies this
      ensures Took(old(at), GetLead(old(Rest())), r)
    {
      hide GetDeflate; hide GetForeign; hide ForeignKind;
      var kind := ForeignKind(Rest());
      match kind {
        case Some(k) => r := TakeForeign(k);
        case None => r := TakeDeflate();
      }
    }
  }

  /** The three parts of what is stored about chunks. */
  lemma StoredParts(s: seq<Byte>)
    ensures var k := GetNumber(s);
      if k.Fail? then MultiPng.ReadStored(s) == None
      else
        var first := GetNumber(s[k.value.size..]);
        if first.Fail? then MultiPng.ReadStored(s) == None
        else
          var size := k.value.size + first.value.size;
          MultiPng.ReadStored(s)
          == Joined([MultiPng.Idat(0, (first.value.value - 2) % 0x1_0000_0000)], size,
                    MultiPng.ReadPairs(s[size..], k.value.value))
  {
    hide Unvlint; hide MultiPng.ReadPairs;
  }

  /** One stream: its magic and header, then what the re-encoder makes of its contents. */
  method DecompressStream(re: Reencoder, input: Input) returns (r: Result<seq<Byte>>)
    requires input.Valid() && input.Rest() != []
    modifies input
    ensures input.Took(old(input.at), GetStream(re, old(input.Rest())), r)
    decreases |input.data| - input.at, 0
  {
    hide GetLead; hide GetBlock; hide Decompress; hide Reconstruct;
    ghost var start := input.Rest();
    var k :- input.TakeLead();
    assert input.Rest() == start[input.at - old(input.at)..];
    if k.recursed {
      var inner :- input.TakeBlock();
      var plain :- DecompressFile(re, inner);
      r := Reconstruct(re, k, plain);
    } else {
      r := Reconstruct(re, k, input.Rest());
      if r.Ok? {
        EnoughPlain(re, k, input.Rest());
        var _ := input.Take(k.sizes.plain);
      }
    }
  }

  lemma EnoughPlain(re: Reencoder, k: Known, data: seq<Byte>)
    requires Reconstruct(re, k, data).Ok?
    ensures k.sizes.plain <= |data|
  {
  }

  /** What follows `out`. */
  function After(out: seq<Byte>, r: Result<seq<Byte>>): (s: Result<seq<Byte>>) {
    if r.Fail? then r else Ok(out + r.value)
  }

  lemma AfterMore(out: seq<Byte>, a: seq<Byte>, r: Result<seq<Byte>>)
    ensures After(out, After(a, r)) == After(out + a, r)
  {
    if r.Ok? {
      assert out + a + r.value == out + (a + r.value);
    }
  }

  lemma DropTwice(data: seq<Byte>, i: nat, j: nat)
    requires i <= j <= |data|
    ensures data[i..][j - i..] == data[j..]
  {
  }

  lemma AfterStops(out: seq<Byte>, e: Error)
    ensures After(out, Fail(e)) == Fail(e) && After(out, Ok([])) == Ok(out)
  {
    assert out + [] == out;
  }

  lemma AfterNothing(r: Result<seq<Byte>>)
    ensures After([], r) == r
  {
    if r.Ok? {
      assert [] + r.value == r.value;
    }
  }

  /** One item, of either kind. */
  function GetItem(re: Reencoder, s: seq<Byte>): (r: Result<Got<seq<Byte>>>)
    requires s != []
    ensures r.Ok? ==> 1 <= r.value.size <= |s|
  {
    if s[0] == 0 then GetRun(s) else GetStream(re, s)
  }

  /** `Decompress`, one item at a time. */
  lemma OneItem(re: Reencoder, s: seq<Byte>)
    requires s != []
    ensures var item := GetItem(re, s);
      Decompress(re, s) == if item.Fail? then Fail(item.error) else if s[0] == 0 && item.value.value == [] then Ok([])
                           else After(item.value.value, Decompress(re, s[item.value.size..]))
  {
    hide GetStream; hide GetBlock;
  }

  method DecompressItem(re: Reencoder, input: Input) returns (r: Result<seq<Byte>>)
    requires input.Valid() && input.Rest() != []
    modifies input
    ensures input.Took(old(input.at), GetItem(re, old(input.Rest())), r)
    decreases |input.data| - input.at, 1
  {
    hide GetStream; hide GetRun;
    if input.data[input.at] == 0 {
      r := input.TakeRun();
    } else {
      r := DecompressStream(re, input);
    }
  }

  method DecompressFile(re: Reencoder, data: seq<Byte>) returns (r: Result<seq<Byte>>)
    ensures r == Decompress(re, data)
    decreases |data|, 2
  {
    hide GetItem; hide Decompress; hide After;
    var input := new Input(data);
    var out := [];
    assert data[0..] == data;
    AfterNothing(Decompress(re, data));
    while input.at < |data|
      invariant fresh(input) && input.Valid() && input.data == data
      invariant Decompress(re, data) == After(out, Decompress(re, data[input.at..]))
      decreases |data| - input.at
    {
      ghost var here := input.at;
      OneItem(re, data[here..]);
      var run := data[input.at] == 0;
      var item := DecompressItem(re, input);
      if item.Fail? {
        AfterStops(out, item.error);
        return item;
      }
      if run && item.value == [] {
        AfterStops(out, Truncated);
        return Ok(out);
      }
      DropTwice(data, here, input.at);
      AfterMore(out, item.value, Decompress(re, data[input.at..]));
      out := out + item.value;
    }
    NothingLeft(re);
    assert data[input.at..] == [];
    AfterStops(out, Truncated);
    return Ok(out);
  }

  lemma NothingLeft(re: Reencoder)
    ensures Decompress(re, []) == Ok([])
  {
  }
}
