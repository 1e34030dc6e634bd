/**
 The PCF container of precomp: runs of uncompressed data, and streams stored as their
 header, what is needed to re-encode them, and their decompressed contents, which may again
 be a PCF.  Finding streams and re-encoding them are arbitrary, as long as the re-encoder
 gives back exactly the compressed bytes that were found.
 */
module Pcf {
  import opened Bytes
  import opened Wrappers
  import opened Vlints
  import MultiPng

  // ---- Streams

  datatype Kind = Pdf | Zip | Gzip | Png | PngMulti | Jpg | Swf | Bzip2 | Mp3 | Brute | RawZlib {

    function Code(): (c: Byte) {
      match this
      case Pdf => 0
      case Zip => 1
      case Gzip => 2
      case Png => 3
      case PngMulti => 4
      case Jpg => 6
      case Swf => 7
      case Bzip2 => 9
      case Mp3 => 10
      case Brute => 254
      case RawZlib => 255
    }

    /** The bytes that the decoder restores from the kind alone. */
    function Magic(): (m: seq<Byte>) {
      match this
      case Pdf => [0x2f, 0x46, 0x6c, 0x61, 0x74, 0x65, 0x44, 0x65, 0x63, 0x6f, 0x64, 0x65]
      case Zip => [0x50, 0x4b, 3, 4]
      case Gzip => [31, 139]
      case Png => MultiPng.IDAT
      case PngMulti => MultiPng.IDAT
      case Swf => [0x43, 0x57, 0x53]
      case _ => []
    }

    /** Whether the last header byte is stored incremented, so that no zlib header shows in the PCF. */
    predicate IncLast() { Png? || PngMulti? || Swf? || RawZlib? }

    /** Streams that are not deflate, stored without a header. */
    predicate Foreign() { Jpg? || Bzip2? || Mp3? }

    /** The contents of PDF, PNG, JPG and MP3 streams are never searched again. */
    predicate Recurses() { Zip? || Gzip? || Swf? || Bzip2? || Brute? || RawZlib? }
  }

  function KindOf(c: Byte): (k: Option<Kind>) {
    match c
    case 0 => Some(Pdf)
    case 1 => Some(Zip)
    case 2 => Some(Gzip)
    case 3 => Some(Png)
    case 4 => Some(PngMulti)
    case 6 => Some(Jpg)
    case 7 => Some(Swf)
    case 9 => Some(Bzip2)
    case 10 => Some(Mp3)
    case 254 => Some(Brute)
    case 255 => Some(RawZlib)
    case _ => None
  }

  /** What the re-encoder is told: zlib's parameters, reconstruction data for deflate, or the options of the others. */
  datatype Params =
    | Perfect(level: nat, window: nat, mem: nat)
    | Recon(data: seq<Byte>)
    | Jpeg(motion: bool)
    | Mpeg
    | Bzip(blocks: Byte, penalty: seq<Byte>)
  {
    predicate Valid() { Perfect? ==> level < 16 && 8 <= window < 16 && mem < 16 }
    predicate Deflate() { Perfect? || Recon? }
  }

  /** Re-creates a stream from its contents; for bZip2 including the patching of penalty bytes. */
  type Reencoder = (Params, seq<Byte>) -> Option<seq<Byte>>

  /** `chunks` are the IDAT chunks of a multi-chunk PNG. */
  datatype Stream = Stream(kind: Kind, hdr: seq<Byte>, chunks: seq<MultiPng.Idat>, params: Params,
                           compressed: seq<Byte>, plain: seq<Byte>)
  {
    /** The bytes of the input that the stream stands for. */
    function Source(): seq<Byte> { kind.Magic() + hdr + Interleaved(chunks, compressed) }

    /** The parts are those of the kind. */
    predicate Shaped() {
      && params.Valid() && (kind.IncLast() ==> hdr != []) && (kind.Foreign() ==> hdr == [])
      && (kind.PngMulti? <==> chunks != []) && (chunks != [] ==> chunks[0].crc == 0)
      && (kind.Jpg? <==> params.Jpeg?) && (kind.Mp3? <==> params.Mpeg?) && (kind.Bzip2? <==> params.Bzip?)
    }

    /** Accepted: the re-encoder is exact, where only a prefix of a foreign stream need be right. */
    predicate Exact(re: Reencoder) {
      && Shaped() && plain != [] && compressed != []
      && match re(params, plain)
         case None => false
         case Some(c) => if kind.Foreign() then compressed <= c else compressed == c
    }
  }

  /** The compressed bytes cut into chunks, if there are any. */
  function Interleaved(chunks: seq<MultiPng.Idat>, c: seq<Byte>): (s: seq<Byte>) {
    if chunks == [] then c else MultiPng.Run(chunks, MultiPng.Cursor(0, chunks[0].len), c).out
  }

  /** An item of the container, and what was found inside it. */
  datatype Item = Raw(bytes: seq<Byte>) | Packed(stream: Stream) | Nested(stream: Stream, inner: seq<Item>)

  // ---- Writing

  /** A length, then that many bytes. */
  function Block(s: seq<Byte>): (b: seq<Byte>) { Vlint(|s|) + s }

  function Increment(hdr: seq<Byte>): (r: seq<Byte>)
    requires hdr != []
  {
    hdr[..|hdr| - 1] + [(hdr[|hdr| - 1] as int + 1) % 256]
  }

  function Decrement(hdr: seq<Byte>): (r: seq<Byte>)
    requires hdr != []
    ensures |r| == |hdr|
  {
    hdr[..|hdr| - 1] + [(hdr[|hdr| - 1] as int + 255) % 256]
  }

  lemma DecrementUndoes(hdr: seq<Byte>)
    requires hdr != []
    ensures Decrement(Increment(hdr)) == hdr && |Increment(hdr)| == |hdr|
  {
    var b := hdr[|hdr| - 1] as int;
    assert ((b + 1) % 256 + 255) % 256 == b;
    assert hdr == hdr[..|hdr| - 1] + [b];
  }

  /** The first byte of a stream; never 0, which marks uncompressed data. */
  function Flags(p: Params, recursed: bool): (b: Byte)
    requires p.Valid()
    ensures b > 0
  {
    1 + (if p.Perfect? then 4 * p.level else 2) + (if recursed then 128 else 0)
  }

  function Header(st: Stream, recursed: bool): (s: seq<Byte>)
    requires st.params.Valid() && (st.kind.IncLast() ==> st.hdr != [])
  {
    [Flags(st.params, recursed), st.kind.Code()]
    + (if st.params.Perfect? then [(st.params.window - 8) * 16 + st.params.mem] else [])
    + Block(if st.kind.IncLast() then Increment(st.hdr) else st.hdr)
  }

  function ReconData(st: Stream): (s: seq<Byte>) {
    (if st.params.Recon? then Block(st.params.data) else [])
    + Vlint(|st.compressed|) + Vlint(|st.plain|)
  }

  /** What stands before the contents of a stream. */
  function Lead(st: Stream, recursed: bool): (s: seq<Byte>)
    requires st.Shaped()
  {
    if st.kind.Foreign() then ForeignLead(st, recursed)
    else Header(st, recursed) + ChunkBytes(st.chunks) + ReconData(st)
  }

  function ChunkBytes(chunks: seq<MultiPng.Idat>): (s: seq<Byte>) {
    if chunks == [] then [] else MultiPng.Stored(chunks)
  }

  /** JPG, MP3 and bZip2: flags, kind, options, sizes. */
  function ForeignLead(st: Stream, recursed: bool): (s: seq<Byte>) {
    [ForeignFlags(st.params, recursed), st.kind.Code()] + Options(st.params)
    + Vlint(|st.compressed|) + Vlint(|st.plain|)
  }

  function ForeignFlags(p: Params, recursed: bool): (b: Byte)
    ensures b > 0
  {
    match p
    case Jpeg(motion) => if motion then 5 else 1
    case Bzip(_, penalty) => 1 + (if penalty != [] then 2 else 0) + (if recursed then 128 else 0)
    case _ => 1
  }

  function Options(p: Params): (s: seq<Byte>) {
    match p
    case Bzip(blocks, penalty) => [blocks] + (if penalty != [] then Block(penalty) else [])
    case _ => []
  }

  ghost predicate ValidItem(re: Reencoder, it: Item)
    decreases it, 0
  {
    match it
    case Raw(bytes) => bytes != []
    case Packed(st) => st.Exact(re)
    case Nested(st, inner) => st.Exact(re) && st.kind.Recurses() && ValidItems(re, inner) && Meaning(inner) == st.plain
  }

  ghost predicate ValidItems(re: Reencoder, items: seq<Item>)
    decreases items, 1
  {
    forall i :: 0 <= i < |items| ==> ValidItem(re, items[i])
  }

  /** The bytes of the input that an item stands for. */
  function Span(it: Item): (s: seq<Byte>) {
    if it.Raw? then it.bytes else it.stream.Source()
  }

  function Meaning(items: seq<Item>): (s: seq<Byte>) {
    if items == [] then [] else Span(items[0]) + Meaning(items[1..])
  }

  ghost function EncodeItem(re: Reencoder, it: Item): (s: seq<Byte>)
    requires ValidItem(re, it)
    decreases it, 0
  {
    match it
    case Raw(bytes) => [0] + Block(bytes)
    case Packed(st) => Lead(st, false) + st.plain
    case Nested(st, inner) => Lead(st, true) + Block(EncodeItems(re, inner))
  }

  ghost function EncodeItems(re: Reencoder, items: seq<Item>): (s: seq<Byte>)
    requires ValidItems(re, items)
    decreases items, 1
  {
    if items == [] then [] else EncodeItem(re, items[0]) + EncodeItems(re, items[1..])
  }

  // ---- Reading

  datatype Error = Truncated | UnsupportedStream | CannotRecompress

  datatype Result<+T> = Ok(value: T) | Fail(error: Error) {
    predicate IsFailure() { Fail? }
    function PropagateFailure<U>(): Result<U> requires Fail? { Fail(error) }
    function Extract(): T requires Ok? { value }
  }

  /** A value read and how many bytes it took. */
  datatype Got<+T> = Got(value: T, size: nat)

  function GetNumber(s: seq<Byte>): (r: Result<Got<nat>>)
    ensures r.Ok? ==> 1 <= r.value.size <= |s|
  {
    match Unvlint(s)
    case None => Fail(Truncated)
    case Some(n) => Ok(Got(n.value, n.size))
  }

  /** A length, then that many bytes. */
  function GetBlock(s: seq<Byte>): (r: Result<Got<seq<Byte>>>)
    ensures r.Ok? ==> 1 <= r.value.size <= |s| && |r.value.value| + 1 <= r.value.size
  {
    var n :- GetNumber(s);
    if |s| < n.size + n.value then Fail(Truncated) else Ok(Got(s[n.size..n.size + n.value], n.size + n.value))
  }

  datatype StreamHeader = StreamHeader(kind: Kind, hdr: seq<Byte>, params: Params, recursed: bool)

  /** The kind and the header; `params` lacks the reconstruction data.  BMP headers in PDF streams are not modelled. */
  function GetHeader(s: seq<Byte>): (r: Result<Got<StreamHeader>>)
    ensures r.Ok? ==> 1 <= r.value.size <= |s|
  {
    if |s| < 2 then Fail(Truncated)
    else
      match KindOf(s[1])
      case None => Fail(UnsupportedStream)
      case Some(kind) =>
        if kind.Pdf? && s[0] / 64 != 0 then Fail(UnsupportedStream) else
        var perfect := s[0] / 2 % 2 == 0;
        if perfect && |s| < 3 then Fail(Truncated)
        else
          var at := if perfect then 3 else 2;
          var params := if perfect then Perfect(s[0] / 4 % 16, s[2] / 16 % 8 + 8, s[2] % 16) else Recon([]);
          var hdr :- GetBlock(s[at..]);
          if kind.IncLast() && hdr.value == [] then Fail(Truncated)
          else
            var h := if kind.IncLast() then Decrement(hdr.value) else hdr.value;
            Ok(Got(StreamHeader(kind, h, params, s[0] / 128 == 1), at + hdr.size))
  }

  datatype Sizes = Sizes(params: Params, compressed: nat, plain: nat)

  function GetSizes(s: seq<Byte>, params: Params): (r: Result<Got<Sizes>>)
    ensures r.Ok? ==> 1 <= r.value.size <= |s|
  {
    var c :- GetNumber(s);
    var u :- GetNumber(s[c.size..]);
    Ok(Got(Sizes(params, c.value, u.value), c.size + u.size))
  }

  function GetReconData(s: seq<Byte>, p: Params): (r: Result<Got<Sizes>>)
    ensures r.Ok? ==> 1 <= r.value.size <= |s|
  {
    if p.Perfect? then GetSizes(s, p)
    else
      var data :- GetBlock(s);
      var sizes :- GetSizes(s[data.size..], Recon(data.value));
      Ok(Got(sizes.value, data.size + sizes.size))
  }

  /** All that is known of a stream before its contents. */
  datatype Known = Known(kind: Kind, hdr: seq<Byte>, chunks: seq<MultiPng.Idat>, sizes: Sizes, recursed: bool)

  function GetChunks(s: seq<Byte>, kind: Kind): (r: Result<Got<seq<MultiPng.Idat>>>)
    ensures r.Ok? ==> r.value.size <= |s|
  {
    if !kind.PngMulti? then Ok(Got([], 0))
    else match MultiPng.ReadStored(s)
      case None => Fail(Truncated)
      case Some(c) => Ok(Got(c.list, c.size))
  }

  function GetDeflate(s: seq<Byte>): (r: Result<Got<Known>>)
    ensures r.Ok? ==> 1 <= r.value.size <= |s|
  {
    var h :- GetHeader(s);
    var chunks :- GetChunks(s[h.size..], h.value.kind);
    var sizes :- GetReconData(s[h.size + chunks.size..], h.value.params);
    Ok(Got(Known(h.value.kind, h.value.hdr, chunks.value, sizes.value, h.value.recursed && h.value.kind.Recurses()),
           h.size + chunks.size + sizes.size))
  }

  function GetOptions(s: seq<Byte>, flags: Byte, kind: Kind): (r: Result<Got<Params>>)
    ensures r.Ok? ==> r.value.size <= |s|
  {
    match kind
    case Jpg => Ok(Got(Jpeg(flags / 4 % 2 == 1), 0))
    case Bzip2 =>
      if s == [] then Fail(Truncated)
      else if flags / 2 % 2 == 0 then Ok(Got(Bzip(s[0], []), 1))
      else
        var penalty :- GetBlock(s[1..]);
        Ok(Got(Bzip(s[0], penalty.value), 1 + penalty.size))
    case _ => Ok(Got(Mpeg, 0))
  }

  function GetForeign(s: seq<Byte>, kind: Kind): (r: Result<Got<Known>>)
    requires |s| >= 2
    ensures r.Ok? ==> 1 <= r.value.size <= |s|
  {
    var params :- GetOptions(s[2..], s[0], kind);
    var sizes :- GetSizes(s[2 + params.size..], params.value);
    Ok(Got(Known(kind, [], [], sizes.value, kind.Bzip2? && s[0] / 128 == 1), 2 + params.size + sizes.size))
  }

  /** Whether the stream at the front of s is one of the foreign ones. */
  function ForeignKind(s: seq<Byte>): (k: Option<Kind>)
    ensures k.Some? ==> |s| >= 2
  {
    if |s| >= 2 && KindOf(s[1]).Some? && KindOf(s[1]).value.Foreign() then KindOf(s[1]) else None
  }

  function GetLead(s: seq<Byte>): (r: Result<Got<Known>>)
    ensures r.Ok? ==> 1 <= r.value.size <= |s|
  {
    match ForeignKind(s)
    case Some(kind) => GetForeign(s, kind)
    case None => GetDeflate(s)
  }

  /** The first `size` bytes of `data`, re-encoded, with what surrounds them. */
  function Reconstruct(re: Reencoder, k: Known, data: seq<Byte>): (r: Result<seq<Byte>>) {
    if |data| < k.sizes.plain then Fail(Truncated)
    else match re(k.sizes.params, data[..k.sizes.plain])
      case None => Fail(CannotRecompress)
      case Some(c) =>
        if !k.kind.Foreign() then Ok(k.kind.Magic() + k.hdr + Interleaved(k.chunks, c))
        else if |c| < k.sizes.compressed then Fail(CannotRecompress)
        else Ok(k.kind.Magic() + k.hdr + c[..k.sizes.compressed])
  }

  /** One stream at the front of s. */
  function GetStream(re: Reencoder, s: seq<Byte>): (r: Result<Got<seq<Byte>>>)
    ensures r.Ok? ==> 1 <= r.value.size <= |s|
    decreases |s|, 0
  {
    var k :- GetLead(s);
    if k.value.recursed then
      var inner :- GetBlock(s[k.size..]);
      var plain :- Decompress(re, inner.value);
      var c :- Reconstruct(re, k.value, plain);
      Ok(Got(c, k.size + inner.size))
    else
      var c :- Reconstruct(re, k.value, s[k.size..]);
      Ok(Got(c, k.size + k.value.sizes.plain))
  }

  /** `decompress_file`: item by item, up to the end or an uncompressed run of length 0. */
  function Decompress(re: Reencoder, s: seq<Byte>): (r: Result<seq<Byte>>)
    decreases |s|, 1
  {
    if s == [] then Ok([])
    else if s[0] == 0 then
      var raw :- GetBlock(s[1..]);
      if raw.value == [] then Ok([])
      else
        var rest :- Decompress(re, s[1 + raw.size..]);
        Ok(raw.value + rest)
    else
      var got :- GetStream(re, s);
      var rest :- Decompress(re, s[got.size..]);
      Ok(got.value + rest)
  }

  // ---- Reading back what was written

  lemma NumberReadsBack(v: nat, rest: seq<Byte>)
    ensures GetNumber(Vlint(v) + rest) == Ok(Got(v, |Vlint(v)|))
  {
    VlintReadsBack(v, rest);
  }

  lemma BlockReadsBack(b: seq<Byte>, rest: seq<Byte>)
    ensures GetBlock(Block(b) + rest) == Ok(Got(b, |Block(b)|))
  {
    hide Vlint; hide GetNumber;
    var s := Block(b) + rest;
    assert s == Vlint(|b|) + (b + rest);
    NumberReadsBack(|b|, b + rest);
    assert s[|Vlint(|b|)|..|Block(b)|] == b;
  }

  lemma FlagsReadBack(p: Params, recursed: bool)
    requires p.Valid() && p.Deflate()
    ensures var f := Flags(p, recursed);
      && (f / 2 % 2 == 0 <==> p.Perfect?)
      && (p.Perfect? ==> f / 4 % 16 == p.level)
      && (f / 128 == 1 <==> recursed)
      && (!recursed ==> f / 64 == 0)
      && (p.Perfect? ==>
            var z := (p.window - 8) * 16 + p.mem;
            z / 16 % 8 + 8 == p.window && z % 16 == p.mem)
  {
  }

  lemma KindReadsBack(k: Kind)
    ensures KindOf(k.Code()) == Some(k)
  {
  }

  /** What `GetHeader` makes of the parameters. */
  function Bare(p: Params): Params { if p.Perfect? then p else Recon([]) }

  lemma HeaderReadsBack(st: Stream, recursed: bool, rest: seq<Byte>)
    requires st.Shaped() && !st.kind.Foreign() && (recursed ==> st.kind.Recurses())
    ensures GetHeader(Header(st, recursed) + rest)
         == Ok(Got(StreamHeader(st.kind, st.hdr, Bare(st.params), recursed), |Header(st, recursed)|))
  {
    hide GetBlock; hide Block; hide Increment; hide Decrement; hide Flags; hide KindOf; hide Kind.Code;
    var s := Header(st, recursed) + rest;
    var h := if st.kind.IncLast() then Increment(st.hdr) else st.hdr;
    var at := if st.params.Perfect? then 3 else 2;
    assert s[at..] == Block(h) + rest;
    BlockReadsBack(h, rest);
    FlagsReadBack(st.params, recursed);
    KindReadsBack(st.kind);
    if st.kind.IncLast() {
      DecrementUndoes(st.hdr);
    }
  }

  lemma ReconReadsBack(st: Stream, rest: seq<Byte>)
    requires st.params.Deflate()
    ensures GetReconData(ReconData(st) + rest, Bare(st.params))
         == Ok(Got(Sizes(st.params, |st.compressed|, |st.plain|), |ReconData(st)|))
  {
    hide GetBlock; hide Block; hide GetSizes; hide Vlint;
    var s := ReconData(st) + rest;
    var c, u := Vlint(|st.compressed|), Vlint(|st.plain|);
    SizesReadBack(st, rest);
    if st.params.Recon? {
      var d := Block(st.params.data);
      assert s == d + (c + u + rest);
      assert s[|d|..] == c + u + rest;
      BlockReadsBack(st.params.data, c + u + rest);
    } else {
      assert s == c + u + rest;
    }
  }

  lemma SizesReadBack(st: Stream, rest: seq<Byte>)
    ensures var c, u := Vlint(|st.compressed|), Vlint(|st.plain|);
      GetSizes(c + u + rest, st.params) == Ok(Got(Sizes(st.params, |st.compressed|, |st.plain|), |c| + |u|))
  {
    hide GetNumber; hide Vlint;
    var c, u := Vlint(|st.compressed|), Vlint(|st.plain|);
    assert c + u + rest == c + (u + rest);
    assert (c + u + rest)[|c|..] == u + rest;
    NumberReadsBack(|st.compressed|, u + rest);
    NumberReadsBack(|st.plain|, rest);
  }

  /** What `GetLead` makes of a stream. */
  function KnownOf(st: Stream, recursed: bool): (k: Known) {
    Known(st.kind, st.hdr, st.chunks, Sizes(st.params, |st.compressed|, |st.plain|), recursed)
  }

  lemma DeflateReadsBack(st: Stream, recursed: bool, rest: seq<Byte>)
    requires st.Shaped() && !st.kind.Foreign() && (recursed ==> st.kind.Recurses())
    ensures GetDeflate(Lead(st, recursed) + rest) == Ok(Got(KnownOf(st, recursed), |Lead(st, recursed)|))
  {
    hide GetHeader; hide GetReconData; hide Header; hide ReconData; hide MultiPng.Stored; hide MultiPng.ReadStored;
    var h, c, d := Header(st, recursed), ChunkBytes(st.chunks), ReconData(st);
    var s := Lead(st, recursed) + rest;
    assert s == h + (c + (d + rest));
    HeaderReadsBack(st, recursed, c + (d + rest));
    assert s[|h|..] == c + (d + rest) && s[|h| + |c|..] == d + rest;
    if st.kind.PngMulti? {
      MultiPng.StoredReadsBack(st.chunks, d + rest);
    }
    ReconReadsBack(st, rest);
  }

  lemma OptionsReadBack(st: Stream, recursed: bool, rest: seq<Byte>)
    requires st.Shaped() && st.kind.Foreign()
    ensures GetOptions(Options(st.params) + rest, ForeignFlags(st.params, recursed), st.kind)
         == Ok(Got(st.params, |Options(st.params)|))
  {
    hide Block; hide GetBlock;
    if st.kind.Bzip2? {
      var s := Options(st.params) + rest;
      if st.params.penalty != [] {
        assert s[1..] == Block(st.params.penalty) + rest;
        BlockReadsBack(st.params.penalty, rest);
      }
    }
  }

  lemma ForeignReadsBack(st: Stream, recursed: bool, rest: seq<Byte>)
    requires st.Shaped() && st.kind.Foreign() && (recursed ==> st.kind.Recurses())
    ensures GetForeign(ForeignLead(st, recursed) + rest, st.kind)
         == Ok(Got(KnownOf(st, recursed), |ForeignLead(st, recursed)|))
  {
    hide Options; hide GetOptions; hide GetSizes; hide Vlint;
    var f, o, z := ForeignFlags(st.params, recursed), Options(st.params), Vlint(|st.compressed|) + Vlint(|st.plain|);
    var s := ForeignLead(st, recursed) + rest;
    assert s == [f, st.kind.Code()] + (o + (z + rest));
    assert s[2..] == o + (z + rest) && s[2 + |o|..] == z + rest;
    OptionsReadBack(st, recursed, z + rest);
    SizesReadBack(st, rest);
    assert z + rest == Vlint(|st.compressed|) + Vlint(|st.plain|) + rest;
  }

  lemma LeadReadsBack(st: Stream, recursed: bool, rest: seq<Byte>)
    requires st.Shaped() && (recursed ==> st.kind.Recurses())
    ensures GetLead(Lead(st, recursed) + rest) == Ok(Got(KnownOf(st, recursed), |Lead(st, recursed)|))
  {
    hide GetDeflate; hide GetForeign; hide KindOf; hide ReconData; hide ChunkBytes; hide Options;
    KindReadsBack(st.kind);
    LeadStarts(st, recursed);
    var s := Lead(st, recursed) + rest;
    assert s[1] == st.kind.Code();
    if st.kind.Foreign() {
      ForeignReadsBack(st, recursed, rest);
    } else {
      DeflateReadsBack(st, recursed, rest);
    }
  }

  /** A stream starts with a byte that is not 0, and its kind. */
  lemma LeadStarts(st: Stream, recursed: bool)
    requires st.Shaped()
    ensures |Lead(st, recursed)| >= 2 && Lead(st, recursed)[0] != 0 && Lead(st, recursed)[1] == st.kind.Code()
  {
    hide Kind.Code; hide ReconData; hide ChunkBytes; hide Options; hide Block; hide Vlint;
  }

  lemma Reconstructed(re: Reencoder, st: Stream, recursed: bool, data: seq<Byte>)
    requires st.Exact(re) && st.plain <= data
    ensures Reconstruct(re, KnownOf(st, recursed), data) == Ok(st.Source())
  {
    hide Interleaved;
    assert data[..|st.plain|] == st.plain;
    if !st.kind.PngMulti? {
      NotInterleaved(st.compressed);
    }
    if st.kind.Foreign() {
      var c := re(st.params, st.plain).value;
      assert c[..|st.compressed|] == st.compressed;
    }
  }

  lemma NotInterleaved(c: seq<Byte>)
    ensures Interleaved([], c) == c
  {
  }

  /** A stream whose contents are stored as they are. */
  lemma PackedReadsBack(re: Reencoder, st: Stream, rest: seq<Byte>)
    requires st.Exact(re)
    ensures GetStream(re, Lead(st, false) + st.plain + rest) == Ok(Got(st.Source(), |Lead(st, false) + st.plain|))
  {
    hide GetLead; hide Lead; hide Reconstruct; hide Stream.Source;
    var h := Lead(st, false);
    var s := h + st.plain + rest;
    assert s == h + (st.plain + rest);
    LeadReadsBack(st, false, st.plain + rest);
    assert s[|h|..] == st.plain + rest;
    Reconstructed(re, st, false, st.plain + rest);
  }

  /** A stream whose contents are stored as the container e. */
  lemma NestedReadsBack(re: Reencoder, st: Stream, e: seq<Byte>, rest: seq<Byte>)
    requires st.Exact(re) && st.kind.Recurses() && Decompress(re, e) == Ok(st.plain)
    ensures GetStream(re, Lead(st, true) + Block(e) + rest) == Ok(Got(st.Source(), |Lead(st, true) + Block(e)|))
  {
    hide GetLead; hide Lead; hide Block; hide GetBlock; hide Decompress; hide Reconstruct; hide Stream.Source;
    var h := Lead(st, true);
    var s := h + Block(e) + rest;
    assert s == h + (Block(e) + rest);
    LeadReadsBack(st, true, Block(e) + rest);
    assert s[|h|..] == Block(e) + rest;
    BlockReadsBack(e, rest);
    Reconstructed(re, st, true, st.plain);
  }

  lemma RawStep(re: Reencoder, bytes: seq<Byte>, rest: seq<Byte>)
    requires bytes != [] && Decompress(re, rest).Ok?
    ensures Decompress(re, [0] + Block(bytes) + rest) == Ok(bytes + Decompress(re, rest).value)
  {
    hide Block; hide GetBlock; hide GetStream;
    var s := [0] + Block(bytes) + rest;
    assert s[1..] == Block(bytes) + rest;
    BlockReadsBack(bytes, rest);
    assert s[1 + |Block(bytes)|..] == rest;
  }

  lemma StreamStep(re: Reencoder, e: seq<Byte>, source: seq<Byte>, rest: seq<Byte>)
    requires e != [] && e[0] != 0 && GetStream(re, e + rest) == Ok(Got(source, |e|)) && Decompress(re, rest).Ok?
    ensures Decompress(re, e + rest) == Ok(source + Decompress(re, rest).value)
  {
    hide GetBlock; hide GetStream;
    assert (e + rest)[|e|..] == rest;
  }

  /** `decompress_file` undoes the container, at every depth. */
  lemma {:induction false} DecompressUndoes(re: Reencoder, items: seq<Item>)
    requires ValidItems(re, items)
    ensures Decompress(re, EncodeItems(re, items)) == Ok(Meaning(items))
    decreases items
  {
    hide GetStream; hide Lead; hide Block; hide Stream.Exact; hide Stream.Source;
    if items == [] {
      assert EncodeItems(re, items) == [];
    } else {
      hide Decompress;
      var it, rest := items[0], EncodeItems(re, items[1..]);
      DecompressUndoes(re, items[1..]);
      match it {
        case Raw(bytes) =>
          RawStep(re, bytes, rest);
        case Packed(st) =>
          FirstByte(re, st, false);
          PackedReadsBack(re, st, rest);
          StreamStep(re, EncodeItem(re, it), st.Source(), rest);
        case Nested(st, inner) =>
          FirstByte(re, st, true);
          DecompressUndoes(re, inner);
          NestedReadsBack(re, st, EncodeItems(re, inner), rest);
          StreamStep(re, EncodeItem(re, it), st.Source(), rest);
      }
    }
  }

  lemma FirstByte(re: Reencoder, st: Stream, recursed: bool)
    requires st.Exact(re)
    ensures Lead(st, recursed) != [] && Lead(st, recursed)[0] != 0
  {
    LeadStarts(st, recursed);
  }
}
