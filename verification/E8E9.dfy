/**
 The E8E9 filter: x86 CALL and JMP operands are made absolute before compression,
 scanning backward over the whole buffer, and made relative again after it, scanning
 forward.  The patterns overlap: an operand rewritten at one place may hold the opcode or
 the closing byte of the pattern at another.
 */
module E8E9 {
  import opened Arith
  import opened Bytes

  /** `x & 254` */
  function Even(x: nat): nat { x % 256 / 2 * 2 }

  /** E8|E9 xx xx xx 00|FF at `i`. */
  predicate Hit(buf: seq<Byte>, i: nat)
    requires i + 4 < |buf|
  {
    Even(buf[i]) == 0xE8 && Even(buf[i + 4] as int + 1) == 0
  }

  function Operand(buf: seq<Byte>, i: nat): (v: nat)
    requires i + 4 < |buf|
    ensures v < 0x100_0000
  {
    buf[i + 1] + 256 * buf[i + 2] as int + 0x1_0000 * buf[i + 3] as int
  }

  /** Stores the low 24 bits of `v`, least significant byte first. */
  function SetOperand(buf: seq<Byte>, i: nat, v: nat): (r: seq<Byte>)
    requires i + 4 < |buf|
    ensures |r| == |buf|
    ensures forall k :: 0 <= k < |buf| && !(i < k < i + 4) ==> r[k] == buf[k]
  {
    buf[i + 1 := v % 256][i + 2 := v / 256 % 256][i + 3 := v / 0x1_0000 % 256]
  }

  function EncodeAt(buf: seq<Byte>, i: nat): (r: seq<Byte>)
    requires i + 4 < |buf|
    ensures |r| == |buf|
  {
    if Hit(buf, i) then SetOperand(buf, i, (Operand(buf, i) + i) % 0x1_0000_0000) else buf
  }

  function DecodeAt(buf: seq<Byte>, i: nat): (r: seq<Byte>)
    requires i + 4 < |buf|
    ensures |r| == |buf|
    ensures forall k :: 0 <= k < |buf| && !(i < k < i + 4) ==> r[k] == buf[k]
  {
    if Hit(buf, i) then SetOperand(buf, i, (Operand(buf, i) - i) % 0x1_0000_0000) else buf
  }

  /** The pattern: a CALL or JMP opcode, three bytes, and a byte that is 00 or FF. */
  lemma HitIsPattern(buf: seq<Byte>, i: nat)
    requires i + 4 < |buf|
    ensures Hit(buf, i) <==> (buf[i] == 0xE8 || buf[i] == 0xE9) && (buf[i + 4] == 0 || buf[i + 4] == 0xFF)
  {
  }

  /** At a pattern the three bytes, least significant first, grow by the position modulo 2^24; nothing else changes. */
  lemma EncodeAtAdds(buf: seq<Byte>, i: nat)
    requires i + 4 < |buf|
    ensures var r := EncodeAt(buf, i);
      && (forall k :: 0 <= k < |buf| && (!Hit(buf, i) || !(i < k < i + 4)) ==> r[k] == buf[k])
      && (Hit(buf, i) ==>
            r[i + 1] as int + 256 * r[i + 2] as int + 0x1_0000 * r[i + 3] as int ==
            (buf[i + 1] as int + 256 * buf[i + 2] as int + 0x1_0000 * buf[i + 3] as int + i) % 0x100_0000)
  {
    hide Hit; hide SetOperand;
    if Hit(buf, i) {
      var v := Operand(buf, i) + i;
      OperandOfSet(buf, i, v % 0x1_0000_0000);
      Low24(v);
    }
  }

  /** Positions k-1 down to 0. */
  function EncodeDown(buf: seq<Byte>, k: nat): (r: seq<Byte>)
    requires k == 0 || k + 3 < |buf|
    ensures |r| == |buf|
    decreases k
  {
    if k == 0 then buf else EncodeDown(EncodeAt(buf, k - 1), k - 1)
  }

  /** Positions 0 up to k-1. */
  function DecodeUp(buf: seq<Byte>, k: nat): (r: seq<Byte>)
    requires k == 0 || k + 3 < |buf|
    ensures |r| == |buf|
    decreases k
  {
    if k == 0 then buf else DecodeAt(DecodeUp(buf, k - 1), k - 1)
  }

  /** The number of positions at which a pattern fits. */
  function Places(n: nat): nat { if n < 4 then 0 else n - 4 }

  function Encode(buf: seq<Byte>): (r: seq<Byte>) { EncodeDown(buf, Places(|buf|)) }

  function Decode(buf: seq<Byte>): (r: seq<Byte>) { DecodeUp(buf, Places(|buf|)) }

  // ---- Decoding undoes encoding

  lemma OperandOfSet(buf: seq<Byte>, i: nat, v: nat)
    requires i + 4 < |buf|
    ensures Operand(SetOperand(buf, i, v), i) == v % 0x100_0000
  {
    var k, w := v / 0x100_0000, v % 0x100_0000;
    var a, b, c := w % 256, w / 256 % 256, w / 0x1_0000;
    assert w / 256 == b + 256 * c;
    assert v == k * 0x100_0000 + a + 256 * b + 0x1_0000 * c;
    Quotient(v, 256, k * 0x1_0000 + b + 256 * c, a);
    Quotient(v / 256, 256, k * 256 + c, b);
    Quotient(v, 0x1_0000, k * 256 + c, a + 256 * b);
    Quotient(v / 0x1_0000, 256, k, c);
  }

  lemma SetOperandTwice(buf: seq<Byte>, i: nat, v: nat, w: nat)
    requires i + 4 < |buf|
    ensures SetOperand(SetOperand(buf, i, v), i, w) == SetOperand(buf, i, w)
  {
    hide Operand;
  }

  lemma SetOwnOperand(buf: seq<Byte>, i: nat, v: nat)
    requires i + 4 < |buf| && v % 0x100_0000 == Operand(buf, i)
    ensures SetOperand(buf, i, v) == buf
  {
    var a: int, b: int, c: int := buf[i + 1], buf[i + 2], buf[i + 3];
    var k := v / 0x100_0000;
    assert v == k * 0x100_0000 + a + 256 * b + 0x1_0000 * c;
    Quotient(v, 256, k * 0x1_0000 + b + 256 * c, a);
    Quotient(v / 256, 256, k * 256 + c, b);
    Quotient(v, 0x1_0000, k * 256 + c, a + 256 * b);
    Quotient(v / 0x1_0000, 256, k, c);
  }

  /** One place: adding `i` and subtracting it, modulo 2^32, agree modulo 2^24. */
  lemma DecodeAtUndoes(buf: seq<Byte>, i: nat)
    requires i + 4 < |buf|
    ensures DecodeAt(EncodeAt(buf, i), i) == buf
  {
    hide Operand; hide SetOperand; hide Even;
    if Hit(buf, i) {
      var v := (Operand(buf, i) + i) % 0x1_0000_0000;
      var e := SetOperand(buf, i, v);
      assert Hit(e, i);
      OperandOfSet(buf, i, v);
      var w := (v % 0x100_0000 - i) % 0x1_0000_0000;
      SetOperandTwice(buf, i, v, w);
      Mod24(Operand(buf, i), i);
      SetOwnOperand(buf, i, w);
    }
  }

  lemma Mod24(x: nat, i: nat)
    requires x < 0x100_0000
    ensures ((x + i) % 0x1_0000_0000 % 0x100_0000 - i) % 0x1_0000_0000 % 0x100_0000 == x
  {
    var s := x + i;
    Low24(s);
    var k := s / 0x100_0000;
    var t := s % 0x100_0000 - i;
    assert t == x - k * 0x100_0000;
    Low24(t);
    Quotient(t, 0x100_0000, -k, x);
  }

  /** Wrapping to 32 bits keeps the low 24. */
  lemma Low24(s: int)
    ensures s % 0x1_0000_0000 % 0x100_0000 == s % 0x100_0000
  {
    var r := s % 0x1_0000_0000;
    var q := s / 0x1_0000_0000 * 256 + r / 0x100_0000;
    assert s == q * 0x100_0000 + r % 0x100_0000;
    Quotient(s, 0x100_0000, q, r % 0x100_0000);
  }

  lemma {:induction false} DecodeUndoesDown(buf: seq<Byte>, k: nat)
    requires k == 0 || k + 3 < |buf|
    ensures DecodeUp(EncodeDown(buf, k), k) == buf
    decreases k
  {
    hide EncodeAt; hide DecodeAt;
    if k > 0 {
      DecodeUndoesDown(EncodeAt(buf, k - 1), k - 1);
      DecodeAtUndoes(buf, k - 1);
    }
  }

  /** The filter is undone on every buffer, whatever patterns overlap, and on short ones too. */
  lemma RoundTrip(buf: seq<Byte>)
    ensures Decode(Encode(buf)) == buf
  {
    DecodeUndoesDown(buf, Places(|buf|));
  }

  // ---- In place

  /** `e8e9(buf, n)` */
  method EncodeInPlace(buf: array<Byte>)
    modifies buf
    ensures buf[..] == Encode(old(buf[..]))
  {
    hide EncodeAt;
    ghost var was := buf[..];
    var i := buf.Length - 5;
    while i >= 0
      invariant -1 <= i || buf.Length < 5
      invariant i < 0 || i + 4 < buf.Length
      invariant EncodeDown(buf[..], if i < 0 then 0 else i + 1) == Encode(was)
    {
      EncodeHere(buf, i);
      i := i - 1;
    }
  }

  method EncodeHere(buf: array<Byte>, i: nat)
    requires i + 4 < buf.Length
    modifies buf
    ensures buf[..] == EncodeAt(old(buf[..]), i)
  {
    if Even(buf[i]) == 0xE8 && Even(buf[i + 4] as int + 1) == 0 {
      var b1: int, b2: int, b3: int := buf[i + 1], buf[i + 2], buf[i + 3];
      var a := (b1 + 256 * b2 + 0x1_0000 * b3 + i) % 0x1_0000_0000;
      buf[i + 1] := a % 256;
      buf[i + 2] := a / 256 % 256;
      buf[i + 3] := a / 0x1_0000 % 256;
    }
  }

  method DecodeHere(buf: array<Byte>, i: nat, n: nat)
    requires i + 4 < n <= buf.Length
    modifies buf
    ensures buf[..n] == DecodeAt(old(buf[..n]), i)
  {
    if Even(buf[i]) == 0xE8 && Even(buf[i + 4] as int + 1) == 0 {
      var b1: int, b2: int, b3: int := buf[i + 1], buf[i + 2], buf[i + 3];
      var a := (b1 + 256 * b2 + 0x1_0000 * b3 - (i + 1) + 1) % 0x1_0000_0000;
      buf[i + 1] := a % 256;
      buf[i + 2] := a / 256 % 256;
      buf[i + 3] := a / 0x1_0000 % 256;
    }
  }

  /** What lies before position `k` is final once the positions before `k` are decoded. */
  lemma {:induction false} PrefixIsFinal(buf: seq<Byte>, k: nat, j: nat)
    requires k <= j && (j == 0 || j + 3 < |buf|)
    ensures DecodeUp(buf, j)[..k] == DecodeUp(buf, k)[..k]
    decreases j
  {
    hide DecodeAt;
    if k < j {
      PrefixIsFinal(buf, k, j - 1);
    }
  }

  /** The loop the post-processors run at the end of the input: decode each place, output its byte. */
  method DecodeAndOutput(buf: array<Byte>, n: nat) returns (out: seq<Byte>)
    requires n <= buf.Length
    modifies buf
    ensures out == Decode(old(buf[..n]))
  {
    hide DecodeAt;
    ghost var was := buf[..n];
    out := [];
    var b := 0;
    while b < n
      invariant 0 <= b <= n
      invariant buf[..n] == DecodeUp(was, Least(b, Places(n)))
      invariant out == buf[..b]
    {
      ghost var before := buf[..n];
      if b + 4 < n {
        DecodeHere(buf, b, n);
        assert before[..b] == buf[..n][..b];
      }
      assert buf[..n][..b] == buf[..b];
      out := out + [buf[b]];
      b := b + 1;
    }
    assert buf[..n] == Decode(was);
  }

  function Least(a: nat, b: nat): nat { if a < b then a else b }

  // ---- One byte at a time

  /** Four bytes, the oldest in the low bits. */
  function Window(s: seq<Byte>): (w: U32)
    requires |s| == 4
  {
    s[0] as int + 256 * s[1] as int + 0x1_0000 * s[2] as int + 0x100_0000 * s[3] as int
  }

  /** The last four bytes of `s`, as if zeros had preceded it. */
  function Last4(s: seq<Byte>): (r: seq<Byte>)
    ensures |r| == 4
  {
    (ZEROS + s)[|s|..]
  }

  lemma WindowSlides(s: seq<Byte>, a: Byte)
    requires |s| == 4
    ensures Window(s) % 256 == s[0]
    ensures Window(s[1..] + [a]) == a * 0x100_0000 + Window(s) / 256
  {
    var b: int, c: int, d: int := s[1], s[2], s[3];
    Quotient(Window(s), 256, b + 256 * c + 0x1_0000 * d, s[0]);
  }

  lemma {:induction false} DecodeUpExtends(x: seq<Byte>, a: Byte, k: nat)
    requires k == 0 || k + 3 < |x|
    ensures DecodeUp(x + [a], k) == DecodeUp(x, k) + [a]
    decreases k
  {
    if k > 0 {
      DecodeUpExtends(x, a, k - 1);
      DecodeAtExtends(DecodeUp(x, k - 1), a, k - 1);
    }
  }

  lemma DecodeAtExtends(x: seq<Byte>, a: Byte, i: nat)
    requires i + 4 < |x|
    ensures DecodeAt(x + [a], i) == DecodeAt(x, i) + [a]
  {
    hide Even;
  }

  /** Decoding one more byte touches only the window. */
  lemma DecodeNext(x: seq<Byte>, a: Byte)
    ensures Decode(x + [a]) == if |x| < 4 then Decode(x) + [a] else DecodeAt(Decode(x) + [a], |x| - 4)
  {
    DecodeUpExtends(x, a, Places(|x|));
  }

  /** The word the machine computes at a hit is the window after decoding. */
  lemma HitWindow(p: seq<Byte>, i: nat)
    requires i + 5 == |p| && Hit(p, i)
    ensures Window(DecodeAt(p, i)[i + 1..])
         == (Window(p[i + 1..]) - i) % 0x100_0000 + p[i + 4] as int * 0x100_0000
  {
    hide Even;
    var v := (Operand(p, i) - i) % 0x1_0000_0000;
    OperandOfSet(p, i, v);
    Low24(Operand(p, i) - i);
    var w := Window(p[i + 1..]) - i;
    var a: int, o := p[i + 4], Operand(p, i) - i;
    assert w == o + a * 0x100_0000;
    Quotient(w, 0x100_0000, o / 0x100_0000 + a, o % 0x100_0000);
    var e := DecodeAt(p, i);
    assert Window(e[i + 1..]) == Operand(e, i) + e[i + 4] as int * 0x100_0000;
  }

  /** A pattern that starts with the low byte of w and ends with the high byte of next. */
  predicate Matches(w: U32, next: U32) {
    Even(w) == 0xE8 && Even(next / 0x100_0000 + 1) == 0
  }

  /** The window w with the byte a shifted in. */
  function Slid(w: U32, a: Byte): (r: U32) { a * 0x100_0000 + w / 256 }

  /** The window with its low three bytes reduced by i. */
  function Reduced(w: U32, i: nat): (r: U32) { (w - i) % 0x100_0000 + w / 0x100_0000 * 0x100_0000 }

  /** What one more byte does to the window and to the bytes before it. */
  lemma NextWindow(x: seq<Byte>, a: Byte, w: U32)
    requires w == Window(Last4(Decode(x)))
    ensures |x| < 4 ==> Window(Last4(Decode(x + [a]))) == Slid(w, a)
    ensures |x| >= 4 ==> Window(Last4(Decode(x + [a])))
                         == if Matches(w, Slid(w, a)) then Reduced(Slid(w, a), |x| - 4) else Slid(w, a)
    ensures |Decode(x)| == |x| && |Decode(x + [a])| == |x| + 1
    ensures |x| >= 4 ==> Decode(x + [a])[..|x| - 3] == Decode(x)[..|x| - 4] + [w % 256]
  {
    hide Even; hide DecodeAt; hide Window; hide Decode;
    var p, last := Decode(x), Last4(Decode(x));
    DecodeLength(x);
    DecodeLength(x + [a]);
    DecodeNext(x, a);
    WindowSlides(last, a);
    assert last[1..] + [a] == Last4(p + [a]);
    TopByte(last[1..] + [a]);
    if |x| >= 4 {
      var i := |x| - 4;
      assert last == p[i..] && last[0] == p[i] == (p + [a])[i];
      assert Last4(p + [a]) == (p + [a])[i + 1..];
      KeepsPrefix(p + [a], i);
      assert p[..i] + [p[i]] == (p + [a])[..i + 1];
      HitMeans(p + [a], i);
      EvenLow(w);
      if Hit(p + [a], i) {
        HitWindow(p + [a], i);
        assert Last4(Decode(x + [a])) == Decode(x + [a])[i + 1..];
      }
    }
  }

  /** `& 254` looks at the low byte only. */
  lemma EvenLow(x: nat)
    ensures Even(x) == Even(x % 256)
  {
  }

  /** The bytes of the window that belong to x follow those that are out. */
  lemma LastBytes(x: seq<Byte>, base: seq<Byte>)
    ensures var p, k := Decode(x), if |x| > 4 then 0 else 4 - |x|;
      |p| == |x| && base + p[..Places(|x|)] + Last4(p)[k..] == base + p
  {
    hide Decode; hide Last4;
    DecodeLength(x);
    var p, n := Decode(x), Places(|x|);
    LastOf(p);
    assert base + p[..n] + p[n..] == base + (p[..n] + p[n..]) && p[..n] + p[n..] == p;
  }

  lemma LastOf(p: seq<Byte>)
    ensures Last4(p)[if |p| > 4 then 0 else 4 - |p|..] == p[Places(|p|)..]
  {
    if |p| > 4 {
      assert (ZEROS + p)[|p|..] == p[|p| - 4..];
    } else {
      assert (ZEROS + p)[|p|..][4 - |p|..] == (ZEROS + p)[4..] == p;
    }
  }

  /** The `e8e9` post-processor: b holds the last four bytes, c counts bytes. */
  class Stream {
    var b: U32
    var c: nat
    var out: seq<Byte>

    /** The machine has read `x` (since the last end of input, having written `base` before). */
    ghost predicate Read(x: seq<Byte>, base: seq<Byte>)
      reads this
    {
      c == |x| && b == Window(Last4(Decode(x))) && out == base + Decode(x)[..Places(|x|)]
    }

    constructor ()
      ensures Read([], [])
    {
      b, c, out := 0, 0, [];
    }

    method Feed(a: Byte, ghost x: seq<Byte>, ghost base: seq<Byte>)
      requires Read(x, base)
      modifies this
      ensures Read(x + [a], base)
    {
      hide Even; hide Window; hide Decode; hide Last4;
      NextWindow(x, a, b);
      ghost var w := b;
      var oldest := b % 256;              // *b=b, M having a single cell
      b := a * 0x100_0000 + b / 256;
      c := c + 1;
      if c > 4 {
        out := out + [oldest];
        EvenLow(w);
        if Even(oldest) == 0xE8 && Even(b / 0x100_0000 + 1) == 0 {
          b := (b - c + 5) % 0x100_0000 + b / 0x100_0000 * 0x100_0000;
        }
      }
    }

    /** `do a=c a> 0 if a=b out a>>= 8 b=a c-- forever`: the top `c` bytes of the window `w`. */
    method Flush(ghost w: seq<Byte>)
      requires |w| == 4 && c <= 4 && b == Drop(Window(w), 4 - c)
      modifies this
      ensures out == old(out) + w[4 - old(c)..] && c == 0 && b == 0
    {
      hide Drop; hide Window;
      ghost var k, before := 4 - c, out;
      while c > 0
        invariant 0 <= c <= 4 - k
        invariant b == Drop(Window(w), 4 - c)
        invariant out == before + w[k..4 - c]
      {
        DropOne(w, 4 - c);
        out := out + [b % 256];
        b := b / 256;
        assert w[k..4 - c] + [w[4 - c]] == w[k..4 - c + 1];
        c := c - 1;
      }
      assert w[k..4] == w[k..];
      Emptied(w);
    }

    /** End of input: flush the window, and be ready for the next segment. */
    method Finish(ghost x: seq<Byte>, ghost base: seq<Byte>)
      requires Read(x, base)
      modifies this
      ensures out == base + Decode(x)
      ensures Read([], out)
    {
      hide Decode; hide Window; hide Drop; hide Last4;
      LastBytes(x, base);
      DropNone(b);
      ghost var w := Last4(Decode(x));
      if c > 4 {
        c := 4;
      } else {
        b := Drop(b, 4 - c);
      }
      Flush(w);
      NothingDecoded();
    }
  }

  /**
   The filter written out inside `bwtrle`: R4 holds the last four bytes, R5 the R4 before
   the last byte came in, c counts the bytes before it.
   */
  class RegisterWindow {
    var r4: U32
    var r5: U32
    var c: nat
    var out: seq<Byte>

    /** The program has taken `x`, having written `base` before. */
    ghost predicate Read(x: seq<Byte>, base: seq<Byte>)
      reads this`r4, this`c, this`out
    {
      c == |x| && r4 == Window(Last4(Decode(x))) && out == base + Decode(x)[..Places(|x|)]
    }

    constructor (out: seq<Byte>)
      ensures Read([], out)
    {
      r4, r5, c, this.out := 0, 0, 0, out;
    }

    /** One byte from the list: shift it into R4, undo a pattern in R4:R5, output the byte shifted out. */
    method Take(a: Byte, ghost x: seq<Byte>, ghost base: seq<Byte>)
      requires Read(x, base)
      modifies this
      ensures Read(x + [a], base)
    {
      hide Even; hide Window; hide Decode; hide Last4;
      NextWindow(x, a, r4);
      r5 := r4;
      r4 := a * 0x100_0000 + r4 / 256;
      if c > 3 {
        if Even(r5) == 0xE8 {
          var top := r4 / 0x100_0000;
          EvenIsEven(top + 1);
          if Even(top + 1) < 2 {
            r4 := (r4 - c + 4) % 0x100_0000 + top * 0x100_0000;
          }
        }
      }
      if c > 3 {
        out := out + [r5 % 256];
      }
      c := c + 1;
    }

    /** The four conditional outs at the end. */
    method Flush(ghost x: seq<Byte>, ghost base: seq<Byte>)
      requires Read(x, base)
      modifies this`out
      ensures out == base + Decode(x)
    {
      hide Decode; hide Window; hide Drop; hide Last4;
      ghost var w := Last4(Decode(x));
      LastBytes(x, base);
      WindowBytes(w);
      var b := r4;
      if c > 3 { out := out + [b % 256]; }
      b := b / 256;
      if c > 2 { out := out + [b % 256]; }
      b := b / 256;
      if c > 1 { out := out + [b % 256]; }
      b := b / 256;
      if c > 0 { out := out + [b % 256]; }
      TailOf(w, if c > 4 then 0 else 4 - c, old(out), out);
    }
  }

  /** The four bytes of a window, by shifting. */
  lemma WindowBytes(w: seq<Byte>)
    requires |w| == 4
    ensures var b := Window(w);
      && b % 256 == w[0] && b / 256 % 256 == w[1]
      && b / 256 / 256 % 256 == w[2] && b / 256 / 256 / 256 % 256 == w[3]
  {
    hide Window; hide Drop;
    DropNone(Window(w));
    DropOne(w, 0);
    DropOne(w, 1);
    DropOne(w, 2);
    DropOne(w, 3);
  }

  lemma TailOf(w: seq<Byte>, k: nat, before: seq<Byte>, out: seq<Byte>)
    requires |w| == 4 && k <= 4
    requires out == before + (if k < 1 then [w[0]] else []) + (if k < 2 then [w[1]] else [])
                    + (if k < 3 then [w[2]] else []) + (if k < 4 then [w[3]] else [])
    ensures out == before + w[k..]
  {
  }

  lemma EvenIsEven(x: nat)
    ensures Even(x) < 2 <==> Even(x) == 0
  {
  }

  /** `b >> 8k` */
  function Drop(b: U32, k: nat): (r: U32)
    decreases k
  {
    if k == 0 then b else Drop(b, k - 1) / 256
  }

  lemma DropNone(b: U32)
    ensures Drop(b, 0) == b
  {
  }

  lemma DropOne(w: seq<Byte>, k: nat)
    requires |w| == 4 && k < 4
    ensures Drop(Window(w), k) % 256 == w[k]
    ensures Drop(Window(w), k) / 256 == Drop(Window(w), k + 1)
  {
    var a: int, b: int, c: int, d: int := w[0], w[1], w[2], w[3];
    Quotient(Window(w), 256, b + 256 * c + 0x1_0000 * d, a);
    Quotient(b + 256 * c + 0x1_0000 * d, 256, c + 256 * d, b);
    Quotient(c + 256 * d, 256, d, c);
    assert Drop(Window(w), 1) == b + 256 * c + 0x1_0000 * d;
    assert Drop(Window(w), 2) == c + 256 * d;
    assert Drop(Window(w), 3) == d;
  }

  lemma Emptied(w: seq<Byte>)
    requires |w| == 4
    ensures Drop(Window(w), 4) == 0
  {
    DropOne(w, 3);
    assert Drop(Window(w), 3) == w[3] by { DropOne(w, 0); DropOne(w, 1); DropOne(w, 2); }
  }

  lemma NothingDecoded()
    ensures Decode([]) == [] && Window(Last4(Decode([]))) == 0
  {
  }

  lemma DecodeLength(x: seq<Byte>)
    ensures |Decode(x)| == |x|
  {
  }

  lemma TopByte(s: seq<Byte>)
    requires |s| == 4
    ensures Window(s) / 0x100_0000 == s[3]
  {
    Quotient(Window(s), 0x100_0000, s[3], s[0] as int + 256 * s[1] as int + 0x1_0000 * s[2] as int);
  }

  lemma KeepsPrefix(p: seq<Byte>, i: nat)
    requires i + 4 < |p|
    ensures DecodeAt(p, i)[..i + 1] == p[..i + 1]
  {
  }

  lemma HitMeans(p: seq<Byte>, i: nat)
    requires i + 4 < |p|
    ensures Hit(p, i) <==> Even(p[i]) == 0xE8 && Even(p[i + 4] as int + 1) == 0
    ensures !Hit(p, i) ==> DecodeAt(p, i) == p
  {
  }

  /** Filtering a buffer and streaming it back: the original bytes, for every length. */
  method FilterAndStream(data: seq<Byte>) returns (out: seq<Byte>)
    ensures out == data
  {
    hide Encode; hide Decode; hide Window;
    var buf := new Byte[|data|](i requires 0 <= i < |data| => data[i]);
    assert buf[..] == data;
    EncodeInPlace(buf);
    var m := new Stream();
    assert buf[..0] == [];
    for i := 0 to buf.Length
      invariant m.Read(buf[..i], []) && fresh(m) && buf[..] == Encode(data)
    {
      m.Feed(buf[i], buf[..i], []);
      assert buf[..i] + [buf[i]] == buf[..i + 1];
    }
    assert buf[..buf.Length] == buf[..];
    m.Finish(buf[..], []);
    RoundTrip(data);
    out := m.out;
  }
}
