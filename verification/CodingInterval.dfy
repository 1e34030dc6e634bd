/**
 The carry-less binary arithmetic coder of ZPAQ level 2: `Encoder::encode` and
 `Decoder::decode` share a 32-bit interval [low, high].  This module holds the
 mathematics of the interval: what one coded bit does to it, which bytes it
 pushes out, and why the bytes still to come always fall inside it.
 */
module CodingInterval {
  import opened Arith
  import opened Bytes

  /** The coder's state between two shifts. */
  datatype Interval = Interval(low: int, high: int)
  {
    /** Holds inside the shifting loop. */
    predicate Live() { 0 < low <= high < 0x1_0000_0000 }

    /** Holds between two coded bits. */
    predicate Ready() { 0 < low < high < 0x1_0000_0000 && !SameLead() }

    /** `(high^low) < 0x1000000`: the leading bytes agree, see XorTestsLeadingByte. */
    predicate SameLead() { low / 0x100_0000 == high / 0x100_0000 }
  }

  /** A probability out of 65536, as taken by `encode` and `decode`. */
  type Prob = p: int | 0 <= p < 0x1_0000

  const FULL := Interval(1, 0xFFFF_FFFF)

  lemma XorTestsLeadingByte(low: bv32, high: bv32)
    ensures (high ^ low) < 0x100_0000 <==> high >> 24 == low >> 24
  {
  }

  /** Where the interval is cut: the bit 1 takes [low, mid], the bit 0 the rest. */
  function Mid(r: Interval, p: Prob): (mid: int)
    requires r.low < r.high
    ensures r.low <= mid < r.high
    ensures 0x1_0000 * (mid - r.low) <= (r.high - r.low) * p < 0x1_0000 * (mid - r.low + 1)
  {
    var d := r.high - r.low;
    assert 0 <= d * p <= d * 0xFFFF;
    r.low + d * p / 0x1_0000
  }

  /**
   `n` is the part of `r` that belongs to the bit `y` when a 1 has chance `p` out of 65536:
   the lower end of that share for a 1, all that is left of it for a 0.
   */
  ghost predicate Share(r: Interval, y: bool, p: Prob, n: Interval) {
    var width := (r.high - r.low) * p;
    if y then n.low == r.low && 0x1_0000 * (n.high - n.low) <= width < 0x1_0000 * (n.high - n.low + 1)
    else n.high == r.high && 0x1_0000 * (n.low - r.low - 1) <= width < 0x1_0000 * (n.low - r.low)
  }

  function Narrow(r: Interval, y: bool, p: Prob): (r': Interval)
    requires 0 < r.low < r.high < 0x1_0000_0000
    ensures r'.Live() && r.low <= r'.low && r'.high <= r.high
    ensures Share(r, y, p, r')
  {
    hide Mid;
    if y then Interval(r.low, Mid(r, p)) else Interval(Mid(r, p) + 1, r.high)
  }

  /** One pass of the loop that drops the common leading byte. */
  function Shift(r: Interval): (r': Interval)
    requires r.Live() && r.SameLead()
    ensures r'.Live() && r'.low < r'.high
    ensures r'.high - r'.low >= 256 * (r.high - r.low) + 254
  {
    var low := r.low % 0x100_0000 * 256;
    Interval(if low == 0 then 1 else low, r.high % 0x100_0000 * 256 + 255)
  }

  /** On the four bytes of a bound: the first is dropped, and low never becomes zero. */
  lemma ShiftOnBytes(r: Interval)
    requires r.Live() && r.SameLead()
    ensures WordBytes(Shift(r).high) == WordBytes(r.high)[1..] + [255]
    ensures WordBytes(r.low)[1..] == ZEROS[1..] ==> Shift(r).low == 1
    ensures WordBytes(r.low)[1..] != ZEROS[1..] ==> WordBytes(Shift(r).low) == WordBytes(r.low)[1..] + [0]
  {
    hide WordBytes;
    DropLead(r.low, 0);
    DropLead(r.high, 255);
    ZeroTail(r.low);
  }

  /** The low three bytes of a word. */
  lemma Tail(w: U32)
    ensures var t := WordBytes(w); w % 0x100_0000 == Append(Append(t[1], t[2]), t[3])
  {
    hide WordBytes;
    var t := WordBytes(w);
    Quotient(w, 0x100_0000, t[0], Append(Append(t[1], t[2]), t[3]));
  }

  lemma DropLead(w: U32, c: Byte)
    ensures WordBytes(w % 0x100_0000 * 256 + c) == WordBytes(w)[1..] + [c]
  {
    hide WordBytes;
    Tail(w);
    WordReadsBack(WordBytes(w)[1..] + [c]);
  }

  lemma ZeroTail(w: U32)
    ensures WordBytes(w)[1..] == ZEROS[1..] <==> w % 0x100_0000 == 0
  {
    hide WordBytes;
    Tail(w);
    var t := WordBytes(w);
    ZeroDigits(t[1], t[2], t[3]);
    assert t[1..] == [t[1], t[2], t[3]];
    assert ZEROS[1..] == [0, 0, 0];
  }

  lemma ZeroDigits(a: Byte, b: Byte, c: Byte)
    ensures Append(Append(a, b), c) == 0 <==> [a, b, c] == [0, 0, 0]
  {
    assert [a, b, c] == [0, 0, 0] <==> a == 0 && b == 0 && c == 0;
  }

  /** The bytes the loop writes. */
  function Shifted(r: Interval): (out: seq<Byte>)
    requires r.Live()
    decreases 0x1_0000_0000 - (r.high - r.low)
  {
    if r.SameLead() then [r.high / 0x100_0000] + Shifted(Shift(r)) else []
  }

  /** The interval in which the loop ends. */
  function Settle(r: Interval): (r': Interval)
    requires r.Live()
    ensures r'.Live() && !r'.SameLead() && r'.Ready()
    decreases 0x1_0000_0000 - (r.high - r.low)
  {
    if r.SameLead() then Settle(Shift(r)) else r
  }

  /** A coded bit shifts out at most four bytes: each shift widens the interval 256-fold. */
  lemma AtMostFourShifts(r: Interval)
    requires r.Live()
    ensures |Shifted(r)| <= 4
  {
    ShiftsLeft(r, 4);
  }

  /** Once the interval is this wide, at most `k` more shifts are possible. */
  lemma {:induction false} ShiftsLeft(r: Interval, k: nat)
    requires r.Live() && r.high - r.low >= Width(k)
    ensures |Shifted(r)| <= k
    decreases k
  {
    hide Shift;
    if r.SameLead() {
      assert r.high - r.low < 0x100_0000 by { LeadBounds(r); }
      ShiftsLeft(Shift(r), k - 1);
    }
  }

  function Width(k: nat): (w: nat)
    decreases 4 - k
  {
    if k >= 4 then 0 else 256 * Width(k + 1) + 254
  }

  lemma LeadBounds(r: Interval)
    requires r.Live() && r.SameLead()
    ensures r.high - r.low < 0x100_0000
  {
  }

  /** One shift of an interval that lies in the block led by the byte `b`. */
  lemma ShiftOutLead(r: Interval, b: Byte, t: int)
    requires r.Live() && 0 <= t < 0x100_0000
    requires b * 0x100_0000 <= r.low && r.high == b * 0x100_0000 + t
    ensures r.SameLead() && Shifted(r) == [b] + Shifted(Shift(r))
    ensures Shift(r).high == t * 256 + 255
    ensures Shift(r).low >= (r.low - b * 0x100_0000) * 256
  {
    hide Shifted;
    Quotient(r.low, 0x100_0000, b, r.low - b * 0x100_0000);
    Quotient(r.high, 0x100_0000, b, t);
    ShiftedOnce(r);
  }

  lemma ShiftedOnce(r: Interval)
    requires r.Live() && r.SameLead()
    ensures Shifted(r) == [r.high / 0x100_0000] + Shifted(Shift(r))
  {
    hide Shift;
  }

  /** A one-point interval is written out whole. */
  lemma PointIsWrittenWhole(w: int)
    requires 0 < w < 0x1_0000_0000
    ensures Shifted(Interval(w, w)) == WordBytes(w)
  {
    var s := WordBytes(w);
    var b3: int, b2: int, b1: int, b0: int := s[0], s[1], s[2], s[3];
    assert w == ((b3 * 256 + b2) * 256 + b1) * 256 + b0;
    var a := Shift(Interval(w, w));
    ShiftOutLead(Interval(w, w), s[0], (b2 * 256 + b1) * 256 + b0);
    ShiftOutLead(a, s[1], (b1 * 256 + b0) * 256 + 255);
    ShiftOutLead(Shift(a), s[2], (b0 * 256 + 255) * 256 + 255);
    ShiftOutLead(Shift(Shift(a)), s[3], 0xFF_FFFF);
    assert Shift(Shift(Shift(a))).high == 0xFFFF_FFFF;
    assert Shifted(Shift(Shift(Shift(a)))) == [];
    assert Shifted(Interval(w, w)) == [s[0], s[1], s[2], s[3]];
  }

  // ---- What the bytes still to be read must look like

  /** No four zero bytes in a row anywhere in `code`. */
  ghost predicate NoZeroWord(code: seq<Byte>) {
    forall i :: 0 <= i <= |code| - 4 ==> Word(code[i..]) != 0
  }

  /** The next four bytes of `code` form a number in the interval, and zero words are absent. */
  ghost predicate Inside(r: Interval, code: seq<Byte>) {
    |code| >= 4 && r.low <= Word(code) <= r.high && NoZeroWord(code)
  }

  /** Undoing one shift keeps the code inside. */
  lemma ShiftKeepsInside(r: Interval, code: seq<Byte>)
    requires r.Live() && r.SameLead()
    requires Inside(Shift(r), code)
    ensures Inside(r, [r.high / 0x100_0000] + code)
  {
    var c := [r.high / 0x100_0000] + code;
    var w := Append(Append(code[0], code[1]), code[2]);
    assert Word(code) / 256 == w;
    assert Word(c) == r.high / 0x100_0000 * 0x100_0000 + Word(code) / 256;
    assert r.low % 0x100_0000 <= Word(code) / 256 <= r.high % 0x100_0000;
    forall i | 0 <= i <= |c| - 4
      ensures Word(c[i..]) != 0
    {
      if i > 0 {
        assert c[i..] == code[i - 1..];
      } else {
        assert c[i..] == c;
      }
    }
  }

  lemma {:induction false} SettleKeepsInside(r: Interval, code: seq<Byte>)
    requires r.Live()
    requires Inside(Settle(r), code)
    ensures Inside(r, Shifted(r) + code)
    decreases 0x1_0000_0000 - (r.high - r.low)
  {
    hide Inside; hide Shift;
    if r.SameLead() {
      SettleKeepsInside(Shift(r), code);
      ShiftKeepsInside(r, Shifted(Shift(r)) + code);
      assert Shifted(r) + code == [r.high / 0x100_0000] + (Shifted(Shift(r)) + code);
    } else {
      assert Shifted(r) + code == code;
    }
  }
}
