/**
 The `lazy2` post-processor as a register machine fed one byte at a time.  Whatever the
 bytes, it never holds more than 30 unread bits; on the bytes written by level 1 of
 `LZBuffer` it rebuilds the input exactly.
 */
module Lazy2 {
  import opened Arith
  import opened Bytes
  import opened Wrappers
  import opened Bits
  import opened Lz77
  import opened BitPackedLz
  import E8E9

  /** How many bits a state needs before it can move. */
  function Needs(rb: nat, d: Dec): nat {
    match d
    case Start(_) => 8
    case Length(_, _, _) => 3
    case LowBits(_, _, _) => rb
    case Offset(_, m, _, _) => m
    case RunLength(_, _) => 2
    case Run(_, _) => 8
  }

  /** If the bits at hand suffice, the machine may move without seeing the rest. */
  lemma StepIfEnough(rb: nat, d: Dec, q: Bits, more: Bits, target: seq<Byte>)
    requires Meaning(rb, d, q + more) == Some(target) && |q| >= Needs(rb, d)
    ensures Next(rb, d, q).Some?
    ensures var (d', q') := Next(rb, d, q).value; Meaning(rb, d', q' + more) == Some(target)
  {
    EnoughIsEnough(rb, d, q, more);
    MeaningOfNext(rb, d, q, more);
  }

  lemma EnoughIsEnough(rb: nat, d: Dec, q: Bits, more: Bits)
    requires |q| >= Needs(rb, d) && Next(rb, d, q + more).Some?
    ensures Next(rb, d, q).Some?
  {
    hide Val; hide Distance;
    if d.Offset? {
      assert (q + more)[..d.m] == q[..d.m];
    }
  }

  /** Only a machine waiting for a new code has understood everything when the bits run out. */
  lemma StuckMeansNothing(rb: nat, d: Dec, q: Bits)
    requires |q| < Needs(rb, d)
    ensures Meaning(rb, d, q) == if d.Start? then Some(d.buf) else None
  {
  }

  /** The first bits and the rest of an n-bit register. */
  lemma Peek(x: nat, n: nat, k: nat)
    requires k <= n && x < Pow2(n)
    ensures Val(Field(x, n)[..k]) == x % Pow2(k)
    ensures Field(x, n)[k..] == Field(Shr(x, k), n - k) && Shr(x, k) < Pow2(n - k)
  {
    SplitField(x, n, k);
    ValField(x, k);
    ShrBound(x, n, k);
  }

  lemma {:induction false} ShrBound(x: nat, n: nat, k: nat)
    requires k <= n && x < Pow2(n)
    ensures Shr(x, k) < Pow2(n - k)
    decreases k
  {
    if k > 0 {
      ShrBound(x / 2, n - 1, k - 1);
    }
  }

  lemma FirstBit(x: nat, n: nat)
    requires n > 0
    ensures Field(x, n)[0] == (x % 2 == 1)
  {
  }

  class Machine {
    const rb: nat
    const doe8: bool
    const m: array<Byte>  // M
    var state: nat        // r1
    var len: nat          // r2
    var mbits: nat        // r3
    var ptr: nat          // r4
    var r: nat            // r5
    var bits: nat         // c
    var n: nat            // d
    var out: seq<Byte>
    ghost var base: seq<Byte> // what was output before this segment

    constructor (rb: nat, doe8: bool, size: nat)
      requires rb <= 8 && size > 0
      ensures Valid() && Reset() && this.rb == rb && this.doe8 == doe8 && m.Length == size && fresh(m) && out == []
    {
      this.rb, this.doe8 := rb, doe8;
      m := new Byte[size];
      state, len, mbits, ptr, r, bits, n := 0, 0, 0, 0, 0, 0, 0;
      out, base := [], [];
    }

    ghost predicate Reset()
      reads this
    {
      state == 0 && ptr == 0 && n == 0 && bits == 0 && base == out
    }

    /** Holds between bytes, whatever was fed: at most 7 bits at a code boundary or inside literals, 22 elsewhere. */
    ghost predicate Valid()
      reads this
    {
      && Moving()
      && match state
         case 1 => n <= 2
         case 2 => n < mbits
         case 3 => n <= 1
         case 5 => n < rb
         case _ => n <= 7
    }

    /** Holds inside the program: the register c never holds more than 30 bits. */
    ghost predicate Moving()
      reads this
    {
      m.Length > 0 && rb <= 8 && state <= 5 && mbits <= 23 && n <= 30 && bits < Pow2(n)
    }

    ghost function Abs(): (d: Dec)
      requires ptr <= m.Length
      reads this, m
    {
      var buf := m[..ptr];
      match state
      case 0 => Start(buf)
      case 1 => Length(len, mbits, buf)
      case 2 => Offset(len, mbits, if rb > 0 then r else 0, buf)
      case 3 => RunLength(len, buf)
      case 4 => Run(len, buf)
      case _ => LowBits(len, mbits, buf)
    }

    /** With `more` bits still to come, everything read so far and later means `target`. */
    ghost predicate On(more: Bits, target: seq<Byte>)
      reads this, m
    {
      && ptr <= m.Length && |target| <= m.Length
      && Meaning(rb, Abs(), Field(bits, n) + more) == Some(target)
      && out == base + (if doe8 then [] else m[..ptr])
    }

    /** bits>>=k, n-=k */
    method Drop(k: nat)
      requires Moving() && k <= n
      modifies this`bits, this`n
      ensures Moving() && n == old(n) - k
      ensures Field(bits, n) == Field(old(bits), old(n))[k..]
    {
      hide Field; hide Shr; hide Pow2;
      Peek(bits, n, k);
      bits := Shr(bits, k);
      n := n - k;
    }

    /** bits&((1<<k)-1) */
    method Low(k: nat) returns (x: nat)
      requires Moving() && k <= n
      ensures x == Val(Field(bits, n)[..k]) && x < Pow2(k)
    {
      Peek(bits, n, k);
      x := bits % Pow2(k);
    }

    /** state 0: mm,mmm of a match, or the 00 of literals */
    method NewCode(ghost more: Bits, ghost target: seq<Byte>)
      requires Moving() && state == 0 && n >= 8
      modifies this`state, this`len, this`mbits, this`bits, this`n
      ensures Moving() && ((state == 1 && n == old(n) - 5) || (state == 3 && n == old(n) - 2))
      ensures old(On(more, target)) ==> On(more, target)
    {
      hide Val; hide Field; hide Shr; hide Meaning;
      ghost var q := Field(bits, n);
      if On(more, target) {
        StepIfEnough(rb, Abs(), q, more, target);
      }
      assert Pow2(2) == 4 && Pow2(3) == 8;
      len := 1;
      var mm := Low(2);
      Drop(2);
      if mm > 0 {
        assert q[2..][..3] == q[2..5] && q[2..][3..] == q[5..];
        var mmm := Low(3);
        mbits := (mm - 1) * 8 + mmm;
        Drop(3);
        state := 1;
      } else {
        state := 3;
      }
    }

    /** state 1: one round of the length loop */
    method LengthRound(ghost more: Bits, ghost target: seq<Byte>)
      requires Moving() && state == 1 && n > 2
      modifies this`state, this`len, this`bits, this`n
      ensures Moving()
      ensures (state == 1 && n == old(n) - 2) || (state == (if rb > 0 then 5 else 2) && n == old(n) - 3)
      ensures old(On(more, target)) ==> On(more, target)
    {
      hide Val; hide Field; hide Shr; hide Meaning; hide Wrap;
      ghost var q := Field(bits, n);
      if On(more, target) {
        StepIfEnough(rb, Abs(), q, more, target);
      }
      FirstBit(bits, n);
      if bits % 2 == 1 {
        Drop(1);
        FirstBit(bits, n);
        len := Wrap(2 * len + bits % 2);
        Drop(1);
        assert q[1..][1..] == q[2..];
      } else {
        Drop(1);
        assert Pow2(2) == 4;
        var ll := Low(2);
        len := Wrap(4 * len + ll);
        Drop(2);
        assert q[1..][..2] == q[1..3] && q[1..][2..] == q[3..];
        state := if rb > 0 then 5 else 2;
      }
    }

    /** state 5: the low bits of the offset */
    method LowOffset(ghost more: Bits, ghost target: seq<Byte>)
      requires Moving() && state == 5 && n >= rb
      modifies this`state, this`r, this`bits, this`n
      ensures Moving() && state == 2 && n == old(n) - rb
      ensures old(On(more, target)) && rb > 0 ==> On(more, target)
    {
      hide Val; hide Field; hide Shr; hide Meaning;
      if On(more, target) {
        StepIfEnough(rb, Abs(), Field(bits, n), more, target);
      }
      r := Low(rb);
      Drop(rb);
      state := 2;
    }

    /** state 2: the offset, and the copy */
    method CopyOut(ghost more: Bits, ghost target: seq<Byte>)
      requires Moving() && state == 2 && n >= mbits
      modifies this`state, this`ptr, this`bits, this`n, this`out, m
      ensures Moving() && state == 0 && n == old(n) - mbits
      ensures old(On(more, target)) ==> On(more, target)
    {
      hide Val; hide Field; hide Shr; hide Meaning; hide CopyMatch; hide Pow2;
      ghost var q := Field(bits, n);
      ghost var on := On(more, target);
      var x := Low(mbits);
      var off := Distance(rb, mbits, x, if rb > 0 then r else 0);
      ghost var buf := if ptr <= m.Length then m[..ptr] else [];
      if on {
        StepIfEnough(rb, Abs(), q, more, target);
        MeaningGrows(rb, Start(CopyMatch(buf, len, off)), q[mbits..] + more);
      }
      Copy(off, on);
      Drop(mbits);
      state := 0;
    }

    /** buf[ptr++]=a, output unless filtered later */
    method PutByte(a: Byte)
      requires m.Length > 0
      modifies this`ptr, this`out, m
      ensures ptr == old(ptr) + 1 && out == if doe8 then old(out) else old(out) + [a]
      ensures old(ptr) < m.Length ==> m[..ptr] == old(m[..ptr]) + [a]
    {
      if ptr < m.Length {
        Quotient(ptr, m.Length, 0, ptr);
      }
      m[ptr % m.Length] := a;
      if !doe8 { out := out + [a]; }
      ptr := ptr + 1;
    }

    /** while (len--) buf[ptr++]=buf[p++] */
    method Copy(off: int, ghost on: bool)
      requires m.Length > 0
      requires on ==> 1 <= off <= ptr && ptr + len <= m.Length && out == base + (if doe8 then [] else m[..ptr])
      modifies this`ptr, this`out, m
      ensures ptr == old(ptr) + len
      ensures on ==> m[..ptr] == CopyMatch(old(m[..ptr]), len, off)
      ensures on ==> out == base + (if doe8 then [] else m[..ptr])
    {
      hide CopyMatch;
      ghost var buf := if on then m[..ptr] else [];
      var p, k := ptr - off, len;
      while k > 0
        invariant 0 <= k <= len && ptr == old(ptr) + len - k && p == ptr - off
        invariant on ==> CopyMatch(m[..ptr], k, off) == CopyMatch(buf, len, off)
        invariant on ==> out == base + (if doe8 then [] else m[..ptr])
      {
        if on {
          Quotient(p, m.Length, 0, p);
          assert m[p] == m[..ptr][ptr - (off)];
          CopyMore(m[..ptr], k, off);
        }
        PutByte(m[p % m.Length]);
        p, k := p + 1, k - 1;
      }
      if on {
        CopyNone(m[..ptr], off);
      }
    }

    /** state 3: one round of the literal length loop */
    method RunLengthRound(ghost more: Bits, ghost target: seq<Byte>)
      requires Moving() && state == 3 && n > 1
      modifies this`state, this`len, this`bits, this`n
      ensures Moving() && ((state == 3 && n == old(n) - 2) || (state == 4 && n == old(n) - 1))
      ensures old(On(more, target)) ==> On(more, target)
    {
      hide Val; hide Field; hide Shr; hide Meaning; hide Wrap;
      ghost var q := Field(bits, n);
      if On(more, target) {
        StepIfEnough(rb, Abs(), q, more, target);
      }
      FirstBit(bits, n);
      if bits % 2 == 1 {
        Drop(1);
        FirstBit(bits, n);
        len := Wrap(2 * len + bits % 2);
        Drop(1);
        assert q[1..][1..] == q[2..];
      } else {
        Drop(1);
        state := 4;
      }
    }

    /** state 4: one literal */
    method Literal(ghost more: Bits, ghost target: seq<Byte>)
      requires Moving() && state == 4 && n > 7
      modifies this`state, this`len, this`ptr, this`bits, this`n, this`out, m
      ensures Moving() && (state == 4 || state == 0) && n == old(n) - 8
      ensures old(On(more, target)) ==> On(more, target)
    {
      hide Val; hide Field; hide Shr; hide Meaning; hide Wrap;
      ghost var q := Field(bits, n);
      ghost var on := On(more, target);
      ghost var before := if on then m[..ptr] else [];
      assert Pow2(8) == 256;
      var x := Low(8);
      if on {
        StepIfEnough(rb, Abs(), q, more, target);
        var d := Next(rb, Abs(), q).value.0;
        MeaningGrows(rb, d, q[8..] + more);
      }
      PutByte(x);
      assert on ==> m[..ptr] == before + [x];
      Drop(8);
      len := Wrap(len + U32MAX1 - 1);
      if len == 0 {
        state := 0;
      }
    }

    /** bits+=a<<n, n+=8 */
    method TakeByte(a: Byte, ghost more: Bits, ghost target: seq<Byte>)
      requires Valid()
      modifies this`bits, this`n
      ensures Moving() && n == old(n) + 8
      ensures old(On(Field(a, 8) + more, target)) ==> On(more, target)
    {
      hide Meaning; hide Field;
      hide Pow2;
      JoinFields(bits, n, a, 8);
      RoomForByte(bits, n, a);
      assert Field(bits, n) + (Field(a, 8) + more) == Field(bits, n) + Field(a, 8) + more;
      bits := bits + a * Pow2(n);
      n := n + 8;
    }

    /** States 0, 1, 5 and 2: a match code, as far as the bits go. */
    method MatchStates(ghost more: Bits, ghost target: seq<Byte>)
      requires Moving()
      requires match state
        case 0 => 8 <= n <= 15 case 1 => n <= 10 case 2 => n <= mbits + 7
        case 3 => n <= 9 case 4 => n <= 15 case _ => 0 < rb && n <= rb + 7
      modifies this`state, this`len, this`mbits, this`ptr, this`r, this`bits, this`n, this`out, m
      ensures Moving()
      ensures match state
        case 0 => n <= 7 case 1 => n <= 2 case 2 => n < mbits
        case 3 => n <= 13 case 4 => n <= 15 case _ => n < rb
      ensures old(On(more, target)) ==> On(more, target)
    {
      hide Field; hide Meaning;
      if state == 0 {
        NewCode(more, target);
      }
      while state == 1 && n > 2
        invariant Moving()
        invariant match state
          case 1 => n <= 10 case 2 => n <= mbits + 7
          case 3 => n <= 13 case 4 => n <= 15 case 5 => 0 < rb && n <= rb + 7 case _ => false
        invariant old(On(more, target)) ==> On(more, target)
        decreases n
      {
        LengthRound(more, target);
      }
      if state == 5 && n >= rb {
        LowOffset(more, target);
      }
      if state == 2 && n >= mbits {
        CopyOut(more, target);
      }
    }

    /** States 3 and 4: literals. */
    method LiteralStates(ghost more: Bits, ghost target: seq<Byte>)
      requires Moving()
      requires match state
        case 0 => n <= 7 case 1 => n <= 2 case 2 => n < mbits
        case 3 => n <= 13 case 4 => n <= 15 case _ => n < rb
      modifies this`state, this`len, this`ptr, this`bits, this`n, this`out, m
      ensures Valid()
      ensures old(On(more, target)) ==> On(more, target)
    {
      hide Field; hide Meaning;
      while state == 3 && n > 1
        invariant Moving()
        invariant match state
          case 0 => n <= 7 case 1 => n <= 2 case 2 => n < mbits
          case 3 => n <= 13 case 4 => n <= 15 case _ => n < rb
        invariant old(On(more, target)) ==> On(more, target)
        decreases n
      {
        RunLengthRound(more, target);
      }
      if state == 4 && n > 7 {
        Literal(more, target);
      }
    }

    /** One input byte. */
    method Feed(a: Byte, ghost more: Bits, ghost target: seq<Byte>)
      requires Valid()
      modifies this, m
      ensures Valid() && base == old(base)
      ensures old(On(Field(a, 8) + more, target)) ==> On(more, target)
    {
      hide Field; hide Meaning; hide Pow2;
      TakeByte(a, more, target);
      MatchStates(more, target);
      LiteralStates(more, target);
    }

    /** End of input: output the filtered buffer if there is a filter, and reset. */
    method Finish(ghost target: seq<Byte>)
      requires Valid() && (doe8 ==> ptr <= m.Length)
      modifies this, m
      ensures Valid() && Reset()
      ensures old(On([], target)) ==> out == old(base) + if doe8 then E8E9.Decode(target) else target
    {
      hide Field; hide Meaning; hide E8E9.Decode;
      ghost var on := On([], target);
      if on {
        StuckMeansNothing(rb, Abs(), Field(bits, n) + []);
      }
      assert on ==> state == 0 && target == m[..ptr];
      if doe8 {
        var filtered := E8E9.DecodeAndOutput(m, ptr);
        out := out + filtered;
      }
      state, len, mbits, ptr, bits, n := 0, 0, 0, 0, 0, 0;
      base := out;
    }
  }

  lemma RoomForByte(x: nat, n: nat, a: Byte)
    requires x < Pow2(n)
    ensures x + a * Pow2(n) < Pow2(n + 8)
  {
    PowAdd(n, 8);
    assert Pow2(8) == 256;
    var p := Pow2(n);
    assert a * p <= 255 * p;
  }

  /** What is read later only adds to the output. */
  lemma {:induction false} MeaningGrows(rb: nat, d: Dec, q: Bits)
    requires Meaning(rb, d, q).Some?
    ensures |d.buf| <= |Meaning(rb, d, q).value|
    decreases |q|, Rank(d)
  {
    if !(d.Start? && |q| < 8) {
      var (d', q') := Next(rb, d, q).value;
      MeaningGrows(rb, d', q');
    }
  }
}
