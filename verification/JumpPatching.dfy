/**
 `Compiler::compile_comp`: the one-pass compiler of structured ZPAQL.  IF/ELSE/ENDIF and
 DO/WHILE/UNTIL/FOREVER are matched on two separate stacks, so the two kinds of structure
 need not nest in each other; forward jumps are patched when their target is reached.

 The stacks hold 16-bit addresses into `header`, while a program may end at 65665.  Jumps
 are right as long as the addresses saved fit in 16 bits, and a loop is right only then.
 */
module JumpPatching {
  import opened Bytes

  const JT: Byte := 39
  const JF: Byte := 47
  const JMP: Byte := 63
  const LJ: Byte := 255

  datatype Token =
    | If | IfNot | Ifl | IfNotl | Else | Elsel | Endif
    | Do | While | Until | Forever
    | Plain(op: Byte, args: seq<Byte>)

  datatype Error = Unmatched | NestedTooDeep | IfTooBig | ProgramTooBig | BadOperand | OutOfBounds

  datatype Result<+T> = Ok(value: T) | Fail(error: Error) {
    predicate IsFailure() { Fail? }
    function PropagateFailure<U>(): Result<U> requires Fail? { Fail(error) }
    function Extract(): T requires Ok? { value }
  }

  /** Everything before `base` is the COMP section and a guard; the program starts at `base`. */
  datatype State = State(header: seq<Byte>, ifs: seq<nat>, dos: seq<nat>)

  /** Number of bytes of the instruction with this opcode. */
  function Len(op: Byte): (n: nat) { if op == 255 then 3 else if op % 8 == 7 then 2 else 1 }

  function Push(stack: seq<nat>, x: nat): (r: Result<seq<nat>>) {
    if |stack| >= 1000 then Fail(NestedTooDeep) else Ok(stack + [x % 0x1_0000])
  }

  function Top(stack: seq<nat>): (r: Result<nat>) {
    if stack == [] then Fail(Unmatched) else Ok(stack[|stack| - 1])
  }

  function Pop(stack: seq<nat>): (r: seq<nat>)
    requires stack != []
  {
    stack[..|stack| - 1]
  }

  /**
   Stores the jump distance or address of the jump whose operand is at `a`.  Only a wrapped
   address can be 0, where the original reads before the header.
   */
  function Patch(h: seq<Byte>, base: nat, a: nat, target: nat): (r: Result<seq<Byte>>)
    requires base <= |h| <= target
    ensures r.Ok? ==> |r.value| == |h| && forall x :: 0 <= x < |h| && x != a && x != a + 1 ==> r.value[x] == h[x]
  {
    if a == 0 || a >= |h| || (h[a - 1] == LJ && a + 1 >= |h|) then Fail(OutOfBounds)
    else if h[a - 1] != LJ then
      var j := target - a - 1;
      if j > 127 then Fail(IfTooBig) else Ok(h[a := j])
    else
      var j := target - base;
      Ok(h[a := j % 256][a + 1 := j / 256 % 256])
  }

  /** The code of a jump back to `a`; a negative high byte is not written. */
  function BackJump(t: Token, base: nat, hend: nat, a: nat): (code: seq<Byte>)
    requires t.While? || t.Until? || t.Forever?
  {
    var j := a - hend - 2;
    if j >= -127 then
      [if t.While? then JT else if t.Until? then JF else JMP, j % 256]
    else
      var j := a - base;
      (if t.While? then [JF, 3] else if t.Until? then [JT, 3] else [])
      + [LJ, j % 256] + (if j / 256 >= 0 then [j / 256 % 256] else [])
  }

  /** One token, before the size check. */
  function Emit(base: nat, s: State, t: Token): (r: Result<State>)
    requires base <= |s.header|
    ensures r.Ok? ==> |s.header| <= |r.value.header|
  {
    var h := s.header;
    var hend := |h|;
    match t
    case If => var ifs :- Push(s.ifs, hend + 1); Ok(s.(header := h + [JF, 0], ifs := ifs))
    case IfNot => var ifs :- Push(s.ifs, hend + 1); Ok(s.(header := h + [JT, 0], ifs := ifs))
    case Ifl => var ifs :- Push(s.ifs, hend + 3); Ok(s.(header := h + [JT, 3, LJ, 0, 0], ifs := ifs))
    case IfNotl => var ifs :- Push(s.ifs, hend + 3); Ok(s.(header := h + [JF, 3, LJ, 0, 0], ifs := ifs))
    case Else =>
      var a :- Top(s.ifs);
      var h' :- Patch(h, base, a, hend + 2);
      var ifs :- Push(Pop(s.ifs), hend + 1);
      Ok(s.(header := h' + [JMP, 0], ifs := ifs))
    case Elsel =>
      var a :- Top(s.ifs);
      var h' :- Patch(h, base, a, hend + 3);
      var ifs :- Push(Pop(s.ifs), hend + 1);
      Ok(s.(header := h' + [LJ, 0, 0], ifs := ifs))
    case Endif =>
      var a :- Top(s.ifs);
      var h' :- Patch(h, base, a, hend);
      Ok(s.(header := h', ifs := Pop(s.ifs)))
    case Do => var dos :- Push(s.dos, hend); Ok(s.(dos := dos))
    case Plain(op, args) => if |args| + 1 != Len(op) then Fail(BadOperand) else Ok(s.(header := h + [op] + args))
    case _ =>
      var a :- Top(s.dos);
      Ok(s.(header := h + BackJump(t, base, hend, a), dos := Pop(s.dos)))
  }

  /** hend-hbegin+cend-2 > 65535, with hbegin = cend+128 */
  const MAX_END := 65665

  function Step(base: nat, s: State, t: Token): (r: Result<State>)
    requires base <= |s.header|
    ensures r.Ok? ==> |s.header| <= |r.value.header|
  {
    var s' :- Emit(base, s, t);
    if |s'.header| > MAX_END then Fail(ProgramTooBig) else Ok(s')
  }

  function Compile(pre: seq<Byte>, ts: seq<Token>): (r: Result<State>)
    ensures r.Ok? ==> |pre| <= |r.value.header|
    decreases |ts|
  {
    if ts == [] then Ok(State(pre, [], []))
    else
      var s :- Compile(pre, ts[..|ts| - 1]);
      Step(|pre|, s, ts[|ts| - 1])
  }

  /** The same from any stacks, as PCOMP finds them after HCOMP. */
  function CompileFrom(s0: State, ts: seq<Token>): (r: Result<State>)
    ensures r.Ok? ==> |s0.header| <= |r.value.header|
    decreases |ts|
  {
    if ts == [] then Ok(s0)
    else
      var s :- CompileFrom(s0, ts[..|ts| - 1]);
      Step(|s0.header|, s, ts[|ts| - 1])
  }

  lemma {:induction false} CompileFromEmpty(pre: seq<Byte>, ts: seq<Token>)
    ensures CompileFrom(State(pre, [], []), ts) == Compile(pre, ts)
    decreases |ts|
  {
    hide Step;
    if ts != [] {
      CompileFromEmpty(pre, ts[..|ts| - 1]);
    }
  }

  // ---- The interpreter's view

  /** `pc+=((header[pc]+128)&255)-127`, with the opcode at p. */
  function ShortTarget(h: seq<Byte>, p: nat): (q: int)
    requires p + 1 < |h|
  {
    p + 1 + (h[p + 1] as int + 128) % 256 - 127
  }

  /** `pc=hbegin+header[pc]+256*header[pc+1]` */
  function LongTarget(h: seq<Byte>, base: nat, p: nat): (q: int)
    requires p + 2 < |h|
  {
    base + h[p + 1] as int + 256 * h[p + 2] as int
  }

  /** The jump instruction at p, when taken, goes to q. */
  predicate JumpsTo(h: seq<Byte>, base: nat, p: nat, q: int) {
    p + 1 < |h| && if h[p] == LJ then p + 2 < |h| && LongTarget(h, base, p) == q else ShortTarget(h, p) == q
  }

  // ---- Matching

  predicate Opens(t: Token) { t.If? || t.IfNot? || t.Ifl? || t.IfNotl? }
  predicate Elses(t: Token) { t.Else? || t.Elsel? }
  predicate Loops(t: Token) { t.While? || t.Until? || t.Forever? }

  /** Indices of the IFs and ELSEs still open after `ts`, innermost last. */
  function OpenIfs(ts: seq<Token>): (s: seq<nat>)
    decreases |ts|
    ensures forall m :: 0 <= m < |s| ==> s[m] < |ts|
  {
    if ts == [] then []
    else
      var n, s := |ts| - 1, OpenIfs(ts[..|ts| - 1]);
      var t := ts[n];
      if Opens(t) then s + [n]
      else if s == [] then []
      else if Elses(t) then s[..|s| - 1] + [n]
      else if t.Endif? then s[..|s| - 1]
      else s
  }

  function OpenDos(ts: seq<Token>): (s: seq<nat>)
    decreases |ts|
    ensures forall m :: 0 <= m < |s| ==> s[m] < |ts|
  {
    if ts == [] then []
    else
      var n, s := |ts| - 1, OpenDos(ts[..|ts| - 1]);
      var t := ts[n];
      if t.Do? then s + [n]
      else if s == [] then []
      else if Loops(t) then s[..|s| - 1]
      else s
  }

  /** The ELSE or ENDIF at k closes the IF or ELSE at i. */
  predicate IfPair(ts: seq<Token>, i: nat, k: nat) {
    && k < |ts| && (Elses(ts[k]) || ts[k].Endif?)
    && var s := OpenIfs(ts[..k]); s != [] && s[|s| - 1] == i
  }

  predicate LoopPair(ts: seq<Token>, i: nat, k: nat) {
    && k < |ts| && Loops(ts[k])
    && var s := OpenDos(ts[..k]); s != [] && s[|s| - 1] == i
  }

  predicate Closes(t: Token) { Elses(t) || t.Endif? }

  // ---- Addresses

  /** The COMP section has at least 8 bytes and is followed by a guard of 128. */
  predicate Accepted(pre: seq<Byte>, ts: seq<Token>) { 136 <= |pre| && Compile(pre, ts).Ok? }

  lemma {:induction false} PrefixAccepted(pre: seq<Byte>, ts: seq<Token>, j: nat)
    requires Accepted(pre, ts) && j <= |ts|
    ensures Accepted(pre, ts[..j])
    ensures |Compile(pre, ts[..j]).value.header| <= |Compile(pre, ts).value.header|
    decreases |ts|
  {
    hide Step;
    if j < |ts| {
      var n := |ts| - 1;
      PrefixAccepted(pre, ts[..n], j);
      assert ts[..n][..j] == ts[..j];
    } else {
      assert ts[..j] == ts;
    }
  }

  /** The address at which token j starts. */
  ghost function Addr(pre: seq<Byte>, ts: seq<Token>, j: nat): (a: nat)
    requires Accepted(pre, ts) && j <= |ts|
    ensures |pre| <= a <= |Compile(pre, ts).value.header|
  {
    PrefixAccepted(pre, ts, j);
    |Compile(pre, ts[..j]).value.header|
  }

  lemma AddrOfPrefix(pre: seq<Byte>, ts: seq<Token>, j: nat, k: nat)
    requires Accepted(pre, ts) && j <= k <= |ts|
    ensures Accepted(pre, ts[..k]) && Addr(pre, ts[..k], j) == Addr(pre, ts, j) <= Addr(pre, ts, k)
  {
    PrefixAccepted(pre, ts, k);
    PrefixAccepted(pre, ts[..k], j);
    assert ts[..k][..j] == ts[..j];
  }

  /** The address of the operand that the IF or ELSE at i saves. */
  ghost function Operand(pre: seq<Byte>, ts: seq<Token>, i: nat): (a: nat)
    requires Accepted(pre, ts) && i < |ts|
    ensures a > 0
  {
    Addr(pre, ts, i) + if ts[i].Ifl? || ts[i].IfNotl? then 3 else 1
  }

  /** Where the jump closed at k must go: behind the ELSE's own jump, or to the ENDIF. */
  ghost function Goal(pre: seq<Byte>, ts: seq<Token>, k: nat): (a: nat)
    requires Accepted(pre, ts) && k < |ts|
  {
    if ts[k].Endif? then Addr(pre, ts, k) else Addr(pre, ts, k + 1)
  }

  // ---- What the code of each token looks like, patched or not

  predicate Shape(h: seq<Byte>, t: Token, lo: nat, hi: nat)
    requires lo <= hi <= |h|
  {
    match t
    case If => hi == lo + 2 && h[lo] == JF
    case IfNot => hi == lo + 2 && h[lo] == JT
    case Ifl => hi == lo + 5 && h[lo] == JT && h[lo + 1] == 3 && h[lo + 2] == LJ
    case IfNotl => hi == lo + 5 && h[lo] == JF && h[lo + 1] == 3 && h[lo + 2] == LJ
    case Else => hi == lo + 2 && h[lo] == JMP
    case Elsel => hi == lo + 3 && h[lo] == LJ
    case Endif => hi == lo
    case Do => hi == lo
    case Plain(op, args) => hi == lo + Len(op) && h[lo] == op
    case While => (hi == lo + 2 && h[lo] == JT) || (hi == lo + 5 && h[lo] == JF && h[lo + 1] == 3 && h[lo + 2] == LJ)
    case Until => (hi == lo + 2 && h[lo] == JF) || (hi == lo + 5 && h[lo] == JT && h[lo + 1] == 3 && h[lo + 2] == LJ)
    case Forever => (hi == lo + 2 && h[lo] == JMP) || (hi == lo + 3 && h[lo] == LJ)
  }

  /** Where in the code of a loop's end the jump back is. */
  function BackAt(t: Token, lo: nat, hi: nat): nat { if hi == lo + 5 then lo + 2 else lo }

  // ---- What holds after every accepted program

  /** The loop ended at j saved an address that fits in 16 bits. */
  ghost predicate LoopFits(pre: seq<Byte>, ts: seq<Token>, j: nat)
    requires Accepted(pre, ts) && j < |ts|
  {
    var s := OpenDos(ts[..j]);
    s != [] && Addr(pre, ts, s[|s| - 1]) < 0x1_0000
  }

  /** Every token's code is where and what it should be, except the end of a loop that began beyond 16 bits. */
  ghost predicate Shapes(pre: seq<Byte>, ts: seq<Token>)
    requires Accepted(pre, ts)
  {
    forall j {:trigger ts[j]} :: 0 <= j < |ts| ==>
      && Addr(pre, ts, j) <= Addr(pre, ts, j + 1)
      && (Shape(Compile(pre, ts).value.header, ts[j], Addr(pre, ts, j), Addr(pre, ts, j + 1))
          <==> (Loops(ts[j]) ==> LoopFits(pre, ts, j)))
  }

  ghost predicate Stacks(pre: seq<Byte>, ts: seq<Token>)
    requires Accepted(pre, ts)
  {
    IfStack(pre, ts) && DoStack(pre, ts)
  }

  ghost predicate IfStack(pre: seq<Byte>, ts: seq<Token>)
    requires Accepted(pre, ts)
  {
    var s, ifs := Compile(pre, ts).value, OpenIfs(ts);
    |s.ifs| == |ifs| && forall m :: 0 <= m < |ifs| ==> s.ifs[m] == Operand(pre, ts, ifs[m]) % 0x1_0000
  }

  ghost predicate DoStack(pre: seq<Byte>, ts: seq<Token>)
    requires Accepted(pre, ts)
  {
    var s, dos := Compile(pre, ts).value, OpenDos(ts);
    |s.dos| == |dos| && forall m :: 0 <= m < |dos| ==> s.dos[m] == Addr(pre, ts, dos[m]) % 0x1_0000
  }

  /** A jump whose operand lies beyond 16 bits is never patched. */
  ghost predicate Unpatched(pre: seq<Byte>, ts: seq<Token>)
    requires Accepted(pre, ts)
  {
    var h := Compile(pre, ts).value.header;
    forall i :: 0 <= i < |ts| && (Opens(ts[i]) || Elses(ts[i])) && Operand(pre, ts, i) >= 0x1_0000 ==>
      forall x :: Operand(pre, ts, i) <= x < Addr(pre, ts, i + 1) && x < |h| ==> h[x] == 0
  }

  ghost predicate IfJumps(pre: seq<Byte>, ts: seq<Token>)
    requires Accepted(pre, ts)
  {
    forall i: nat, k: nat :: IfPair(ts, i, k) ==>
      && i < k
      && (Operand(pre, ts, i) < 0x1_0000 ==>
            JumpsTo(Compile(pre, ts).value.header, |pre|, Operand(pre, ts, i) - 1, Goal(pre, ts, k)))
  }

  ghost predicate LoopJumps(pre: seq<Byte>, ts: seq<Token>)
    requires Accepted(pre, ts)
  {
    forall i: nat, k: nat :: LoopPair(ts, i, k) ==>
      && i < k
      && (Addr(pre, ts, i) < 0x1_0000 ==>
            JumpsTo(Compile(pre, ts).value.header, |pre|,
                    BackAt(ts[k], Addr(pre, ts, k), Addr(pre, ts, k + 1)), Addr(pre, ts, i)))
  }

  // ---- One instruction

  /** A jump keeps its target while its own bytes stay. */
  lemma JumpKept(h: seq<Byte>, h': seq<Byte>, base: nat, p: nat, q: int)
    requires JumpsTo(h, base, p, q) && |h| <= |h'|
    requires h'[p] == h[p] && h'[p + 1] == h[p + 1] && (h[p] == LJ ==> h'[p + 2] == h[p + 2])
    ensures JumpsTo(h', base, p, q)
  {
  }

  /** Patching makes the jump go where it should, and touches only its operand. */
  lemma PatchJumps(h: seq<Byte>, base: nat, a: nat, target: nat)
    requires base <= |h| <= target && Patch(h, base, a, target).Ok? && target - base < 0x1_0000
    ensures JumpsTo(Patch(h, base, a, target).value, base, a - 1, target)
    ensures Patch(h, base, a, target).value[a - 1] == h[a - 1]
    ensures h[a - 1] != LJ && a + 1 < |h| ==> Patch(h, base, a, target).value[a + 1] == h[a + 1]
  {
  }

  /** A loop whose saved address is right jumps back to it. */
  lemma BackJumps(h: seq<Byte>, t: Token, base: nat, a: nat)
    requires Loops(t) && base <= a <= |h| && a - base < 0x1_0000
    ensures var h' := h + BackJump(t, base, |h|, a);
      && Shape(h', t, |h|, |h'|)
      && JumpsTo(h', base, BackAt(t, |h|, |h'|), a)
  {
  }

  /** A loop that began beyond 16 bits loses the last byte of its jump. */
  lemma BackJumpTruncated(h: seq<Byte>, t: Token, base: nat, a: nat)
    requires Loops(t) && 136 <= base && 0x1_0000 <= a <= |h| <= MAX_END
    ensures var h' := h + BackJump(t, base, |h|, a % 0x1_0000);
      !Shape(h', t, |h|, |h'|)
  {
  }

  /** What one token does to the bytes. */
  lemma EmitBytes(base: nat, s: State, t: Token)
    requires base <= |s.header| && Emit(base, s, t).Ok?
    ensures var h, h' := s.header, Emit(base, s, t).value.header;
      && |h| <= |h'|
      && (!Closes(t) ==> h'[..|h|] == h)
      && (Closes(t) ==>
            && s.ifs != []
            && var patched := Patch(h, base, s.ifs[|s.ifs| - 1], if t.Endif? then |h| else |h'|);
              patched.Ok? && h'[..|h|] == patched.value)
      && (Loops(t) ==> s.dos != [] && h' == h + BackJump(t, base, |h|, s.dos[|s.dos| - 1]))
  {
    hide BackJump; hide Patch; hide Len;
    var h, h' := s.header, Emit(base, s, t).value.header;
    if t.Plain? {
      assert h' == h + ([t.op] + t.args);
    }
  }

  /** The operand of a forward jump starts out as 0. */
  lemma EmitZeros(base: nat, s: State, t: Token)
    requires base <= |s.header| && Emit(base, s, t).Ok? && (Opens(t) || Elses(t))
    ensures var h, h' := s.header, Emit(base, s, t).value.header;
      var o := |h| + (if t.Ifl? || t.IfNotl? then 3 else 1);
      forall x :: o <= x < |h'| ==> h'[x] == 0
  {
    hide BackJump; hide Patch; hide Len;
  }

  lemma EmitShape(base: nat, s: State, t: Token)
    requires base <= |s.header| && Emit(base, s, t).Ok? && !Loops(t)
    ensures var h, h' := s.header, Emit(base, s, t).value.header;
      |h| <= |h'| && Shape(h', t, |h|, |h'|)
  {
    hide BackJump; hide Patch; hide Len;
    var h, h' := s.header, Emit(base, s, t).value.header;
    if t.Plain? {
      assert h' == h + ([t.op] + t.args);
    }
  }

  /** What one token does to the stacks. */
  lemma EmitStacks(base: nat, s: State, t: Token)
    requires base <= |s.header| && Emit(base, s, t).Ok?
    ensures var s', o := Emit(base, s, t).value, |s.header| + (if t.Ifl? || t.IfNotl? then 3 else 1);
      && (Closes(t) ==> s.ifs != [])
      && (Loops(t) ==> s.dos != [])
      && s'.ifs == (if Opens(t) then s.ifs + [o % 0x1_0000]
                    else if Elses(t) then s.ifs[..|s.ifs| - 1] + [o % 0x1_0000]
                    else if t.Endif? then s.ifs[..|s.ifs| - 1] else s.ifs)
      && s'.dos == (if t.Do? then s.dos + [|s.header| % 0x1_0000]
                    else if Loops(t) then s.dos[..|s.dos| - 1] else s.dos)
  {
    hide BackJump; hide Patch; hide Len;
  }

  // ---- Facts about matching alone

  /** Open IFs and ELSEs are in increasing order and are what they are. */
  ghost predicate OpensSane(ts: seq<Token>) {
    var s := OpenIfs(ts);
    && (forall m :: 0 <= m < |s| ==> Opens(ts[s[m]]) || Elses(ts[s[m]]))
    && (forall l, m :: 0 <= l < m < |s| ==> s[l] < s[m])
  }

  lemma {:induction false} OpensAreSane(ts: seq<Token>)
    ensures OpensSane(ts)
    decreases |ts|
  {
    if ts != [] {
      OpensAreSane(ts[..|ts| - 1]);
    }
  }

  /** What is open after a token was open before it and not closed by it, or is the token. */
  lemma {:induction false} OpenAfter(ts: seq<Token>, m: nat)
    requires ts != [] && m < |OpenIfs(ts)|
    ensures var n, s, x := |ts| - 1, OpenIfs(ts[..|ts| - 1]), OpenIfs(ts)[m];
      x == n || (m < |s| && s[m] == x && (Closes(ts[n]) ==> m < |s| - 1))
  {
    var n, s := |ts| - 1, OpenIfs(ts[..|ts| - 1]);
    hide Opens;
    if m < |s| {
      if Elses(ts[n]) && !Opens(ts[n]) {
        assert OpenIfs(ts) == s[..|s| - 1] + [n];
      }
    }
  }

  /** What has been closed is not open any more. */
  lemma {:induction false} ClosedStaysClosed(ts: seq<Token>, i: nat, k: nat)
    requires IfPair(ts, i, k)
    ensures i < k && (Opens(ts[i]) || Elses(ts[i])) && i !in OpenIfs(ts)
    decreases |ts|
  {
    hide Opens; hide Elses; hide OpenIfs;
    var n := |ts| - 1;
    OpensAreSane(ts[..n]);
    if k < n {
      assert ts[..n][..k] == ts[..k];
      ClosedStaysClosed(ts[..n], i, k);
    }
    forall m: nat | m < |OpenIfs(ts)|
      ensures OpenIfs(ts)[m] != i
    {
      OpenAfter(ts, m);
    }
  }

  // ---- One token

  lemma NextStep(pre: seq<Byte>, ts: seq<Token>, t: Token)
    requires Accepted(pre, ts + [t])
    ensures Accepted(pre, ts)
    ensures Emit(|pre|, Compile(pre, ts).value, t) == Compile(pre, ts + [t])
    ensures |Compile(pre, ts + [t]).value.header| <= MAX_END
    ensures forall j: nat :: j <= |ts| ==> Addr(pre, ts + [t], j) == Addr(pre, ts, j)
    ensures Addr(pre, ts + [t], |ts|) == |Compile(pre, ts).value.header|
    ensures Addr(pre, ts + [t], |ts| + 1) == |Compile(pre, ts + [t]).value.header|
  {
    hide Emit;
    var tt := ts + [t];
    assert tt[..|tt| - 1] == ts && ts[..|ts|] == ts && tt[..|tt|] == tt;
    forall j: nat | j <= |ts|
      ensures Addr(pre, tt, j) == Addr(pre, ts, j)
    {
      assert tt[..j] == ts[..j];
    }
  }

  /** The jump bytes of an opener: its opcode, then its operand up to the next token. */
  lemma OpenerBytes(pre: seq<Byte>, ts: seq<Token>, i: nat)
    requires Accepted(pre, ts) && Shapes(pre, ts) && i < |ts| && (Opens(ts[i]) || Elses(ts[i]))
    ensures var h, a := Compile(pre, ts).value.header, Operand(pre, ts, i);
      && Addr(pre, ts, i) < a < |h|
      && Addr(pre, ts, i + 1) == a + (if h[a - 1] == LJ then 2 else 1) <= |h|
      && (h[a - 1] == JT || h[a - 1] == JF || h[a - 1] == JMP || h[a - 1] == LJ)
  {
    hide Compile; hide LoopFits;
    var h := Compile(pre, ts).value.header;
    assert Shape(h, ts[i], Addr(pre, ts, i), Addr(pre, ts, i + 1));
  }

  /** x is an operand byte of the innermost open jump, whose operand fits in 16 bits. */
  ghost predicate Patching(pre: seq<Byte>, ts: seq<Token>, x: nat)
    requires Accepted(pre, ts)
  {
    var s := OpenIfs(ts);
    && s != [] && Operand(pre, ts, s[|s| - 1]) < 0x1_0000
    && Operand(pre, ts, s[|s| - 1]) <= x < Addr(pre, ts, s[|s| - 1] + 1)
  }

  /** A token changes nothing of the program before it but the operand of the jump it closes. */
  lemma Frame(pre: seq<Byte>, ts: seq<Token>, t: Token)
    requires Accepted(pre, ts + [t]) && Accepted(pre, ts) && Shapes(pre, ts) && Stacks(pre, ts)
    ensures var h, h' := Compile(pre, ts).value.header, Compile(pre, ts + [t]).value.header;
      && |h| <= |h'|
      && (Closes(t) ==> OpenIfs(ts) != [])
      && forall x: nat :: |pre| <= x < |h| && !(Closes(t) && Patching(pre, ts, x)) ==> h'[x] == h[x]
  {
    hide Emit; hide Compile; hide BackJump; hide OpenIfs; hide Patch; hide LoopFits; hide Shapes;
    NextStep(pre, ts, t);
    var st := Compile(pre, ts).value;
    EmitBytes(|pre|, st, t);
    if Closes(t) {
      var s := OpenIfs(ts);
      OpensAreSane(ts);
      var i := s[|s| - 1];
      OpenerBytes(pre, ts, i);
      var o, a := Operand(pre, ts, i), st.ifs[|s| - 1];
      assert a == o % 0x1_0000;
      var h, h' := st.header, Compile(pre, ts + [t]).value.header;
      forall x: nat | |pre| <= x < |h| && !Patching(pre, ts, x)
        ensures h'[x] == h[x]
      {
        if o < 0x1_0000 {
          PatchJumps(h, |pre|, o, if t.Endif? then |h| else |h'|);
        }
        assert h'[..|h|][x] == h'[x];
      }
    }
  }

  /**
   A saved address that wrapped lies in the COMP section or its guard.  The patch is made
   exactly when the byte before it happens to be 255, and then overwrites two bytes there.
   */
  lemma WrappedPatch(h: seq<Byte>, base: nat, o: nat, target: nat)
    requires 136 <= base <= |h| <= target <= MAX_END && 0x1_0000 <= o < |h|
    ensures var a, j, r := o - 0x1_0000, target - base, Patch(h, base, o - 0x1_0000, target);
      && a + 1 < base
      && (r.Ok? <==> a > 0 && h[a - 1] == LJ)
      && (r.Ok? ==> r.value == h[a := j % 256][a + 1 := j / 256])
  {
  }

  /** The operand of the innermost open jump. */
  ghost function TopOperand(pre: seq<Byte>, ts: seq<Token>): (o: nat)
    requires Accepted(pre, ts) && OpenIfs(ts) != []
  {
    Operand(pre, ts, OpenIfs(ts)[|OpenIfs(ts)| - 1])
  }

  /** The bytes before the program. */
  ghost function Before(pre: seq<Byte>, ts: seq<Token>): (s: seq<Byte>)
    requires Accepted(pre, ts)
    ensures |s| == |pre|
  {
    Compile(pre, ts).value.header[..|pre|]
  }

  /** The token closes a jump whose operand lies beyond 16 bits. */
  ghost predicate ClosesBeyond(pre: seq<Byte>, ts: seq<Token>, t: Token)
    requires Accepted(pre, ts)
  {
    Closes(t) && OpenIfs(ts) != [] && TopOperand(pre, ts) >= 0x1_0000
  }

  lemma PrefixOfPatch(h: seq<Byte>, base: nat, o: nat, target: nat)
    requires 136 <= base < o < |h| <= target <= MAX_END && Patch(h, base, o % 0x1_0000, target).Ok?
    ensures var was, now := h[..base], Patch(h, base, o % 0x1_0000, target).value[..base];
      if o >= 0x1_0000 then
        var a, j := o - 0x1_0000, target - base;
        0 < a < a + 1 < base && was[a - 1] == LJ && now == was[a := j % 256][a + 1 := j / 256]
      else now == was
  {
    hide Patch;
    if o >= 0x1_0000 {
      WrappedPatch(h, base, o, target);
      assert o % 0x1_0000 == o - 0x1_0000;
    }
  }

  lemma PatchedTop(pre: seq<Byte>, ts: seq<Token>, t: Token)
    requires Accepted(pre, ts + [t]) && Accepted(pre, ts) && Shapes(pre, ts) && Stacks(pre, ts) && Closes(t)
    ensures OpenIfs(ts) != []
    ensures var h, o, target := Compile(pre, ts).value.header, TopOperand(pre, ts), Goal(pre, ts + [t], |ts|);
      && |pre| < o < |h| <= target <= MAX_END && Patch(h, |pre|, o % 0x1_0000, target).Ok?
      && Before(pre, ts + [t]) == Patch(h, |pre|, o % 0x1_0000, target).value[..|pre|]
  {
    hide Emit; hide Compile; hide BackJump; hide OpenIfs; hide Patch; hide LoopFits; hide Shapes; hide Addr; hide Shape;
    NextStep(pre, ts, t);
    var st := Compile(pre, ts).value;
    var h, h' := st.header, Compile(pre, ts + [t]).value.header;
    EmitBytes(|pre|, st, t);
    OpensAreSane(ts);
    OpenerBytes(pre, ts, OpenIfs(ts)[|OpenIfs(ts)| - 1]);
    assert st.ifs[|st.ifs| - 1] == TopOperand(pre, ts) % 0x1_0000;
    assert h'[..|h|][..|pre|] == h'[..|pre|];
  }

  /** What one token does to the bytes before the program: nothing, unless it closes a jump beyond 16 bits. */
  lemma PreStep(pre: seq<Byte>, ts: seq<Token>, t: Token)
    requires Accepted(pre, ts + [t]) && Accepted(pre, ts) && Shapes(pre, ts) && Stacks(pre, ts)
    ensures if ClosesBeyond(pre, ts, t) then
        var a, j := TopOperand(pre, ts) - 0x1_0000, Goal(pre, ts + [t], |ts|) - |pre|;
        && 0 < a < a + 1 < |pre| && Before(pre, ts)[a - 1] == LJ
        && 0 <= j < 0x1_0000 && Before(pre, ts + [t]) == Before(pre, ts)[a := j % 256][a + 1 := j / 256]
      else Before(pre, ts + [t]) == Before(pre, ts)
  {
    hide Emit; hide Compile; hide BackJump; hide OpenIfs; hide Patch; hide Shapes; hide Addr; hide Goal; hide Stacks;
    hide TopOperand; hide Shape;
    if Closes(t) {
      PatchedTop(pre, ts, t);
      PrefixOfPatch(Compile(pre, ts).value.header, |pre|, TopOperand(pre, ts), Goal(pre, ts + [t], |ts|));
    } else {
      NextStep(pre, ts, t);
      var st := Compile(pre, ts).value;
      EmitBytes(|pre|, st, t);
      var h, h' := st.header, Compile(pre, ts + [t]).value.header;
      assert h'[..|h|][..|pre|] == h'[..|pre|];
    }
  }

  /** x is where the wrapped operand of the IF or ELSE at i lies. */
  ghost predicate Overwrites(pre: seq<Byte>, ts: seq<Token>, i: nat, x: nat)
    requires Accepted(pre, ts) && i < |ts|
  {
    x + 0x1_0000 == Operand(pre, ts, i) || x + 0x1_0000 == Operand(pre, ts, i) + 1
  }

  /** Some jump beyond 16 bits that was closed has its wrapped operand at x. */
  ghost predicate Overwritten(pre: seq<Byte>, ts: seq<Token>, x: nat)
    requires Accepted(pre, ts)
  {
    exists i: nat, k: nat :: IfPair(ts, i, k) && i < |ts| && Overwrites(pre, ts, i, x)
  }

  lemma SameOperand(pre: seq<Byte>, ts: seq<Token>, t: Token, i: nat)
    requires Accepted(pre, ts + [t]) && Accepted(pre, ts) && i < |ts|
    ensures Operand(pre, ts + [t], i) == Operand(pre, ts, i)
  {
    hide Compile; hide Addr; hide Emit;
    NextStep(pre, ts, t);
    assert (ts + [t])[i] == ts[i];
  }

  lemma PairStays(ts: seq<Token>, t: Token, i: nat, k: nat)
    requires IfPair(ts, i, k)
    ensures IfPair(ts + [t], i, k)
  {
    hide OpenIfs;
    assert (ts + [t])[..k] == ts[..k] && (ts + [t])[k] == ts[k];
  }

  lemma PairNow(ts: seq<Token>, t: Token)
    requires Closes(t) && OpenIfs(ts) != []
    ensures IfPair(ts + [t], OpenIfs(ts)[|OpenIfs(ts)| - 1], |ts|)
  {
    hide OpenIfs;
    assert (ts + [t])[..|ts|] == ts;
  }

  lemma OverwrittenStep(pre: seq<Byte>, ts: seq<Token>, t: Token, x: nat)
    requires Accepted(pre, ts + [t]) && Accepted(pre, ts) && Sound(pre, ts) && x < |pre|
    requires Before(pre, ts + [t])[x] != Before(pre, ts)[x] || Overwritten(pre, ts, x)
    ensures Overwritten(pre, ts + [t], x)
  {
    hide Compile; hide OpenIfs; hide Operand; hide Accepted; hide Before; hide IfPair; hide Addr; hide Goal;
    hide Shapes; hide Stacks; hide Unpatched; hide IfJumps; hide LoopJumps;
    if Overwritten(pre, ts, x) {
      var i: nat, k: nat :| IfPair(ts, i, k) && i < |ts| && Overwrites(pre, ts, i, x);
      SameOperand(pre, ts, t, i);
      PairStays(ts, t, i, k);
    } else {
      PreStep(pre, ts, t);
      var i := OpenIfs(ts)[|OpenIfs(ts)| - 1];
      SameOperand(pre, ts, t, i);
      PairNow(ts, t);
      assert Overwrites(pre, ts + [t], i, x);
    }
  }

  /** The bytes before the program change only where the wrapped operand of a closed jump lies. */
  lemma {:induction false} PreChanges(pre: seq<Byte>, ts: seq<Token>, x: nat)
    requires Accepted(pre, ts) && x < |pre| && Before(pre, ts)[x] != pre[x]
    ensures Overwritten(pre, ts, x)
    decreases |ts|
  {
    if ts != [] {
      hide *;
      var n := |ts| - 1;
      var most, t := ts[..n], ts[n];
      assert ts == most + [t];
      NextStep(pre, most, t);
      EveryProgramIsSound(pre, most);
      if Before(pre, most)[x] != pre[x] {
        PreChanges(pre, most, x);
      }
      OverwrittenStep(pre, most, t, x);
    }
  }

  /** All that holds after every accepted program. */
  ghost predicate Sound(pre: seq<Byte>, ts: seq<Token>)
    requires Accepted(pre, ts)
  {
    Shapes(pre, ts) && Stacks(pre, ts) && Unpatched(pre, ts) && IfJumps(pre, ts) && LoopJumps(pre, ts)
  }

  /** The operand bytes being patched belong to one token, which is not a loop's end. */
  lemma PatchingIsLocal(pre: seq<Byte>, ts: seq<Token>, x: nat)
    requires Accepted(pre, ts) && Shapes(pre, ts) && Patching(pre, ts, x)
    ensures var s := OpenIfs(ts);
      && s != [] && (Opens(ts[s[|s| - 1]]) || Elses(ts[s[|s| - 1]]))
      && Addr(pre, ts, s[|s| - 1]) < Operand(pre, ts, s[|s| - 1]) <= x < Addr(pre, ts, s[|s| - 1] + 1)
  {
    hide Compile; hide OpenIfs; hide Shapes;
    OpensAreSane(ts);
    OpenerBytes(pre, ts, OpenIfs(ts)[|OpenIfs(ts)| - 1]);
  }

  /** Tokens other than the one being patched keep all their bytes, and that one keeps its opcodes. */
  lemma TokenKept(pre: seq<Byte>, ts: seq<Token>, t: Token, j: nat)
    requires Accepted(pre, ts + [t]) && Accepted(pre, ts) && Shapes(pre, ts) && Stacks(pre, ts) && j < |ts|
    ensures var h, h' := Compile(pre, ts).value.header, Compile(pre, ts + [t]).value.header;
      var s := OpenIfs(ts);
      && Addr(pre, ts, j + 1) <= |h| <= |h'|
      && forall x: nat :: Addr(pre, ts, j) <= x < Addr(pre, ts, j + 1) && h'[x] != h[x] ==>
        && s != [] && s[|s| - 1] == j && Closes(t) && (Opens(ts[j]) || Elses(ts[j]))
        && Operand(pre, ts, j) <= x && Operand(pre, ts, j) < 0x1_0000
  {
    hide Compile; hide OpenIfs; hide Shapes; hide Stacks; hide Opens; hide Elses; hide Closes; hide Operand;
    Frame(pre, ts, t);
    var h, h' := Compile(pre, ts).value.header, Compile(pre, ts + [t]).value.header;
    forall x: nat | Addr(pre, ts, j) <= x < Addr(pre, ts, j + 1) && h'[x] != h[x]
      ensures var s := OpenIfs(ts);
        && s != [] && s[|s| - 1] == j && Closes(t) && (Opens(ts[j]) || Elses(ts[j]))
        && Operand(pre, ts, j) <= x && Operand(pre, ts, j) < 0x1_0000
    {
      assert Patching(pre, ts, x);
      PatchingIsLocal(pre, ts, x);
      var i := OpenIfs(ts)[|OpenIfs(ts)| - 1];
      if i < j {
        AddrOfPrefix(pre, ts, i + 1, j);
      } else if j < i {
        AddrOfPrefix(pre, ts, j + 1, i);
      }
    }
  }

  lemma ShapeKept(h: seq<Byte>, h': seq<Byte>, t: Token, lo: nat, hi: nat)
    requires lo <= hi <= |h| <= |h'|
    requires forall x: nat :: lo <= x < hi && h'[x] != h[x] ==>
      (Opens(t) || Elses(t)) && lo + (if t.Ifl? || t.IfNotl? then 3 else 1) <= x
    ensures Shape(h, t, lo, hi) == Shape(h', t, lo, hi)
  {
  }

  lemma OneShapeKept(pre: seq<Byte>, ts: seq<Token>, t: Token, j: nat)
    requires Accepted(pre, ts + [t]) && Accepted(pre, ts) && Shapes(pre, ts) && Stacks(pre, ts) && j < |ts|
    ensures var lo, hi := Addr(pre, ts, j), Addr(pre, ts, j + 1);
      && lo <= hi <= |Compile(pre, ts).value.header| <= |Compile(pre, ts + [t]).value.header|
      && Shape(Compile(pre, ts).value.header, ts[j], lo, hi)
         == Shape(Compile(pre, ts + [t]).value.header, ts[j], lo, hi)
  {
    hide Compile; hide OpenIfs; hide Shape; hide Stacks; hide Opens; hide Elses; hide Addr; hide Shapes;
    AddrOfPrefix(pre, ts, j, j + 1);
    TokenKept(pre, ts, t, j);
    var h, h' := Compile(pre, ts).value.header, Compile(pre, ts + [t]).value.header;
    ShapeKept(h, h', ts[j], Addr(pre, ts, j), Addr(pre, ts, j + 1));
  }

  lemma LastShape(pre: seq<Byte>, ts: seq<Token>, t: Token)
    requires Accepted(pre, ts + [t]) && Accepted(pre, ts) && Stacks(pre, ts)
    ensures var h, h' := Compile(pre, ts).value.header, Compile(pre, ts + [t]).value.header;
      && |h| <= |h'|
      && (Shape(h', t, |h|, |h'|) <==> (Loops(t) ==> LoopFits(pre, ts + [t], |ts|)))
  {
    hide Compile; hide OpenIfs; hide OpenDos; hide Emit; hide Shape; hide BackJump; hide Patch; hide Addr;
    NextStep(pre, ts, t);
    var st := Compile(pre, ts).value;
    EmitBytes(|pre|, st, t);
    if Loops(t) {
      assert (ts + [t])[..|ts|] == ts;
      var s := OpenDos(ts);
      var a := Addr(pre, ts, s[|s| - 1]);
      assert st.dos[|s| - 1] == a % 0x1_0000;
      if a < 0x1_0000 {
        BackJumps(st.header, t, |pre|, a);
      } else {
        BackJumpTruncated(st.header, t, |pre|, a);
      }
    } else {
      EmitShape(|pre|, st, t);
    }
  }

  lemma ShapesStep(pre: seq<Byte>, ts: seq<Token>, t: Token)
    requires Accepted(pre, ts + [t]) && Accepted(pre, ts) && Shapes(pre, ts) && Stacks(pre, ts)
    ensures Shapes(pre, ts + [t])
  {
    hide Compile; hide OpenIfs; hide OpenDos; hide Emit; hide Shape; hide BackJump; hide Stacks; hide Addr;
    NextStep(pre, ts, t);
    var tt := ts + [t];
    var h' := Compile(pre, tt).value.header;
    forall j: nat | j < |tt|
      ensures Addr(pre, tt, j) <= Addr(pre, tt, j + 1)
      ensures Shape(h', tt[j], Addr(pre, tt, j), Addr(pre, tt, j + 1)) <==> (Loops(tt[j]) ==> LoopFits(pre, tt, j))
    {
      if j < |ts| {
        assert tt[..j] == ts[..j];
        assert tt[j] == ts[j];
        OneShapeKept(pre, ts, t, j);
      } else {
        LastShape(pre, ts, t);
      }
    }
  }

  lemma StacksStep(pre: seq<Byte>, ts: seq<Token>, t: Token)
    requires Accepted(pre, ts + [t]) && Accepted(pre, ts) && Stacks(pre, ts)
    ensures Stacks(pre, ts + [t])
  {
    hide IfStack; hide DoStack; hide Accepted;
    IfStackStep(pre, ts, t);
    DoStackStep(pre, ts, t);
  }

  lemma IfStackStep(pre: seq<Byte>, ts: seq<Token>, t: Token)
    requires Accepted(pre, ts + [t]) && Accepted(pre, ts) && IfStack(pre, ts)
    ensures IfStack(pre, ts + [t])
  {
    hide Compile; hide Emit; hide Addr; hide OpenDos; hide OpenIfs; hide Operand;
    NextStep(pre, ts, t);
    var tt := ts + [t];
    OpenIfsNext(ts, t);
    EmitStacks(|pre|, Compile(pre, ts).value, t);
    forall i: nat | i < |ts|
      ensures Operand(pre, tt, i) == Operand(pre, ts, i)
    {
      SameOperand(pre, ts, t, i);
    }
    LastOperand(pre, ts, t);
  }

  lemma LastOperand(pre: seq<Byte>, ts: seq<Token>, t: Token)
    requires Accepted(pre, ts + [t]) && Accepted(pre, ts)
    ensures Operand(pre, ts + [t], |ts|)
         == |Compile(pre, ts).value.header| + (if t.Ifl? || t.IfNotl? then 3 else 1)
  {
    hide Compile; hide Addr; hide Emit;
    NextStep(pre, ts, t);
  }

  lemma {:induction false} OpenIfsNext(ts: seq<Token>, t: Token)
    ensures var s := OpenIfs(ts);
      OpenIfs(ts + [t]) == if Opens(t) then s + [|ts|]
                           else if s == [] then []
                           else if Elses(t) then s[..|s| - 1] + [|ts|]
                           else if t.Endif? then s[..|s| - 1] else s
  {
    assert (ts + [t])[..|ts|] == ts;
  }

  lemma DoStackStep(pre: seq<Byte>, ts: seq<Token>, t: Token)
    requires Accepted(pre, ts + [t]) && Accepted(pre, ts) && DoStack(pre, ts)
    ensures DoStack(pre, ts + [t])
  {
    hide Compile; hide Emit; hide Addr; hide OpenIfs;
    NextStep(pre, ts, t);
    var tt := ts + [t];
    assert tt[..|tt| - 1] == ts;
    EmitStacks(|pre|, Compile(pre, ts).value, t);
  }

  lemma UnpatchedStep(pre: seq<Byte>, ts: seq<Token>, t: Token)
    requires Accepted(pre, ts + [t]) && Accepted(pre, ts) && Shapes(pre, ts) && Stacks(pre, ts) && Unpatched(pre, ts)
    ensures Unpatched(pre, ts + [t])
  {
    hide Compile; hide Emit; hide Addr; hide OpenIfs; hide Shapes; hide Stacks; hide Shape; hide BackJump; hide Patch;
    NextStep(pre, ts, t);
    var tt := ts + [t];
    var h' := Compile(pre, tt).value.header;
    EmitBytes(|pre|, Compile(pre, ts).value, t);
    if Opens(t) || Elses(t) {
      EmitZeros(|pre|, Compile(pre, ts).value, t);
    }
    forall i: nat | i < |tt| && (Opens(tt[i]) || Elses(tt[i])) && Operand(pre, tt, i) >= 0x1_0000
      ensures forall x :: Operand(pre, tt, i) <= x < Addr(pre, tt, i + 1) && x < |h'| ==> h'[x] == 0
    {
      if i < |ts| {
        assert tt[i] == ts[i];
        TokenKept(pre, ts, t, i);
      }
    }
  }

  lemma IfJumpsStep(pre: seq<Byte>, ts: seq<Token>, t: Token)
    requires Accepted(pre, ts + [t]) && Accepted(pre, ts) && Sound(pre, ts)
    ensures IfJumps(pre, ts + [t])
  {
    hide Compile; hide Emit; hide Addr; hide OpenIfs; hide Shapes; hide Stacks; hide Unpatched; hide LoopJumps;
    hide JumpsTo; hide Goal;
    hide Operand;
    NextStep(pre, ts, t);
    var tt := ts + [t];
    var h' := Compile(pre, tt).value.header;
    forall i: nat, k: nat | IfPair(tt, i, k)
      ensures i < k
      ensures Operand(pre, tt, i) < 0x1_0000 ==> JumpsTo(h', |pre|, Operand(pre, tt, i) - 1, Goal(pre, tt, k))
    {
      assert tt[..k] == ts[..k];
      if k < |ts| {
        assert IfPair(ts, i, k);
        OldIfJump(pre, ts, t, i, k);
      } else {
        assert ts[..k] == ts;
        NewIfJump(pre, ts, t, i);
      }
    }
  }

  lemma OldIfJump(pre: seq<Byte>, ts: seq<Token>, t: Token, i: nat, k: nat)
    requires Accepted(pre, ts + [t]) && Accepted(pre, ts) && Sound(pre, ts) && IfPair(ts, i, k)
    ensures i < k
    ensures Operand(pre, ts + [t], i) < 0x1_0000 ==>
      JumpsTo(Compile(pre, ts + [t]).value.header, |pre|, Operand(pre, ts + [t], i) - 1, Goal(pre, ts + [t], k))
  {
    hide Compile; hide Emit; hide Addr; hide OpenIfs; hide Shapes; hide Stacks; hide Unpatched; hide LoopJumps;
    hide JumpsTo;
    NextStep(pre, ts, t);
    ClosedStaysClosed(ts, i, k);
    OpenerBytes(pre, ts, i);
    TokenKept(pre, ts, t, i);
    var tt := ts + [t];
    assert tt[i] == ts[i] && tt[k] == ts[k];
    if Operand(pre, ts, i) < 0x1_0000 {
      JumpIsInside(Compile(pre, ts).value.header, |pre|, Operand(pre, ts, i) - 1, Goal(pre, ts, k));
      JumpKept(Compile(pre, ts).value.header, Compile(pre, tt).value.header, |pre|,
               Operand(pre, ts, i) - 1, Goal(pre, ts, k));
    }
  }

  lemma JumpIsInside(h: seq<Byte>, base: nat, p: nat, q: int)
    requires JumpsTo(h, base, p, q)
    ensures p + 1 < |h| && (h[p] == LJ ==> p + 2 < |h|)
  {
  }

  lemma NewIfJump(pre: seq<Byte>, ts: seq<Token>, t: Token, i: nat)
    requires Accepted(pre, ts + [t]) && Accepted(pre, ts) && Shapes(pre, ts) && Stacks(pre, ts)
    requires Closes(t) && OpenIfs(ts) != [] && OpenIfs(ts)[|OpenIfs(ts)| - 1] == i
    ensures i < |ts|
    ensures Operand(pre, ts + [t], i) < 0x1_0000 ==>
      JumpsTo(Compile(pre, ts + [t]).value.header, |pre|, Operand(pre, ts + [t], i) - 1, Goal(pre, ts + [t], |ts|))
  {
    hide Compile; hide Emit; hide Addr; hide OpenIfs; hide Shapes; hide JumpsTo; hide Patch; hide BackJump; hide Shape;
    NextStep(pre, ts, t);
    var tt, st := ts + [t], Compile(pre, ts).value;
    assert tt[i] == ts[i];
    EmitBytes(|pre|, st, t);
    OpensAreSane(ts);
    OpenerBytes(pre, ts, i);
    var o, h, h' := Operand(pre, ts, i), st.header, Compile(pre, tt).value.header;
    if o < 0x1_0000 {
      assert st.ifs[|st.ifs| - 1] == o;
      var goal := if t.Endif? then |h| else |h'|;
      PatchJumps(h, |pre|, o, goal);
      var p := Patch(h, |pre|, o, goal).value;
      JumpIsInside(p, |pre|, o - 1, goal);
      assert p == h'[..|h|];
      JumpKept(p, h', |pre|, o - 1, goal);
    }
  }

  lemma LoopJumpsStep(pre: seq<Byte>, ts: seq<Token>, t: Token)
    requires Accepted(pre, ts + [t]) && Accepted(pre, ts) && Sound(pre, ts)
    ensures LoopJumps(pre, ts + [t])
  {
    hide Compile; hide Emit; hide Addr; hide OpenDos; hide Shapes; hide Stacks; hide Unpatched; hide IfJumps;
    hide JumpsTo; hide BackAt;
    NextStep(pre, ts, t);
    var tt := ts + [t];
    var h' := Compile(pre, tt).value.header;
    forall i: nat, k: nat | LoopPair(tt, i, k)
      ensures i < k
      ensures Addr(pre, tt, i) < 0x1_0000 ==>
        JumpsTo(h', |pre|, BackAt(tt[k], Addr(pre, tt, k), Addr(pre, tt, k + 1)), Addr(pre, tt, i))
    {
      assert tt[..k] == ts[..k];
      if k < |ts| {
        assert LoopPair(ts, i, k);
        OldLoopJump(pre, ts, t, i, k);
      } else {
        assert ts[..k] == ts;
        NewLoopJump(pre, ts, t, i);
      }
    }
  }

  lemma OldLoopJump(pre: seq<Byte>, ts: seq<Token>, t: Token, i: nat, k: nat)
    requires Accepted(pre, ts + [t]) && Accepted(pre, ts) && Sound(pre, ts) && LoopPair(ts, i, k)
    ensures i < k
    ensures Addr(pre, ts, i) < 0x1_0000 ==>
      JumpsTo(Compile(pre, ts + [t]).value.header, |pre|,
              BackAt(ts[k], Addr(pre, ts, k), Addr(pre, ts, k + 1)), Addr(pre, ts, i))
  {
    hide Compile; hide Emit; hide Addr; hide OpenIfs; hide OpenDos; hide Stacks; hide Unpatched; hide IfJumps;
    hide JumpsTo;
    TokenKept(pre, ts, t, k);
    var h, lo, hi := Compile(pre, ts).value.header, Addr(pre, ts, k), Addr(pre, ts, k + 1);
    if Addr(pre, ts, i) < 0x1_0000 {
      assert LoopFits(pre, ts, k);
      assert Shape(h, ts[k], lo, hi);
      JumpKept(h, Compile(pre, ts + [t]).value.header, |pre|, BackAt(ts[k], lo, hi), Addr(pre, ts, i));
    }
  }

  lemma NewLoopJump(pre: seq<Byte>, ts: seq<Token>, t: Token, i: nat)
    requires Accepted(pre, ts + [t]) && Accepted(pre, ts) && Stacks(pre, ts)
    requires Loops(t) && OpenDos(ts) != [] && OpenDos(ts)[|OpenDos(ts)| - 1] == i
    ensures i < |ts|
    ensures Addr(pre, ts, i) < 0x1_0000 ==>
      JumpsTo(Compile(pre, ts + [t]).value.header, |pre|,
              BackAt(t, Addr(pre, ts + [t], |ts|), Addr(pre, ts + [t], |ts| + 1)), Addr(pre, ts, i))
  {
    hide Compile; hide Emit; hide Addr; hide OpenDos; hide OpenIfs; hide Shape; hide BackJump; hide JumpsTo;
    hide BackAt;
    NextStep(pre, ts, t);
    var st := Compile(pre, ts).value;
    EmitBytes(|pre|, st, t);
    var a := Addr(pre, ts, i);
    if a < 0x1_0000 {
      assert st.dos[|st.dos| - 1] == a;
      BackJumps(st.header, t, |pre|, a);
    }
  }

  lemma EmptyIsSound(pre: seq<Byte>)
    requires Accepted(pre, [])
    ensures Sound(pre, [])
  {
    hide Addr; hide LoopFits; hide Shape; hide JumpsTo;
  }

  lemma {:induction false} EveryProgramIsSound(pre: seq<Byte>, ts: seq<Token>)
    requires Accepted(pre, ts)
    ensures Sound(pre, ts)
    decreases |ts|
  {
    hide *;
    if ts == [] {
      EmptyIsSound(pre);
    } else {
      var n := |ts| - 1;
      var most, t := ts[..n], ts[n];
      assert ts == most + [t];
      NextStep(pre, most, t);
      EveryProgramIsSound(pre, most);
      SoundStep(pre, most, t);
    }
  }

  lemma SoundStep(pre: seq<Byte>, ts: seq<Token>, t: Token)
    requires Accepted(pre, ts + [t]) && Accepted(pre, ts) && Sound(pre, ts)
    ensures Sound(pre, ts + [t])
  {
    hide Shapes; hide Stacks; hide Unpatched; hide IfJumps; hide LoopJumps; hide Compile; hide Addr;
    ShapesStep(pre, ts, t);
    StacksStep(pre, ts, t);
    UnpatchedStep(pre, ts, t);
    IfJumpsStep(pre, ts, t);
    LoopJumpsStep(pre, ts, t);
  }

  // ---- What the interpreter does with the code of one token

  /** One interpreted instruction at p with condition flag f: jt is 39, jf 47, jmp 63 and lj 255. */
  function Go(h: seq<Byte>, base: nat, p: nat, f: bool): (q: int)
    requires p + 2 < |h|
  {
    if h[p] == 39 then (if f then ShortTarget(h, p) else p + 2)
    else if h[p] == 47 then (if !f then ShortTarget(h, p) else p + 2)
    else if h[p] == 63 then ShortTarget(h, p)
    else if h[p] == 255 then LongTarget(h, base, p)
    else p + Len(h[p])
  }

  /** Where control is after the code lo..hi of one IF, ELSE or loop token. */
  function Route(h: seq<Byte>, base: nat, lo: nat, hi: nat, f: bool): (q: int)
    requires lo <= hi < |h|
  {
    if hi < lo + 2 then lo
    else
      var q := Go(h, base, lo, f);
      if lo < q && q + 1 < hi then Go(h, base, q, f) else q
  }

  /** The finished program: END is appended. */
  ghost function Program(pre: seq<Byte>, ts: seq<Token>): (h: seq<Byte>)
    requires Accepted(pre, ts)
  {
    Compile(pre, ts).value.header + [0]
  }

  /** Whether control runs on into the token's body, as the language means it. */
  predicate RunsOn(t: Token, f: bool) {
    match t
    case If => f
    case Ifl => f
    case IfNot => !f
    case IfNotl => !f
    case While => !f
    case Until => f
    case _ => false
  }

  predicate IsLong(t: Token) { t.Ifl? || t.IfNotl? || t.Elsel? }

  /** A short jump beyond 16 bits still is right when it has nothing to skip. */
  ghost predicate NothingToSkip(pre: seq<Byte>, ts: seq<Token>, i: nat, k: nat)
    requires Accepted(pre, ts) && i < |ts| && k < |ts|
  {
    ts[k].Endif? && !IsLong(ts[i]) && Addr(pre, ts, k) == Addr(pre, ts, i + 1)
  }

  lemma TokenRoutes(h: seq<Byte>, base: nat, t: Token, lo: nat, hi: nat, target: int, f: bool)
    requires lo <= hi < |h| && Shape(h, t, lo, hi) && (Opens(t) || Elses(t) || Loops(t))
    requires JumpsTo(h, base, BackAt(t, lo, hi), target) && (target <= lo || hi <= target)
    ensures Route(h, base, lo, hi, f) == if RunsOn(t, f) then hi else target
  {
  }

  /** The opener's jump is where its code ends. */
  lemma OpenerJump(pre: seq<Byte>, ts: seq<Token>, i: nat)
    requires Accepted(pre, ts) && Shapes(pre, ts) && i < |ts| && (Opens(ts[i]) || Elses(ts[i]))
    ensures var h, lo, hi := Program(pre, ts), Addr(pre, ts, i), Addr(pre, ts, i + 1);
      lo <= hi < |h| && Shape(h, ts[i], lo, hi) && Operand(pre, ts, i) - 1 == BackAt(ts[i], lo, hi)
  {
    hide Compile; hide Addr; hide LoopFits;
    var h, lo, hi := Compile(pre, ts).value.header, Addr(pre, ts, i), Addr(pre, ts, i + 1);
    assert Shape(h, ts[i], lo, hi);
    ShapeKept(h, Program(pre, ts), ts[i], lo, hi);
  }

  /** The jump of an IF or ELSE beyond 16 bits was left as it was emitted. */
  lemma IfBeyondIsUnpatched(pre: seq<Byte>, ts: seq<Token>, i: nat, k: nat)
    requires Accepted(pre, ts) && Sound(pre, ts) && IfPair(ts, i, k) && i < k && Operand(pre, ts, i) >= 0x1_0000
    ensures JumpsTo(Compile(pre, ts).value.header, |pre|, Operand(pre, ts, i) - 1, Goal(pre, ts, k))
       <==> NothingToSkip(pre, ts, i, k)
  {
    hide Compile; hide Addr; hide OpenIfs; hide Stacks; hide IfJumps; hide LoopJumps; hide LoopFits;
    ClosedStaysClosed(ts, i, k);
    OpenerBytes(pre, ts, i);
    AddrOfPrefix(pre, ts, i + 1, k);
    assert Shape(Compile(pre, ts).value.header, ts[i], Addr(pre, ts, i), Addr(pre, ts, i + 1));
    assert Shape(Compile(pre, ts).value.header, ts[k], Addr(pre, ts, k), Addr(pre, ts, k + 1));
  }

  /**
   Every IF, IFNOT, IFL, IFNOTL, ELSE and ELSEL with its matching ELSE or ENDIF: its jump
   goes to the right place exactly when its operand lies below 65536 or there is nothing
   to skip.
   */
  lemma IfIsRightIff(pre: seq<Byte>, ts: seq<Token>, i: nat, k: nat)
    requires Accepted(pre, ts) && IfPair(ts, i, k)
    ensures i < k && (Opens(ts[i]) || Elses(ts[i]))
    ensures JumpsTo(Program(pre, ts), |pre|, Operand(pre, ts, i) - 1, Goal(pre, ts, k))
       <==> (Operand(pre, ts, i) < 0x1_0000 || NothingToSkip(pre, ts, i, k))
  {
    hide Compile; hide Addr; hide OpenIfs; hide JumpsTo; hide NothingToSkip; hide LoopFits;
    hide Shapes; hide Stacks; hide Unpatched; hide LoopJumps; hide Goal;
    EveryProgramIsSound(pre, ts);
    ClosedStaysClosed(ts, i, k);
    OpenerBytes(pre, ts, i);
    if Operand(pre, ts, i) >= 0x1_0000 {
      IfBeyondIsUnpatched(pre, ts, i, k);
    }
    SameJump(Compile(pre, ts).value.header, 0, |pre|, Operand(pre, ts, i) - 1, Goal(pre, ts, k));
  }

  lemma SameJump(h: seq<Byte>, x: Byte, base: nat, p: nat, q: int)
    requires p + 1 < |h| && (h[p] == LJ ==> p + 2 < |h|)
    ensures JumpsTo(h + [x], base, p, q) == JumpsTo(h, base, p, q)
  {
  }

  /** The interpreter, at an IF or ELSE: into the body, or behind the ELSE's jump or to the ENDIF. */
  lemma IfFlow(pre: seq<Byte>, ts: seq<Token>, i: nat, k: nat, f: bool)
    requires Accepted(pre, ts) && IfPair(ts, i, k)
    requires Operand(pre, ts, i) < 0x1_0000 || NothingToSkip(pre, ts, i, k)
    ensures Addr(pre, ts, i) <= Addr(pre, ts, i + 1) <= Goal(pre, ts, k) < |Program(pre, ts)|
    ensures Route(Program(pre, ts), |pre|, Addr(pre, ts, i), Addr(pre, ts, i + 1), f)
         == if RunsOn(ts[i], f) then Addr(pre, ts, i + 1) else Goal(pre, ts, k)
  {
    hide Compile; hide Addr; hide OpenIfs; hide JumpsTo; hide NothingToSkip; hide LoopFits; hide IfPair;
    hide Shapes; hide Stacks; hide Unpatched; hide LoopJumps; hide IfJumps; hide Route; hide RunsOn; hide Shape;
    EveryProgramIsSound(pre, ts);
    IfIsRightIff(pre, ts, i, k);
    KIsToken(ts, i, k);
    OpenerJump(pre, ts, i);
    AddrOfPrefix(pre, ts, i + 1, k);
    AddrOfPrefix(pre, ts, k, k + 1);
    TokenRoutes(Program(pre, ts), |pre|, ts[i], Addr(pre, ts, i), Addr(pre, ts, i + 1), Goal(pre, ts, k), f);
  }

  lemma KIsToken(ts: seq<Token>, i: nat, k: nat)
    requires IfPair(ts, i, k)
    ensures k < |ts|
  {
  }

  /**
   WHILE, UNTIL and FOREVER with their DO: the code is a whole jump back to the DO exactly
   when the DO lies below 65536.
   */
  lemma LoopIsRightIff(pre: seq<Byte>, ts: seq<Token>, i: nat, k: nat)
    requires Accepted(pre, ts) && LoopPair(ts, i, k)
    ensures i < k
    ensures var h, lo, hi := Program(pre, ts), Addr(pre, ts, k), Addr(pre, ts, k + 1);
      && lo <= hi < |h|
      && (Addr(pre, ts, i) < 0x1_0000 <==>
            Shape(h, ts[k], lo, hi) && JumpsTo(h, |pre|, BackAt(ts[k], lo, hi), Addr(pre, ts, i)))
  {
    hide Compile; hide Addr; hide OpenDos; hide JumpsTo; hide Stacks; hide Unpatched; hide IfJumps;
    EveryProgramIsSound(pre, ts);
    var h, lo, hi := Compile(pre, ts).value.header, Addr(pre, ts, k), Addr(pre, ts, k + 1);
    assert Shape(h, ts[k], lo, hi) <==> LoopFits(pre, ts, k);
    AddrOfPrefix(pre, ts, k, k + 1);
    ShapeKept(h, Program(pre, ts), ts[k], lo, hi);
    if Addr(pre, ts, i) < 0x1_0000 {
      SameJump(h, 0, |pre|, BackAt(ts[k], lo, hi), Addr(pre, ts, i));
    }
  }

  /** The interpreter, at the end of a loop: back to the DO or on. */
  lemma LoopFlow(pre: seq<Byte>, ts: seq<Token>, i: nat, k: nat, f: bool)
    requires Accepted(pre, ts) && LoopPair(ts, i, k) && Addr(pre, ts, i) < 0x1_0000
    ensures Addr(pre, ts, i) <= Addr(pre, ts, k) <= Addr(pre, ts, k + 1) < |Program(pre, ts)|
    ensures Route(Program(pre, ts), |pre|, Addr(pre, ts, k), Addr(pre, ts, k + 1), f)
         == if RunsOn(ts[k], f) then Addr(pre, ts, k + 1) else Addr(pre, ts, i)
  {
    hide Compile; hide Addr; hide OpenDos; hide JumpsTo; hide Route; hide RunsOn; hide Shape;
    LoopIsRightIff(pre, ts, i, k);
    AddrOfPrefix(pre, ts, i, k);
    TokenRoutes(Program(pre, ts), |pre|, ts[k], Addr(pre, ts, k), Addr(pre, ts, k + 1), Addr(pre, ts, i), f);
  }

  // ---- Instruction boundaries

  /** Reading instruction by instruction from p arrives at q. */
  predicate Arrives(h: seq<Byte>, p: nat, q: nat)
    requires p <= q <= |h|
    decreases q - p
  {
    p == q || (p + Len(h[p]) <= q && Arrives(h, p + Len(h[p]), q))
  }

  lemma {:induction false} ArrivesOn(h: seq<Byte>, p: nat, q: nat, r: nat)
    requires p <= q <= r <= |h| && Arrives(h, p, q) && Arrives(h, q, r)
    ensures Arrives(h, p, r)
    decreases q - p
  {
    if p < q {
      ArrivesOn(h, p + Len(h[p]), q, r);
    }
  }

  lemma ShapeArrives(h: seq<Byte>, t: Token, lo: nat, hi: nat)
    requires lo <= hi <= |h| && Shape(h, t, lo, hi)
    ensures Arrives(h, lo, hi)
    ensures Opens(t) || Elses(t) || Loops(t) ==> lo <= BackAt(t, lo, hi) <= hi && Arrives(h, lo, BackAt(t, lo, hi))
  {
    if hi == lo + 5 && !t.Plain? {
      assert Arrives(h, lo + 5, hi);
      assert Arrives(h, lo + 2, hi);
    }
  }

  /** As long as every loop so far began below 65536, each token starts at an instruction. */
  lemma {:induction false} TokensAreInstructions(pre: seq<Byte>, ts: seq<Token>, j: nat)
    requires Accepted(pre, ts) && j <= |ts|
    requires forall k: nat :: k < j && Loops(ts[k]) ==> LoopFits(pre, ts, k)
    ensures Arrives(Program(pre, ts), |pre|, Addr(pre, ts, j))
  {
    if j > 0 {
      hide *;
      var h, lo, hi := Program(pre, ts), Addr(pre, ts, j - 1), Addr(pre, ts, j);
      TokensAreInstructions(pre, ts, j - 1);
      TokenHasShape(pre, ts, j - 1);
      ShapeArrives(h, ts[j - 1], lo, hi);
      ArrivesOn(h, |pre|, lo, hi);
    } else {
      assert ts[..0] == [];
    }
  }

  lemma TokenHasShape(pre: seq<Byte>, ts: seq<Token>, j: nat)
    requires Accepted(pre, ts) && j < |ts| && (Loops(ts[j]) ==> LoopFits(pre, ts, j))
    ensures Addr(pre, ts, j) <= Addr(pre, ts, j + 1) < |Program(pre, ts)|
    ensures Shape(Program(pre, ts), ts[j], Addr(pre, ts, j), Addr(pre, ts, j + 1))
  {
    hide Compile; hide Addr; hide Shape; hide LoopFits; hide Stacks; hide Unpatched; hide IfJumps; hide LoopJumps;
    EveryProgramIsSound(pre, ts);
    ShapeKept(Compile(pre, ts).value.header, Program(pre, ts), ts[j], Addr(pre, ts, j), Addr(pre, ts, j + 1));
  }

  // ---- A program whose loop is compiled wrongly

  function Run(n: nat): (ts: seq<Token>)
    ensures |ts| == n
  {
    if n == 0 then [] else Run(n - 1) + [Plain(1, [])]
  }

  function Ones(n: nat): (s: seq<Byte>)
    ensures |s| == n
  {
    if n == 0 then [] else Ones(n - 1) + [1]
  }

  lemma OneMore(pre: seq<Byte>, ts: seq<Token>, t: Token)
    requires Compile(pre, ts).Ok?
    ensures Compile(pre, ts + [t]) == Step(|pre|, Compile(pre, ts).value, t)
  {
    hide Step;
    assert (ts + [t])[..|ts|] == ts;
  }

  lemma PlainStep(base: nat, s: State)
    requires base <= |s.header| < MAX_END
    ensures Step(base, s, Plain(1, [])) == Ok(s.(header := s.header + [1]))
  {
    hide Patch; hide BackJump;
    var none: seq<Byte> := [];
    assert s.header + [1] + none == s.header + [1];
  }

  lemma {:induction false} RunCompiles(pre: seq<Byte>, n: nat)
    requires |pre| + n <= MAX_END
    ensures Compile(pre, Run(n)) == Ok(State(pre + Ones(n), [], []))
  {
    hide Compile; hide Step;
    if n > 0 {
      RunCompiles(pre, n - 1);
      OneMore(pre, Run(n - 1), Plain(1, []));
      PlainStep(|pre|, State(pre + Ones(n - 1), [], []));
      assert pre + Ones(n - 1) + [1] == pre + Ones(n);
    } else {
      NoTokens(pre);
      assert pre + Ones(0) == pre;
    }
  }

  lemma NoTokens(pre: seq<Byte>)
    ensures Compile(pre, []) == Ok(State(pre, [], []))
  {
  }

  lemma {:induction false} RunOpensNothing(n: nat)
    ensures OpenIfs(Run(n)) == [] && OpenDos(Run(n)) == []
  {
    if n > 0 {
      assert Run(n)[..n - 1] == Run(n - 1);
      RunOpensNothing(n - 1);
    }
  }

  lemma DoStep(base: nat, s: State)
    requires base <= |s.header| <= MAX_END && s.dos == []
    ensures Step(base, s, Do) == Ok(s.(dos := [|s.header| % 0x1_0000]))
  {
    hide Patch; hide BackJump;
    assert s.dos + [|s.header| % 0x1_0000] == [|s.header| % 0x1_0000];
  }

  /** What a FOREVER at 65536 makes of a DO there. */
  lemma ForeverStep(s: State)
    requires |s.header| == 0x1_0000 && s.dos == [0]
    ensures Step(136, s, Forever) == Ok(s.(header := s.header + [LJ, 120], dos := []))
  {
    hide Patch;
    assert BackJump(Forever, 136, 0x1_0000, 0) == [LJ, 120];
    assert Pop(s.dos) == [];
  }

  /** 65400 one-byte instructions, then DO FOREVER: accepted, and FOREVER loses its last byte. */
  lemma LoopBeyond(pre: seq<Byte>)
    requires |pre| == 136
    ensures var ts := Run(65400) + [Do] + [Forever];
      && Accepted(pre, ts) && LoopPair(ts, 65400, 65401) && Addr(pre, ts, 65400) == 0x1_0000
      && Addr(pre, ts, 65402) == Addr(pre, ts, 65401) + 2
      && !Shape(Program(pre, ts), Forever, Addr(pre, ts, 65401), Addr(pre, ts, 65402))
  {
    hide Run; hide Ones; hide Compile; hide OpenDos; hide Step;
    RunCompiles(pre, 65400);
    var run := Run(65400);
    var s := State(pre + Ones(65400), [], []);
    OneMore(pre, run, Do);
    DoStep(136, s);
    OneMore(pre, run + [Do], Forever);
    ForeverStep(s.(dos := [0]));
    var ts := run + [Do] + [Forever];
    assert ts[..65401] == run + [Do] && ts[..65402] == ts && ts[..65400] == run;
    OpensDo(run);
  }

  lemma {:induction false} OpensDo(run: seq<Token>)
    requires run == Run(|run|)
    ensures OpenDos(run + [Do]) == [|run|]
  {
    hide Run; hide OpenDos;
    RunOpensNothing(|run|);
    OpenNext(run, Do);
  }

  lemma IfStep(base: nat, s: State)
    requires base <= |s.header| <= MAX_END - 2 && s.ifs == []
    ensures Step(base, s, If) == Ok(s.(header := s.header + [JF, 0], ifs := [(|s.header| + 1) % 0x1_0000]))
  {
    hide Patch; hide BackJump;
    assert s.ifs + [(|s.header| + 1) % 0x1_0000] == [(|s.header| + 1) % 0x1_0000];
  }

  lemma EndifStep(base: nat, s: State, a: nat)
    requires base <= |s.header| <= MAX_END && s.ifs == [a] && Patch(s.header, base, a, |s.header|).Ok?
    ensures Step(base, s, Endif) == Ok(s.(header := Patch(s.header, base, a, |s.header|).value, ifs := []))
  {
    hide Patch; hide BackJump;
  }

  lemma {:induction false} OpenNext(ts: seq<Token>, t: Token)
    ensures Opens(t) ==> OpenIfs(ts + [t]) == OpenIfs(ts) + [|ts|]
    ensures t.Plain? ==> OpenIfs(ts + [t]) == OpenIfs(ts)
    ensures t.Do? ==> OpenDos(ts + [t]) == OpenDos(ts) + [|ts|]
  {
    assert (ts + [t])[..|ts|] == ts;
  }

  lemma {:induction false} OpensIf(run: seq<Token>)
    requires run == Run(|run|)
    ensures OpenIfs(run + [If] + [Plain(1, [])]) == [|run|]
  {
    hide Run; hide OpenIfs;
    RunOpensNothing(|run|);
    OpenNext(run, If);
    OpenNext(run + [If], Plain(1, []));
  }

  /** The program of IfBeyond. */
  function Beyond(): (ts: seq<Token>) { Run(65406) + [If] + [Plain(1, [])] + [Endif] }

  lemma BeyondCompiles(pre: seq<Byte>)
    requires |pre| == 142 && pre[12] == LJ
    ensures var ts, h := Beyond(), pre + Ones(65406) + [JF, 0] + [1];
      && |ts| == 65409 && Compile(pre, ts) == Ok(State(h[13 := 129][14 := 255], [], []))
      && Compile(pre, ts[..65408]) == Ok(State(h, [13], []))
      && Compile(pre, ts[..65407]).Ok? && |Compile(pre, ts[..65407]).value.header| == 65550
      && Compile(pre, ts[..65406]).Ok? && |Compile(pre, ts[..65406]).value.header| == 65548
  {
    hide Run; hide Ones; hide Compile; hide Step; hide Patch;
    RunCompiles(pre, 65406);
    var run := Run(65406);
    var s := State(pre + Ones(65406), [], []);
    OneMore(pre, run, If);
    IfStep(142, s);
    var s1 := s.(header := s.header + [JF, 0], ifs := [13]);
    OneMore(pre, run + [If], Plain(1, []));
    PlainStep(142, s1);
    var s2 := s1.(header := s1.header + [1]);
    OneMore(pre, run + [If] + [Plain(1, [])], Endif);
    WrappedPatch(s2.header, 142, 0x1_000D, 65551);
    EndifStep(142, s2, 13);
    var ts := Beyond();
    assert ts[..65408] == run + [If] + [Plain(1, [])] && ts[..65407] == run + [If] && ts[..65406] == run;
  }

  /**
   65406 one-byte instructions, then IF A++ ENDIF, behind a COMP section whose byte 12 is
   255: accepted, but the IF does not reach its ENDIF, and bytes 13 and 14 are overwritten.
   */
  lemma IfBeyond(pre: seq<Byte>)
    requires |pre| == 142 && pre[12] == LJ
    ensures var ts := Beyond();
      && Accepted(pre, ts) && IfPair(ts, 65406, 65408) && Operand(pre, ts, 65406) == 0x1_000D
      && !JumpsTo(Program(pre, ts), |pre|, 0x1_000C, Goal(pre, ts, 65408))
      && Before(pre, ts) == pre[13 := 129][14 := 255]
  {
    hide Run; hide Ones; hide Compile; hide OpenIfs; hide JumpsTo;
    var ts := Beyond();
    BeyondCompiles(pre);
    OpensIf(Run(65406));
    assert ts[..65408] == Run(65406) + [If] + [Plain(1, [])];
    assert ts[65406] == If && ts[65408] == Endif;
    IfIsRightIff(pre, ts, 65406, 65408);
  }

  // ---- The compiler itself

  /** -1, or a byte. */
  type OptByte = x: int | -1 <= x < 256

  /** The opcode and operands that a turn of the loop writes at its end. */
  datatype Coded = Coded(op: OptByte, operand: OptByte, operand2: OptByte) {
    function Bytes(): seq<Byte> {
      (if op < 0 then [] else [op])
      + (if operand < 0 then [] else [operand])
      + (if operand2 < 0 then [] else [operand2])
    }
    lemma Empty() ensures op < 0 && operand < 0 && operand2 < 0 ==> Bytes() == [] { }
    lemma OfPlain(o: Byte, args: seq<Byte>)
      requires |args| < 3 && op == o && operand == (if |args| > 0 then args[0] else -1)
      requires operand2 == if |args| > 1 then args[1] else -1
      ensures Bytes() == [o] + args
    {
    }
  }

  lemma ShortBack(t: Token, base: nat, hend: nat, a: nat, c: Coded)
    requires Loops(t) && a - hend - 2 >= -127
    requires c == Coded(if t.While? then 39 else if t.Until? then 47 else 63, (a - hend - 2) % 256, -1)
    ensures BackJump(t, base, hend, a) == c.Bytes()
  {
  }

  lemma EmitLoop(base: nat, s: State, t: Token)
    requires Loops(t) && base <= |s.header|
    ensures Emit(base, s, t)
         == if s.dos == [] then Fail(Unmatched)
            else Ok(s.(header := s.header + BackJump(t, base, |s.header|, s.dos[|s.dos| - 1]), dos := Pop(s.dos)))
  {
    hide BackJump; hide Patch;
  }

  class Compiler {
    const hbegin: nat
    var header: seq<Byte>
    var ifStack: seq<nat>
    var doStack: seq<nat>

    ghost function Value(): State reads this { State(header, ifStack, doStack) }

    constructor (pre: seq<Byte>)
      ensures hbegin == |pre| && Value() == State(pre, [], [])
    {
      hbegin := |pre|;
      header, ifStack, doStack := pre, [], [];
    }

    /** `header[hend++]=x`, where a negative operand is not written. */
    method Put(x: int)
      requires -1 <= x < 256
      modifies this`header
      ensures header == if x < 0 then old(header) else old(header) + [x]
    {
      if x >= 0 {
        header := header + [x];
      }
    }

    /** The operand of the jump on top of the IF stack now leads to `target`. */
    method PatchTop(target: nat) returns (r: Result<()>)
      requires hbegin <= |header| <= target
      modifies this`header, this`ifStack
      ensures old(ifStack) == [] ==> r == Fail(Unmatched)
      ensures old(ifStack) != [] ==>
        && var p := Patch(old(header), hbegin, old(ifStack)[|old(ifStack)| - 1], target);
          if p.Fail? then r == Fail(p.error) else r.Ok? && header == p.value && ifStack == Pop(old(ifStack))
    {
      if ifStack == [] {
        return Fail(Unmatched);
      }
      var a := ifStack[|ifStack| - 1];
      ifStack := Pop(ifStack);
      if a == 0 || a >= |header| {
        return Fail(OutOfBounds);
      }
      if header[a - 1] != LJ {
        var j := target - a - 1;
        if j > 127 {
          return Fail(IfTooBig);
        }
        header := header[a := j];
      } else {
        if a + 1 >= |header| {
          return Fail(OutOfBounds);
        }
        var j := target - hbegin;
        header := header[a := j % 256];
        header := header[a + 1 := j / 256 % 256];
      }
      return Ok(());
    }

    method SaveIf() returns (r: Result<()>)
      modifies this`ifStack
      ensures var p := Push(old(ifStack), |header| + 1);
        if p.Fail? then r == Fail(p.error) else r.Ok? && ifStack == p.value
    {
      if |ifStack| >= 1000 {
        return Fail(NestedTooDeep);
      }
      ifStack := ifStack + [(|header| + 1) % 0x1_0000];
      return Ok(());
    }

    /** What is left to write completes the code of t. */
    ghost predicate Completes(h: seq<Byte>, before: State, t: Token, r: Result<Coded>)
      requires hbegin <= |before.header|
      reads this`ifStack, this`doStack
    {
      var want := Emit(hbegin, before, t);
      if want.Fail? then r == Fail(want.error)
      else r.Ok? && State(h + r.value.Bytes(), ifStack, doStack) == want.value
    }

    method OpenIf(t: Token) returns (r: Result<Coded>)
      requires Opens(t) && hbegin <= |header|
      modifies this`header, this`ifStack
      ensures Completes(header, old(Value()), t, r)
    {
      hide Patch; hide BackJump;
      match t {
        case If => r := Ok(Coded(47, 0, -1));
        case IfNot => r := Ok(Coded(39, 0, -1));
        case Ifl =>
          header := header + [JT];
          header := header + [3];
          r := Ok(Coded(255, 0, 0));
        case IfNotl =>
          header := header + [JF];
          header := header + [3];
          r := Ok(Coded(255, 0, 0));
      }
      var _ :- SaveIf();
    }

    method CloseIf(t: Token) returns (r: Result<Coded>)
      requires Closes(t) && hbegin <= |header|
      modifies this`header, this`ifStack
      ensures Completes(header, old(Value()), t, r)
    {
      hide Patch; hide BackJump;
      if t.Endif? {
        var _ :- PatchTop(|header|);
        return Ok(Coded(-1, -1, -1));
      }
      r := Ok(if t.Else? then Coded(63, 0, -1) else Coded(255, 0, 0));
      var _ :- PatchTop(|header| + 2 + if t.Elsel? then 1 else 0);
      var _ :- SaveIf();
    }

    /** WHILE, UNTIL or FOREVER, up to its last opcode and operands. */
    method EndLoop(t: Token) returns (r: Result<Coded>)
      requires Loops(t) && hbegin <= |header|
      modifies this`header, this`doStack
      ensures Completes(header, old(Value()), t, r)
    {
      hide Emit; hide BackJump; hide Coded.Bytes;
      EmitLoop(hbegin, Value(), t);
      if doStack == [] {
        return Fail(Unmatched);
      }
      var a := doStack[|doStack| - 1];
      doStack := Pop(doStack);
      var j := a - |header| - 2;
      if j >= -127 {
        r := Ok(Coded(if t.While? then 39 else if t.Until? then 47 else 63, j % 256, -1));
        ShortBack(t, hbegin, |header|, a, r.value);
      } else {
        var c := LongBack(t, a);
        r := Ok(c);
      }
    }

    method LongBack(t: Token, a: nat) returns (c: Coded)
      requires Loops(t) && a - |header| - 2 < -127
      modifies this`header
      ensures header + c.Bytes() == old(header) + BackJump(t, hbegin, |old(header)|, a)
    {
      ghost var h := header;
      var j := a - hbegin;
      if t.While? {
        header := header + [JF];
        header := header + [3];
      }
      if t.Until? {
        header := header + [JT];
        header := header + [3];
      }
      var high := j / 256;
      c := Coded(255, j % 256, if high < 0 then -1 else high % 256);
      assert header + c.Bytes() == h + BackJump(t, hbegin, |h|, a);
    }

    /** One turn of the loop in `compile_comp`. */
    method CompileToken(t: Token) returns (r: Result<()>)
      requires hbegin <= |header|
      modifies this
      ensures var want := Step(hbegin, old(Value()), t);
        if want.Fail? then r == Fail(want.error) else r.Ok? && Value() == want.value
    {
      hide Patch; hide BackJump; hide Coded.Bytes;
      var c := Coded(-1, -1, -1);
      if Opens(t) {
        hide Emit;
        c :- OpenIf(t);
      } else if Closes(t) {
        hide Emit;
        c :- CloseIf(t);
      } else if t.Do? {
        if |doStack| >= 1000 {
          return Fail(NestedTooDeep);
        }
        doStack := doStack + [|header| % 0x1_0000];
        c.Empty();
      } else if t.Plain? {
        if |t.args| + 1 != Len(t.op) {
          return Fail(BadOperand);
        }
        c := Coded(t.op, if |t.args| > 0 then t.args[0] else -1, if |t.args| > 1 then t.args[1] else -1);
        c.OfPlain(t.op, t.args);
        assert header + [t.op] + t.args == header + c.Bytes();
      } else {
        hide Emit;
        c :- EndLoop(t);
      }
      assert Completes(header, old(Value()), t, Ok(c));
      Write(c);
      if |header| > MAX_END {
        return Fail(ProgramTooBig);
      }
      return Ok(());
    }

    method Write(c: Coded)
      modifies this`header
      ensures header == old(header) + c.Bytes()
    {
      Put(c.op);
      Put(c.operand);
      Put(c.operand2);
    }

    /** Compiles the whole program, from whatever the stacks hold, and appends END. */
    method CompileComp(ts: seq<Token>) returns (r: Result<()>)
      requires hbegin == |header|
      modifies this
      ensures var want := CompileFrom(old(Value()), ts);
        if want.Fail? then r == Fail(want.error)
        else r.Ok? && Value() == want.value.(header := want.value.header + [0])
    {
      hide Step;
      ghost var s0 := Value();
      var n := 0;
      while n < |ts|
        invariant n <= |ts| && |s0.header| == hbegin
        invariant CompileFrom(s0, ts[..n]) == Ok(Value())
      {
        assert ts[..n + 1][..n] == ts[..n];
        var e := CompileToken(ts[n]);
        n := n + 1;
        if e.Fail? {
          FailureStays(s0, ts, n);
          return e;
        }
      }
      assert ts[..n] == ts;
      header := header + [0];
      return Ok(());
    }
  }

  /** Once a token is refused, the program is. */
  lemma {:induction false} FailureStays(s0: State, ts: seq<Token>, n: nat)
    requires n <= |ts| && CompileFrom(s0, ts[..n]).Fail?
    ensures CompileFrom(s0, ts) == Fail(CompileFrom(s0, ts[..n]).error)
    decreases |ts|
  {
    hide Step;
    if n == |ts| {
      assert ts[..n] == ts;
    } else {
      assert ts[..|ts| - 1][..n] == ts[..n];
      FailureStays(s0, ts[..|ts| - 1], n);
    }
  }

  /** From empty stacks the compiler yields `Program`, of which the theorems above speak. */
  method CompileProgram(pre: seq<Byte>, ts: seq<Token>) returns (r: Result<seq<Byte>>)
    requires |pre| >= 136
    ensures r.Ok? <==> Accepted(pre, ts)
    ensures r.Ok? ==> r.value == Program(pre, ts)
  {
    hide CompileFrom; hide Compile;
    var c := new Compiler(pre);
    CompileFromEmpty(pre, ts);
    var _ :- c.CompileComp(ts);
    r := Ok(c.header);
  }
}
