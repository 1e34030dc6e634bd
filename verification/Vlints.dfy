/**
 The variable-length integers of precomp: a bijection between the naturals and terminated
 byte strings.
 */
module Vlints {
  import opened Bytes
  import opened Wrappers

  /** What `fout_fput_vlint` writes. */
  function Vlint(v: nat): (s: seq<Byte>)
    ensures |s| >= 1
  {
    if v < 128 then [v] else [v % 128 + 128] + Vlint(v / 128 - 1)
  }

  datatype Number = Number(value: nat, size: nat)

  /** The number at the front of s and how many bytes it takes. */
  function Unvlint(s: seq<Byte>): (r: Option<Number>)
    ensures r.Some? ==> 1 <= r.value.size <= |s|
    decreases |s|
  {
    if s == [] then None
    else if s[0] < 128 then Some(Number(s[0], 1))
    else match Unvlint(s[1..])
      case None => None
      case Some(n) => Some(Number(s[0] - 128 + 128 * (n.value + 1), n.size + 1))
  }

  /** Bytes that end a number: the last one below 128 and no other. */
  predicate Terminated(s: seq<Byte>) {
    && s != [] && s[|s| - 1] < 128
    && forall i :: 0 <= i < |s| - 1 ==> s[i] >= 128
  }

  lemma {:induction false} VlintReadsBack(v: nat, rest: seq<Byte>)
    ensures Unvlint(Vlint(v) + rest) == Some(Number(v, |Vlint(v)|))
  {
    var s := Vlint(v) + rest;
    if v >= 128 {
      VlintReadsBack(v / 128 - 1, rest);
      assert s[1..] == Vlint(v / 128 - 1) + rest;
    }
  }

  /** Every terminated byte string is the code of exactly one number. */
  lemma {:induction false} VlintIsOnto(s: seq<Byte>)
    requires Terminated(s)
    ensures Unvlint(s).Some? && Unvlint(s).value.size == |s| && Vlint(Unvlint(s).value.value) == s
    decreases |s|
  {
    if s[0] >= 128 {
      VlintIsOnto(s[1..]);
      var n := Unvlint(s[1..]).value.value;
      var v := s[0] - 128 + 128 * (n + 1);
      assert v / 128 == n + 1 && v % 128 == s[0] - 128;
      assert s == [s[0]] + s[1..];
    } else {
      assert s == [s[0]];
    }
  }

  lemma {:induction false} VlintIsTerminated(v: nat)
    ensures Terminated(Vlint(v))
  {
    if v >= 128 {
      VlintIsTerminated(v / 128 - 1);
    }
  }
}
