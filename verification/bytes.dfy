/** Bytes and the few values every module of the model shares. */
module Bytes {

  /** An octet, as a number: arithmetic on it is integer arithmetic. */
  type byte = x: int | 0 <= x < 256

  type bytes = seq<byte>

  datatype Option<+T> = None | Some(value: T)

  /** What may fail, and with `:-` passes the failure on as `?` does. */
  datatype Result<+T, +E> = Ok(value: T) | Err(error: E) {
    predicate IsFailure() { Err? }

    function PropagateFailure<U>(): Result<U, E>
      requires Err?
    {
      Err(error)
    }

    function Extract(): T
      requires Ok?
    {
      value
    }
  }

  /** ASCII digits. */
  predicate IsDigit(b: byte) { 0x30 <= b <= 0x39 }

  predicate AllDigits(s: bytes) { forall i :: 0 <= i < |s| ==> IsDigit(s[i]) }

  // ---------------------------------------------------------------------
  // Sequences
  // ---------------------------------------------------------------------

  /** The pieces of a stream, as one. */
  function Flat(chunks: seq<bytes>): bytes {
    if chunks == [] then [] else chunks[0] + Flat(chunks[1..])
  }

  lemma {:induction false} FlatAdds(chunks: seq<bytes>, more: seq<bytes>)
    ensures Flat(chunks + more) == Flat(chunks) + Flat(more)
    decreases |chunks|
  {
    if chunks == [] {
      assert chunks + more == more;
    } else {
      FlatAdds(chunks[1..], more);
      assert (chunks + more)[1..] == chunks[1..] + more;
      Associates(chunks[0], Flat(chunks[1..]), Flat(more));
    }
  }

  lemma Associates(a: bytes, b: bytes, c: bytes)
    ensures a + b + c == a + (b + c)
  {
  }

  lemma FlatOne(chunk: bytes)
    ensures Flat([chunk]) == chunk
  {
    assert [chunk][1..] == [];
    assert chunk + [] == chunk;
  }

  /** How often a value occurs. */
  function Occurs(s: seq<nat>, a: nat): nat {
    if s == [] then 0 else Occurs(s[..|s| - 1], a) + (if s[|s| - 1] == a then 1 else 0)
  }

  lemma {:induction false} OccursAppends(s: seq<nat>, t: seq<nat>, a: nat)
    ensures Occurs(s + t, a) == Occurs(s, a) + Occurs(t, a)
  {
    if t == [] {
      assert s + t == s;
    } else {
      assert (s + t)[..|s + t| - 1] == s + t[..|t| - 1];
      OccursAppends(s, t[..|t| - 1], a);
    }
  }

  lemma {:induction false} OccursWhen(s: seq<nat>, a: nat)
    ensures Occurs(s, a) > 0 <==> a in s
  {
    if s != [] {
      OccursWhen(s[..|s| - 1], a);
      assert s == s[..|s| - 1] + [s[|s| - 1]];
    }
  }
}
