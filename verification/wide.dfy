/** Whole numbers as their bytes, the highest first. */
module Wide {
  import opened Bytes

  function Pow256(n: nat): (r: nat)
    ensures r > 0
  {
    if n == 0 then 1 else 256 * Pow256(n - 1)
  }

  /** The number its bytes write: folding them with shifts. */
  function Number(s: bytes): nat {
    if s == [] then 0
    else
      var last: int := s[|s| - 1];
      256 * Number(s[..|s| - 1]) + last
  }

  /** `n` in `size` bytes, dropping what is above them: `to_be_bytes`. */
  function Written(n: nat, size: nat): (s: bytes)
    ensures |s| == size
  {
    if size == 0 then [] else Written(n / 256, size - 1) + [n % 256]
  }

  lemma {:induction false} WrittenReads(n: nat, size: nat)
    requires n < Pow256(size)
    ensures Number(Written(n, size)) == n
  {
    if size > 0 {
      WrittenReads(n / 256, size - 1);
      assert Written(n, size)[..size - 1] == Written(n / 256, size - 1);
    }
  }

  lemma {:induction false} NumberBound(s: bytes)
    ensures Number(s) < Pow256(|s|)
  {
    if s != [] { NumberBound(s[..|s| - 1]); }
  }

  /** The bytes from the first that is not zero on. */
  function Significant(s: bytes): (r: bytes)
    ensures |r| <= |s|
  {
    if s != [] && s[0] == 0 then Significant(s[1..]) else s
  }

  lemma {:induction false} ZeroFirst(s: bytes)
    requires s != [] && s[0] == 0
    ensures Number(s) == Number(s[1..])
  {
    if |s| > 1 {
      var front := s[..|s| - 1];
      ZeroFirst(front);
      assert s[1..][..|s| - 2] == front[1..];
    }
  }

  lemma {:induction false} SignificantReads(s: bytes)
    ensures Number(Significant(s)) == Number(s)
    ensures Significant(Significant(s)) == Significant(s)
  {
    if s != [] && s[0] == 0 {
      ZeroFirst(s);
      SignificantReads(s[1..]);
    }
  }
}
