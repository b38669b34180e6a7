/**
  The two `std::accumulate` folds of src/common/functionalities.cpp: the
  integer sum of the per-pair keys and of the per-party results, and the XOR
  of the equality protocol's result shares.
*/
module Accumulate {

  type u8 = bv8

  /** `std::accumulate(first, last, 0)`, left to right. */
  function Sum(s: seq<int>): int {
    if s == [] then 0 else Sum(s[..|s| - 1]) + s[|s| - 1]
  }

  /** The sum of every entry of a table, row after row. */
  function SumRows(t: seq<seq<int>>): int {
    if t == [] then 0 else SumRows(t[..|t| - 1]) + Sum(t[|t| - 1])
  }

  lemma {:induction false} SumAppend(a: seq<int>, b: seq<int>)
    ensures Sum(a + b) == Sum(a) + Sum(b)
  {
    if b == [] {
      assert a + b == a;
    } else {
      assert (a + b)[..|a + b| - 1] == a + b[..|b| - 1];
      SumAppend(a, b[..|b| - 1]);
    }
  }

  /** Changing one entry changes the sum by the difference. */
  lemma {:induction false} SumUpdate(s: seq<int>, i: nat, v: int)
    requires i < |s|
    ensures Sum(s[i := v]) == Sum(s) - s[i] + v
  {
    var n := |s|;
    var u := s[i := v];
    if i == n - 1 {
      assert u[..n - 1] == s[..n - 1];
    } else {
      assert u[..n - 1] == s[..n - 1][i := v];
      SumUpdate(s[..n - 1], i, v);
    }
  }

  /** Changing one row changes the table's sum by the difference of the row sums. */
  lemma {:induction false} SumRowsUpdate(t: seq<seq<int>>, i: nat, row: seq<int>)
    requires i < |t|
    ensures SumRows(t[i := row]) == SumRows(t) - Sum(t[i]) + Sum(row)
  {
    var n := |t|;
    var u := t[i := row];
    if i == n - 1 {
      assert u[..n - 1] == t[..n - 1];
    } else {
      assert u[..n - 1] == t[..n - 1][i := row];
      SumRowsUpdate(t[..n - 1], i, row);
    }
  }

  /** `std::accumulate(first, last, 0, std::bit_xor<>())` over 8-bit shares. */
  function XorFold(s: seq<u8>): u8 {
    if s == [] then 0 else XorFold(s[..|s| - 1]) ^ s[|s| - 1]
  }

  predicate IsBit(v: u8) {
    v == 0 || v == 1
  }

  lemma XorOfBits(u: u8, v: u8)
    requires IsBit(u) && IsBit(v)
    ensures IsBit(u ^ v)
    ensures (u ^ v == 1) <==> (u != v)
  {
  }

  /** How many of the shares are 1. */
  function Ones(s: seq<u8>): nat {
    if s == [] then 0 else Ones(s[..|s| - 1]) + (if s[|s| - 1] == 1 then 1 else 0)
  }

  /** The XOR of bit shares is a bit: 1 exactly when an odd number of shares are 1. */
  lemma {:induction false} XorFoldOfBits(s: seq<u8>)
    requires forall k :: 0 <= k < |s| ==> IsBit(s[k])
    ensures IsBit(XorFold(s))
    ensures XorFold(s) == 1 <==> Ones(s) % 2 == 1
  {
    if s != [] {
      XorFoldOfBits(s[..|s| - 1]);
      XorOfBits(XorFold(s[..|s| - 1]), s[|s| - 1]);
    }
  }

  /** The position-wise XOR of two share vectors of the same length. */
  function Combine(a: seq<u8>, b: seq<u8>): (r: seq<u8>)
    requires |a| == |b|
    ensures |r| == |a| && forall k :: 0 <= k < |a| ==> r[k] == a[k] ^ b[k]
  {
    if a == [] then [] else Combine(a[..|a| - 1], b[..|b| - 1]) + [a[|a| - 1] ^ b[|b| - 1]]
  }

  lemma XorSwap(p: u8, q: u8, u: u8, v: u8)
    ensures (p ^ u) ^ (q ^ v) == (p ^ q) ^ (u ^ v)
  {
  }

  /**
    Folding each party's shares and XOR-ing the two results is folding the
    combined shares: the two parties' results are XOR shares of the parity of
    the compared bits.
  */
  lemma {:induction false} XorFoldCombine(a: seq<u8>, b: seq<u8>)
    requires |a| == |b|
    ensures XorFold(a) ^ XorFold(b) == XorFold(Combine(a, b))
  {
    if a != [] {
      var n := |a|;
      XorFoldCombine(a[..n - 1], b[..n - 1]);
      var c := Combine(a, b);
      assert c[..n - 1] == Combine(a[..n - 1], b[..n - 1]);
      XorSwap(XorFold(a[..n - 1]), XorFold(b[..n - 1]), a[n - 1], b[n - 1]);
    }
  }
}
