/**
  The leader's comparisons in src/common/functionalities.cpp: PSM1 counts the
  pairs of equal client and server values and reports 0, 1 or 2 against the
  threshold; PSM2 multiplies, modulo N², the server ciphertext of every match
  into an encryption of zero.
*/
module Leader {
  import opened Block
  import opened Arithmetic
  import opened Bins

  /** How many elements of `row` equal `x`. */
  function CountRow(x: u64, row: seq<u64>): nat {
    if row == [] then 0
    else CountRow(x, row[..|row| - 1]) + (if row[|row| - 1] == x then 1 else 0)
  }

  /** How many elements of the server table equal `x`. */
  function CountServer(x: u64, server: seq<seq<u64>>): nat {
    if server == [] then 0
    else CountServer(x, server[..|server| - 1]) + CountRow(x, server[|server| - 1])
  }

  /** How many (client index, server row, server column) triples hold equal values. */
  function CountAll(client: seq<u64>, server: seq<seq<u64>>): nat {
    if client == [] then 0
    else CountAll(client[..|client| - 1], server) + CountServer(client[|client| - 1], server)
  }

  /** PSM1's triple loop: `count` is the number of equal pairs. */
  method CountMatches(client: seq<u64>, server: seq<seq<u64>>) returns (count: nat)
    ensures count == CountAll(client, server)
    ensures count == 0 <==> forall i, j :: 0 <= i < |client| && 0 <= j < |server| ==> client[i] !in server[j]
  {
    count := 0;
    for i := 0 to |client|
      invariant count == CountAll(client[..i], server)
    {
      assert client[..i + 1][..i] == client[..i];
      for j := 0 to |server|
        invariant count == CountAll(client[..i], server) + CountServer(client[i], server[..j])
      {
        assert server[..j + 1][..j] == server[..j];
        for k := 0 to |server[j]|
          invariant count == CountAll(client[..i], server) + CountServer(client[i], server[..j])
            + CountRow(client[i], server[j][..k])
        {
          assert server[j][..k + 1][..k] == server[j][..k];
          if client[i] == server[j][k] {
            count := count + 1;
          }
        }
        assert server[j][..|server[j]|] == server[j];
      }
      assert server[..|server|] == server;
    }
    assert client[..|client|] == client;
    CountAllZeroIff(client, server);
  }

  lemma {:induction false} CountRowZeroIff(x: u64, row: seq<u64>)
    ensures CountRow(x, row) == 0 <==> x !in row
  {
    if row != [] {
      var p := row[..|row| - 1];
      CountRowZeroIff(x, p);
      assert row == p + [row[|row| - 1]];
    }
  }

  lemma {:induction false} CountServerZeroIff(x: u64, server: seq<seq<u64>>)
    ensures CountServer(x, server) == 0 <==> forall j :: 0 <= j < |server| ==> x !in server[j]
  {
    if server != [] {
      var n := |server|;
      CountServerZeroIff(x, server[..n - 1]);
      CountRowZeroIff(x, server[n - 1]);
      assert forall j :: 0 <= j < n - 1 ==> server[..n - 1][j] == server[j];
    }
  }

  /** No pair is counted exactly when no client value occurs in any server row. */
  lemma {:induction false} CountAllZeroIff(client: seq<u64>, server: seq<seq<u64>>)
    ensures CountAll(client, server) == 0 <==>
      forall i, j :: 0 <= i < |client| && 0 <= j < |server| ==> client[i] !in server[j]
  {
    if client != [] {
      var n := |client|;
      CountAllZeroIff(client[..n - 1], server);
      CountServerZeroIff(client[n - 1], server);
      assert forall i :: 0 <= i < n - 1 ==> client[..n - 1][i] == client[i];
    }
  }

  /** Counting over two rows laid end to end adds the two counts. */
  lemma {:induction false} CountRowAppend(x: u64, a: seq<u64>, b: seq<u64>)
    ensures CountRow(x, a + b) == CountRow(x, a) + CountRow(x, b)
  {
    if b == [] {
      assert a + b == a;
    } else {
      var p := b[..|b| - 1];
      assert (a + b)[..|a + b| - 1] == a + p;
      CountRowAppend(x, a, p);
    }
  }

  /** A server count is the count in the flattened server table. */
  lemma {:induction false} CountServerFlat(x: u64, server: seq<seq<u64>>)
    ensures CountServer(x, server) == CountRow(x, Concat(server))
  {
    if server != [] {
      var n := |server|;
      CountServerFlat(x, server[..n - 1]);
      CountRowAppend(x, Concat(server[..n - 1]), server[n - 1]);
    }
  }

  predicate Distinct(s: seq<u64>) {
    forall i, j :: 0 <= i < j < |s| ==> s[i] != s[j]
  }

  lemma {:induction false} DistinctCount(s: seq<u64>, x: u64)
    requires Distinct(s)
    ensures CountRow(x, s) == if x in s then 1 else 0
  {
    if s != [] {
      var p, l := s[..|s| - 1], s[|s| - 1];
      assert s == p + [l];
      assert Distinct(p) by {
        forall i, j | 0 <= i < j < |p|
          ensures p[i] != p[j]
        {
          assert p[i] == s[i] && p[j] == s[j];
        }
      }
      DistinctCount(p, x);
      CountRowZeroIff(x, p);
      if l == x {
        assert x !in p by {
          forall i | 0 <= i < |p|
            ensures p[i] != x
          {
            assert p[i] == s[i];
          }
        }
      }
      assert x in s <==> x in p || x == l;
    }
  }

  /** The values that occur in both the client list and the flattened server table. */
  function Common(client: seq<u64>, server: seq<seq<u64>>): set<u64> {
    set x | x in client && x in Concat(server)
  }

  /**
    With no repeated value on either side, the PSM1 count is the size of the
    intersection of the two sets, the quantity the threshold is compared to.
  */
  lemma {:induction false} CountIsIntersectionSize(client: seq<u64>, server: seq<seq<u64>>)
    requires Distinct(client) && Distinct(Concat(server))
    ensures CountAll(client, server) == |Common(client, server)|
  {
    if client == [] {
      assert Common(client, server) == {};
    } else {
      var n := |client|;
      var p, x := client[..n - 1], client[n - 1];
      assert client == p + [x];
      assert Distinct(p) by {
        forall i, j | 0 <= i < j < |p|
          ensures p[i] != p[j]
        {
          assert p[i] == client[i] && p[j] == client[j];
        }
      }
      CountIsIntersectionSize(p, server);
      CountServerFlat(x, server);
      DistinctCount(Concat(server), x);
      assert x !in p by {
        forall i | 0 <= i < |p|
          ensures p[i] != x
        {
          assert p[i] == client[i];
        }
      }
      if x in Concat(server) {
        assert Common(client, server) == Common(p, server) + {x};
      } else {
        assert Common(client, server) == Common(p, server);
      }
    }
  }

  /** PSM1's verdict: 0 for no match, 1 for at most `g` matches, 2 for more. */
  function Classify(count: nat, g: nat): (verdict: nat)
    ensures verdict <= 2
    ensures verdict == 0 <==> count == 0
    ensures verdict == 1 <==> 0 < count <= g
    ensures verdict == 2 <==> count > g && count > 0
  {
    if count > 0 && count <= g then 1
    else if count > g then 2
    else 0
  }

  /** The verdict sent to the client, as a statement about the two data sets. */
  lemma PsmVerdict(client: seq<u64>, server: seq<seq<u64>>, g: nat)
    requires Distinct(client) && Distinct(Concat(server))
    ensures Classify(CountAll(client, server), g) == 0 <==> Common(client, server) == {}
    ensures Classify(CountAll(client, server), g) == 1 <==> 0 < |Common(client, server)| <= g
    ensures Classify(CountAll(client, server), g) == 2 <==> |Common(client, server)| > g && |Common(client, server)| > 0
  {
    CountIsIntersectionSize(client, server);
  }

  /** The ciphertext table has a cell for every server value. */
  predicate Covers(server: seq<seq<u64>>, cts: seq<seq<nat>>) {
    |server| <= |cts| && forall j :: 0 <= j < |server| ==> |server[j]| <= |cts[j]|
  }

  /** PSM2's fold over one row: multiply in the ciphertext of every match, reducing modulo m each time. */
  function AccRow(acc: nat, x: u64, row: seq<u64>, ct: seq<nat>, m: nat): nat
    requires |row| <= |ct| && m > 0
  {
    if row == [] then acc
    else
      var p := AccRow(acc, x, row[..|row| - 1], ct, m);
      if row[|row| - 1] == x then (p * ct[|row| - 1]) % m else p
  }

  function AccServer(acc: nat, x: u64, server: seq<seq<u64>>, cts: seq<seq<nat>>, m: nat): nat
    requires Covers(server, cts) && m > 0
  {
    if server == [] then acc
    else AccRow(AccServer(acc, x, server[..|server| - 1], cts, m), x, server[|server| - 1], cts[|server| - 1], m)
  }

  function AccAll(acc: nat, client: seq<u64>, server: seq<seq<u64>>, cts: seq<seq<nat>>, m: nat): nat
    requires Covers(server, cts) && m > 0
  {
    if client == [] then acc
    else AccServer(AccAll(acc, client[..|client| - 1], server, cts, m), client[|client| - 1], server, cts, m)
  }

  /** The product, without reduction, of the ciphertexts of the matches of x in one row. */
  function ProdRow(x: u64, row: seq<u64>, ct: seq<nat>): nat
    requires |row| <= |ct|
  {
    if row == [] then 1
    else ProdRow(x, row[..|row| - 1], ct) * (if row[|row| - 1] == x then ct[|row| - 1] else 1)
  }

  function ProdServer(x: u64, server: seq<seq<u64>>, cts: seq<seq<nat>>): nat
    requires Covers(server, cts)
  {
    if server == [] then 1
    else ProdServer(x, server[..|server| - 1], cts) * ProdRow(x, server[|server| - 1], cts[|server| - 1])
  }

  /** The product of the ciphertexts of every matching (client, server row, server column) triple. */
  function ProdAll(client: seq<u64>, server: seq<seq<u64>>, cts: seq<seq<nat>>): nat
    requires Covers(server, cts)
  {
    if client == [] then 1
    else ProdAll(client[..|client| - 1], server, cts) * ProdServer(client[|client| - 1], server, cts)
  }

  /** `s` multiplied by `prod` modulo m, but left alone when nothing was multiplied in. */
  function Reduce(s: nat, count: nat, prod: nat, m: nat): nat
    requires m > 0
  {
    if count == 0 then s else (s * prod) % m
  }

  /** Two folds in sequence are one fold over the combined matches. */
  lemma ReduceCompose(s: nat, c1: nat, p1: nat, c2: nat, p2: nat, m: nat)
    requires m > 0
    requires c1 == 0 ==> p1 == 1
    requires c2 == 0 ==> p2 == 1
    ensures Reduce(Reduce(s, c1, p1, m), c2, p2, m) == Reduce(s, c1 + c2, p1 * p2, m)
  {
    if c1 > 0 && c2 > 0 {
      ModMulLeft(s * p1, p2, m);
      assert s * p1 * p2 == s * (p1 * p2);
    }
  }

  lemma {:induction false} AccRowIsReduce(acc: nat, x: u64, row: seq<u64>, ct: seq<nat>, m: nat)
    requires |row| <= |ct| && m > 0
    ensures CountRow(x, row) == 0 ==> ProdRow(x, row, ct) == 1
    ensures AccRow(acc, x, row, ct, m) == Reduce(acc, CountRow(x, row), ProdRow(x, row, ct), m)
  {
    if row != [] {
      var n := |row|;
      AccRowIsReduce(acc, x, row[..n - 1], ct, m);
      if row[n - 1] == x {
        ReduceCompose(acc, CountRow(x, row[..n - 1]), ProdRow(x, row[..n - 1], ct), 1, ct[n - 1], m);
      }
    }
  }

  lemma {:induction false} AccServerIsReduce(acc: nat, x: u64, server: seq<seq<u64>>, cts: seq<seq<nat>>, m: nat)
    requires Covers(server, cts) && m > 0
    ensures CountServer(x, server) == 0 ==> ProdServer(x, server, cts) == 1
    ensures AccServer(acc, x, server, cts, m) == Reduce(acc, CountServer(x, server), ProdServer(x, server, cts), m)
  {
    if server != [] {
      var n := |server|;
      var p := server[..n - 1];
      AccServerIsReduce(acc, x, p, cts, m);
      var a := AccServer(acc, x, p, cts, m);
      AccRowIsReduce(a, x, server[n - 1], cts[n - 1], m);
      ReduceCompose(acc, CountServer(x, p), ProdServer(x, p, cts),
        CountRow(x, server[n - 1]), ProdRow(x, server[n - 1], cts[n - 1]), m);
    }
  }

  /**
    PSM2's sum is the starting ciphertext times the product of all matched
    ciphertexts modulo m, and exactly the starting ciphertext when nothing matched.
  */
  lemma {:induction false} AccAllIsReduce(acc: nat, client: seq<u64>, server: seq<seq<u64>>, cts: seq<seq<nat>>, m: nat)
    requires Covers(server, cts) && m > 0
    ensures CountAll(client, server) == 0 ==> ProdAll(client, server, cts) == 1
    ensures AccAll(acc, client, server, cts, m) ==
      Reduce(acc, CountAll(client, server), ProdAll(client, server, cts), m)
  {
    if client != [] {
      var n := |client|;
      var p := client[..n - 1];
      AccAllIsReduce(acc, p, server, cts, m);
      var a := AccAll(acc, p, server, cts, m);
      AccServerIsReduce(a, client[n - 1], server, cts, m);
      ReduceCompose(acc, CountAll(p, server), ProdAll(p, server, cts),
        CountServer(client[n - 1], server), ProdServer(client[n - 1], server, cts), m);
    }
  }

  /**
    PSM2's triple loop, with `n` the Paillier modulus: the result is the
    starting ciphertext when no value matched, and otherwise that ciphertext
    times every matched server ciphertext, modulo n².
  */
  method HomomorphicSum(client: seq<u64>, server: seq<seq<u64>>, cts: seq<seq<nat>>, start: nat, n: nat)
    returns (sum: nat)
    requires n > 0 && Covers(server, cts)
    ensures sum == AccAll(start, client, server, cts, n * n)
    ensures CountAll(client, server) == 0 ==> sum == start
    ensures CountAll(client, server) > 0 ==> sum == (start * ProdAll(client, server, cts)) % (n * n)
  {
    var m := n * n;
    sum := start;
    for i := 0 to |client|
      invariant sum == AccAll(start, client[..i], server, cts, m)
    {
      assert client[..i + 1][..i] == client[..i];
      ghost var rowStart := sum;
      for j := 0 to |server|
        invariant Covers(server[..j], cts)
        invariant sum == AccServer(rowStart, client[i], server[..j], cts, m)
      {
        assert server[..j + 1][..j] == server[..j];
        ghost var cellStart := sum;
        for k := 0 to |server[j]|
          invariant sum == AccRow(cellStart, client[i], server[j][..k], cts[j], m)
        {
          assert server[j][..k + 1][..k] == server[j][..k];
          if client[i] == server[j][k] {
            sum := (sum * cts[j][k]) % m;
          }
        }
        assert server[j][..|server[j]|] == server[j];
      }
      assert server[..|server|] == server;
    }
    assert client[..|client|] == client;
    AccAllIsReduce(start, client, server, cts, m);
  }
}
