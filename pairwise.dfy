/**
  The pairwise mask keys of PSM3 in src/common/functionalities.cpp. Servers
  meet two at a time. The first of a pair stores the shared secret as its key
  for the second, and the second stores the negated secret as its key for the
  first. `isShared[p][q]` records that p holds its key for q, and a server
  keeps meeting others until only its own diagonal cell in its row is unset.
  The rendezvous itself is replaced by an explicit schedule of pairs.
*/
module Pairwise {
  import opened Accumulate

  /** The `isShared` matrix, every server's `keys` array, and the global `keyOfShared`. */
  datatype Table = Table(isShared: seq<seq<bool>>, keys: seq<seq<int>>, keyOfShared: int)

  predicate Shaped(t: Table, n: nat) {
    |t.isShared| == n && |t.keys| == n &&
    forall i :: 0 <= i < n ==> |t.isShared[i]| == n && |t.keys[i]| == n
  }

  /** Every server's row of n unset marks and its n zero keys. */
  function Initial(n: nat): (t: Table)
    ensures Shaped(t, n)
    ensures forall i, j :: 0 <= i < n && 0 <= j < n ==> !t.isShared[i][j] && t.keys[i][j] == 0
  {
    Table(seq(n, _ => seq(n, _ => false)), seq(n, _ => seq(n, _ => 0)), 0)
  }

  /** The first server's action: on an unmarked pair, store the secret and mark first→second. */
  function First(t: Table, n: nat, f: nat, s: nat, secret: int): (r: Table)
    requires Shaped(t, n) && f < n && s < n
    ensures Shaped(r, n)
  {
    if t.isShared[f][s] then t
    else Table(t.isShared[f := t.isShared[f][s := true]], t.keys[f := t.keys[f][s := secret]], secret)
  }

  /** The second server's action: on an unmarked pair, store the negated secret and mark second→first. */
  function Second(t: Table, n: nat, f: nat, s: nat): (r: Table)
    requires Shaped(t, n) && f < n && s < n
    ensures Shaped(r, n)
  {
    if t.isShared[s][f] then t
    else Table(t.isShared[s := t.isShared[s][f := true]], t.keys[s := t.keys[s][f := -t.keyOfShared]], t.keyOfShared)
  }

  /** One meeting of servers f and s: the first action, then the second. */
  function Round(t: Table, n: nat, f: nat, s: nat, secret: int): (r: Table)
    requires Shaped(t, n) && f < n && s < n
    ensures Shaped(r, n)
  {
    Second(First(t, n, f, s, secret), n, f, s)
  }

  /** No server is marked against itself. */
  predicate NoSelfMarks(t: Table, n: nat)
    requires Shaped(t, n)
  {
    forall i :: 0 <= i < n ==> !t.isShared[i][i]
  }

  /** p is marked for q exactly when q is marked for p. */
  predicate SymmetricMarks(t: Table, n: nat)
    requires Shaped(t, n)
  {
    forall i, j :: 0 <= i < n && 0 <= j < n ==> t.isShared[i][j] == t.isShared[j][i]
  }

  /** An unmarked pair holds a zero key. */
  predicate UnmarkedZero(t: Table, n: nat)
    requires Shaped(t, n)
  {
    forall i, j :: 0 <= i < n && 0 <= j < n && !t.isShared[i][j] ==> t.keys[i][j] == 0
  }

  /** The two keys of a pair are opposite. */
  predicate OppositeKeys(t: Table, n: nat)
    requires Shaped(t, n)
  {
    forall i, j :: 0 <= i < n && 0 <= j < n ==> t.keys[i][j] == -t.keys[j][i]
  }

  /**
    The bookkeeping invariant: no server is marked against itself, marks are
    symmetric, an unmarked pair holds zero keys, a pair's two keys are
    opposite, and all keys sum to zero.
  */
  predicate Valid(t: Table, n: nat) {
    Shaped(t, n) && NoSelfMarks(t, n) && SymmetricMarks(t, n) &&
    UnmarkedZero(t, n) && OppositeKeys(t, n) && SumRows(t.keys) == 0
  }

  lemma {:induction false} SumZeros(s: seq<int>)
    requires forall k :: 0 <= k < |s| ==> s[k] == 0
    ensures Sum(s) == 0
  {
    if s != [] {
      SumZeros(s[..|s| - 1]);
    }
  }

  lemma {:induction false} SumRowsZeros(t: seq<seq<int>>)
    requires forall i, k :: 0 <= i < |t| && 0 <= k < |t[i]| ==> t[i][k] == 0
    ensures SumRows(t) == 0
  {
    if t != [] {
      SumRowsZeros(t[..|t| - 1]);
      SumZeros(t[|t| - 1]);
    }
  }

  lemma InitialValid(n: nat)
    ensures Valid(Initial(n), n)
  {
    var t := Initial(n);
    SumRowsZeros(t.keys);
  }

  /**
    `r` is `t` after a fresh meeting of f and s: both directions marked, the
    first holding the secret and the second its negation, `keyOfShared` set
    to the secret, and no other cell changed.
  */
  predicate Updated(t: Table, r: Table, n: nat, f: nat, s: nat, secret: int)
    requires Shaped(t, n) && Shaped(r, n)
  {
    r.keyOfShared == secret &&
    (forall i, j :: 0 <= i < n && 0 <= j < n ==>
      r.isShared[i][j] == (t.isShared[i][j] || (i == f && j == s) || (i == s && j == f))) &&
    (forall i, j :: 0 <= i < n && 0 <= j < n ==>
      r.keys[i][j] == if i == f && j == s then secret else if i == s && j == f then -secret else t.keys[i][j])
  }

  /** A meeting of two servers on an unmarked pair is such an update. */
  lemma RoundFresh(t: Table, n: nat, f: nat, s: nat, secret: int)
    requires Shaped(t, n) && f < n && s < n && f != s && !t.isShared[f][s] && !t.isShared[s][f]
    ensures Updated(t, Round(t, n, f, s, secret), n, f, s, secret)
  {
  }

  /** A meeting on a pair that is already marked changes nothing. */
  lemma RoundMarked(t: Table, n: nat, f: nat, s: nat, secret: int)
    requires Valid(t, n) && f < n && s < n && t.isShared[f][s]
    ensures Round(t, n, f, s, secret) == t
  {
  }

  /** A fresh meeting adds the secret and its negation to the keys, leaving their sum unchanged. */
  lemma RoundSum(t: Table, n: nat, f: nat, s: nat, secret: int)
    requires Shaped(t, n) && f < n && s < n && f != s && !t.isShared[f][s] && !t.isShared[s][f]
    requires t.keys[f][s] == -t.keys[s][f]
    ensures SumRows(Round(t, n, f, s, secret).keys) == SumRows(t.keys)
  {
    var k0 := t.keys;
    var k1 := k0[f := k0[f][s := secret]];
    var k2 := k1[s := k1[s][f := -secret]];
    var t1 := First(t, n, f, s, secret);
    assert t1.keys == k1 && t1.keyOfShared == secret && !t1.isShared[s][f];
    assert Round(t, n, f, s, secret).keys == k2;
    SumRowsUpdate(k0, f, k0[f][s := secret]);
    SumUpdate(k0[f], s, secret);
    assert SumRows(k1) == SumRows(k0) - k0[f][s] + secret;
    assert k1[s] == k0[s];
    SumRowsUpdate(k1, s, k1[s][f := -secret]);
    SumUpdate(k1[s], f, -secret);
    assert SumRows(k2) == SumRows(k1) - k0[s][f] - secret;
  }

  lemma UpdatedMarks(t: Table, r: Table, n: nat, f: nat, s: nat, secret: int)
    requires Shaped(t, n) && Shaped(r, n) && f < n && s < n && f != s
    requires NoSelfMarks(t, n) && SymmetricMarks(t, n) && Updated(t, r, n, f, s, secret)
    ensures NoSelfMarks(r, n) && SymmetricMarks(r, n)
  {
  }

  lemma UpdatedKeys(t: Table, r: Table, n: nat, f: nat, s: nat, secret: int)
    requires Shaped(t, n) && Shaped(r, n) && f < n && s < n && f != s
    requires SymmetricMarks(t, n) && UnmarkedZero(t, n) && OppositeKeys(t, n) && !t.isShared[f][s]
    requires Updated(t, r, n, f, s, secret)
    ensures UnmarkedZero(r, n) && OppositeKeys(r, n)
  {
    assert t.keys[f][s] == 0 && t.keys[s][f] == 0;
  }

  /** Every meeting of two distinct servers keeps the invariant, so the keys always cancel. */
  lemma RoundValid(t: Table, n: nat, f: nat, s: nat, secret: int)
    requires Valid(t, n) && f < n && s < n && f != s
    ensures Valid(Round(t, n, f, s, secret), n)
  {
    if !t.isShared[f][s] {
      var r := Round(t, n, f, s, secret);
      assert !t.isShared[s][f] && t.keys[f][s] == -t.keys[s][f];
      RoundFresh(t, n, f, s, secret);
      RoundSum(t, n, f, s, secret);
      UpdatedMarks(t, r, n, f, s, secret);
      UpdatedKeys(t, r, n, f, s, secret);
    } else {
      RoundMarked(t, n, f, s, secret);
    }
  }

  /** `getSharedCount`: the number of unset marks in a row. */
  function SharedCount(row: seq<bool>): (r: nat)
    ensures r <= |row|
  {
    if row == [] then 0 else SharedCount(row[..|row| - 1]) + (if row[|row| - 1] then 0 else 1)
  }

  lemma {:induction false} SharedCountZero(row: seq<bool>)
    ensures SharedCount(row) == 0 <==> forall j :: 0 <= j < |row| ==> row[j]
  {
    if row != [] {
      var p := row[..|row| - 1];
      SharedCountZero(p);
      assert forall j :: 0 <= j < |p| ==> p[j] == row[j];
    }
  }

  /** Setting an unset mark lowers the row's count by one. */
  lemma {:induction false} SharedCountMark(row: seq<bool>, j: nat)
    requires j < |row| && !row[j]
    ensures SharedCount(row[j := true]) == SharedCount(row) - 1
  {
    var n := |row|;
    var u := row[j := true];
    if j == n - 1 {
      assert u[..n - 1] == row[..n - 1];
    } else {
      assert u[..n - 1] == row[..n - 1][j := true];
      SharedCountMark(row[..n - 1], j);
    }
  }

  /**
    The loop guard `getSharedCount(isShared[me]) != 1` fails exactly when
    every cell of the row but the server's own is set.
  */
  lemma SharedCountOne(row: seq<bool>, me: nat)
    requires me < |row| && !row[me]
    ensures SharedCount(row) == 1 <==> forall j :: 0 <= j < |row| && j != me ==> row[j]
  {
    SharedCountMark(row, me);
    SharedCountZero(row[me := true]);
    assert forall j :: 0 <= j < |row| && j != me ==> row[me := true][j] == row[j];
  }

  /** A fresh meeting lowers the count of both servers' rows by one. */
  lemma RoundCounts(t: Table, n: nat, f: nat, s: nat, secret: int)
    requires Valid(t, n) && f < n && s < n && f != s && !t.isShared[f][s]
    ensures var r := Round(t, n, f, s, secret);
      SharedCount(r.isShared[f]) == SharedCount(t.isShared[f]) - 1 &&
      SharedCount(r.isShared[s]) == SharedCount(t.isShared[s]) - 1
  {
    SharedCountMark(t.isShared[f], s);
    SharedCountMark(t.isShared[s], f);
    var t1 := First(t, n, f, s, secret);
    assert t1.isShared[s] == t.isShared[s];
  }

  /** Every pair of a schedule names two distinct servers below n. */
  predicate PairsIn(sched: seq<(nat, nat)>, n: nat) {
    forall k :: 0 <= k < |sched| ==> sched[k].0 < n && sched[k].1 < n && sched[k].0 != sched[k].1
  }

  /** The meetings of a schedule, in order, meeting k using secret k. */
  function Run(t: Table, n: nat, sched: seq<(nat, nat)>, secrets: seq<int>): (r: Table)
    requires Shaped(t, n) && PairsIn(sched, n) && |secrets| == |sched|
    ensures Shaped(r, n)
  {
    if sched == [] then t
    else
      var k := |sched| - 1;
      Round(Run(t, n, sched[..k], secrets[..k]), n, sched[k].0, sched[k].1, secrets[k])
  }

  lemma {:induction false} RunValid(t: Table, n: nat, sched: seq<(nat, nat)>, secrets: seq<int>)
    requires Valid(t, n) && PairsIn(sched, n) && |secrets| == |sched|
    ensures Valid(Run(t, n, sched, secrets), n)
  {
    if sched != [] {
      var k := |sched| - 1;
      RunValid(t, n, sched[..k], secrets[..k]);
      RoundValid(Run(t, n, sched[..k], secrets[..k]), n, sched[k].0, sched[k].1, secrets[k]);
    }
  }

  /** A pair that met at some point of the schedule is marked both ways at its end. */
  lemma {:induction false} RunMarks(t: Table, n: nat, sched: seq<(nat, nat)>, secrets: seq<int>, i: nat, j: nat)
    requires Valid(t, n) && PairsIn(sched, n) && |secrets| == |sched| && i < n && j < n
    requires t.isShared[i][j] || exists k :: 0 <= k < |sched| && (sched[k] == (i, j) || sched[k] == (j, i))
    ensures Run(t, n, sched, secrets).isShared[i][j]
  {
    if sched != [] {
      var k := |sched| - 1;
      var p := sched[..k];
      RunValid(t, n, p, secrets[..k]);
      var mid := Run(t, n, p, secrets[..k]);
      var (f, s) := sched[k];
      if sched[k] != (i, j) && sched[k] != (j, i) {
        assert t.isShared[i][j] || exists m :: 0 <= m < |p| && (p[m] == (i, j) || p[m] == (j, i)) by {
          if !t.isShared[i][j] {
            var m :| 0 <= m < |sched| && (sched[m] == (i, j) || sched[m] == (j, i));
            assert m < k && p[m] == sched[m];
          }
        }
        RunMarks(t, n, p, secrets[..k], i, j);
      }
      if mid.isShared[f][s] {
        RoundMarked(mid, n, f, s, secrets[k]);
        assert mid.isShared[i][j] by {
          if sched[k] == (i, j) || sched[k] == (j, i) {
            assert mid.isShared[s][f];
          }
        }
      } else {
        assert !mid.isShared[s][f];
        RoundFresh(mid, n, f, s, secrets[k]);
      }
    }
  }

  /** Some meeting of the schedule joins servers i and j, for every two distinct servers. */
  predicate Complete(sched: seq<(nat, nat)>, n: nat) {
    forall i, j :: 0 <= i < n && 0 <= j < n && i != j ==>
      exists k :: 0 <= k < |sched| && (sched[k] == (i, j) || sched[k] == (j, i))
  }

  /**
    After a schedule in which every two servers meet, every server's loop
    guard is false (one unset mark, its own) and all keys sum to zero.
  */
  lemma CompleteRun(t: Table, n: nat, sched: seq<(nat, nat)>, secrets: seq<int>)
    requires Valid(t, n) && PairsIn(sched, n) && |secrets| == |sched| && Complete(sched, n)
    ensures var r := Run(t, n, sched, secrets);
      (forall i :: 0 <= i < n ==> SharedCount(r.isShared[i]) == 1) && SumRows(r.keys) == 0
  {
    var r := Run(t, n, sched, secrets);
    RunValid(t, n, sched, secrets);
    forall i | 0 <= i < n
      ensures SharedCount(r.isShared[i]) == 1
    {
      forall j | 0 <= j < n && j != i
        ensures r.isShared[i][j]
      {
        RunMarks(t, n, sched, secrets, i, j);
      }
      SharedCountOne(r.isShared[i], i);
    }
  }

  /** `getSharedCount` as the loop it is. */
  method GetSharedCount(row: seq<bool>) returns (count: nat)
    ensures count == SharedCount(row)
    ensures count == 0 <==> forall j :: 0 <= j < |row| ==> row[j]
  {
    count := 0;
    for k := 0 to |row|
      invariant count == SharedCount(row[..k])
    {
      assert row[..k + 1][..k] == row[..k];
      if !row[k] {
        count := count + 1;
      }
    }
    assert row[..|row|] == row;
    SharedCountZero(row);
  }

  /** The bookkeeping state of n servers, updated in place by the two actions. */
  class PairwiseKeys {
    const n: nat
    var isShared: seq<seq<bool>>
    var keys: seq<seq<int>>
    var keyOfShared: int

    ghost function State(): Table
      reads this
    {
      Table(isShared, keys, keyOfShared)
    }

    constructor (n: nat)
      ensures this.n == n && State() == Initial(n) && Valid(State(), n)
    {
      this.n := n;
      isShared := seq(n, _ => seq(n, _ => false));
      keys := seq(n, _ => seq(n, _ => 0));
      keyOfShared := 0;
      InitialValid(n);
    }

    method FirstAction(f: nat, s: nat, secret: int)
      requires Shaped(State(), n) && f < n && s < n
      modifies this
      ensures State() == First(old(State()), n, f, s, secret)
    {
      if !isShared[f][s] {
        keyOfShared := secret;
        keys := keys[f := keys[f][s := secret]];
        isShared := isShared[f := isShared[f][s := true]];
      }
    }

    method SecondAction(f: nat, s: nat)
      requires Shaped(State(), n) && f < n && s < n
      modifies this
      ensures State() == Second(old(State()), n, f, s)
    {
      if !isShared[s][f] {
        keys := keys[s := keys[s][f := -keyOfShared]];
        isShared := isShared[s := isShared[s][f := true]];
      }
    }

    /** The meetings of a schedule; the invariant holds throughout. */
    method Share(sched: seq<(nat, nat)>, secrets: seq<int>)
      requires Valid(State(), n) && PairsIn(sched, n) && |secrets| == |sched|
      modifies this
      ensures State() == Run(old(State()), n, sched, secrets)
      ensures Valid(State(), n)
    {
      ghost var start := State();
      for k := 0 to |sched|
        invariant Shaped(State(), n)
        invariant State() == Run(start, n, sched[..k], secrets[..k])
      {
        assert sched[..k + 1][..k] == sched[..k];
        assert secrets[..k + 1][..k] == secrets[..k];
        FirstAction(sched[k].0, sched[k].1, secrets[k]);
        SecondAction(sched[k].0, sched[k].1);
      }
      assert sched[..|sched|] == sched;
      assert secrets[..|secrets|] == secrets;
      RunValid(start, n, sched, secrets);
    }
  }
}
