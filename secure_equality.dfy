/**
  The end of PSM3 in src/common/functionalities.cpp. Each party folds its
  equality-result shares into one bit. A server and its client then multiply
  their bits with a Beaver triple that the server deals, and each turns its
  product share into an additive share of the XOR of the two bits. The
  servers also add their pairwise keys. The leaders sum the servers' values
  and the clients' values.
*/
module SecureEquality {
  import opened Accumulate
  import opened Arithmetic
  import Pairwise

  const INT32_MIN: int := -0x8000_0000
  const INT32_MAX: int := 0x7FFF_FFFF

  predicate IsInt32(v: int) {
    INT32_MIN <= v <= INT32_MAX
  }

  /** `generateRandomNumber(lo, hi)` is a parameter: any value in [lo, hi]. */
  predicate InRange(v: int, lo: int, hi: int) {
    lo <= v <= hi
  }

  /**
    `splitIntoShares`: the random first share, drawn from [1, 100], and the
    rest of the number.
  */
  function SplitIntoShares(number: int, r: int): (shares: (int, int))
    requires InRange(r, 1, 100)
    ensures shares.0 + shares.1 == number
    ensures InRange(shares.0, 1, 100)
  {
    (r, number - r)
  }

  /** The server's Beaver triple: it keeps the second share of each value and sends the first. */
  datatype Deal = Deal(a0: int, a1: int, b0: int, b1: int, c0: int, c1: int)

  /** The honest deal: c = a * b, each split into two additive shares. */
  predicate ValidDeal(d: Deal) {
    d.c0 + d.c1 == (d.a0 + d.a1) * (d.b0 + d.b1)
  }

  /** The server's dealing, with a and b drawn from [100, 10000] and three share randoms. */
  function MakeDeal(a: int, b: int, ra: int, rb: int, rc: int): (d: Deal)
    requires InRange(a, 100, 10000) && InRange(b, 100, 10000)
    requires InRange(ra, 1, 100) && InRange(rb, 1, 100) && InRange(rc, 1, 100)
    ensures ValidDeal(d)
    ensures d.a0 + d.a1 == a && d.b0 + d.b1 == b && d.c0 + d.c1 == a * b
  {
    var (a0, a1) := SplitIntoShares(a, ra);
    var (b0, b1) := SplitIntoShares(b, rb);
    var (c0, c1) := SplitIntoShares(a * b, rc);
    Deal(a0, a1, b0, b1, c0, c1)
  }

  /** The four published halves `e0, f0, e1, f1` of the opened differences. */
  datatype Halves = Halves(e0: int, f0: int, e1: int, f1: int)

  /**
    The client holds x and shares it as (x0, x1) = (x, 0). The server holds y
    and shares it as (y0, y1) = (0, y). Each side publishes its share of x
    minus its share of a and its share of y minus its share of b.
  */
  function OpenHalves(x: int, y: int, d: Deal): (h: Halves)
    ensures h.e0 + h.e1 == x - (d.a0 + d.a1) && h.f0 + h.f1 == y - (d.b0 + d.b1)
  {
    var (x0, x1, y0, y1) := (x, 0, 0, y);
    Halves(x0 - d.a0, y0 - d.b0, x1 - d.a1, y1 - d.b1)
  }

  /** The opened differences e = e0 + e1 and f = f0 + f1, which both sides add up. */
  function Open(x: int, y: int, d: Deal): (ef: (int, int))
    ensures ef.0 == x - (d.a0 + d.a1) && ef.1 == y - (d.b0 + d.b1)
  {
    var h := OpenHalves(x, y, d);
    (h.e0 + h.e1, h.f0 + h.f1)
  }

  /** The server's product share `z1`. */
  function ServerZ(d: Deal, e: int, f: int): int {
    d.c1 + d.a1 * f + d.b1 * e
  }

  /** The client's product share `z0`, which also carries the `e * f` term. */
  function ClientZ(d: Deal, e: int, f: int): int {
    d.c0 + d.a0 * f + d.b0 * e + e * f
  }

  /** With an honest triple the two product shares add up to x * y. */
  lemma BeaverProduct(x: int, y: int, d: Deal)
    requires ValidDeal(d)
    ensures ClientZ(d, Open(x, y, d).0, Open(x, y, d).1) + ServerZ(d, Open(x, y, d).0, Open(x, y, d).1) == x * y
  {
    var a, b := d.a0 + d.a1, d.b0 + d.b1;
    var (e, f) := Open(x, y, d);
    calc {
      ClientZ(d, e, f) + ServerZ(d, e, f);
      (d.c0 + d.c1) + (d.a0 + d.a1) * f + (d.b0 + d.b1) * e + e * f;
      a * b + a * (y - b) + b * (x - a) + (x - a) * (y - b);
      x * y;
    }
  }

  /** One server with its client: the client's bit x, the server's bit y and the server's triple. */
  datatype Session = Session(x: int, y: int, deal: Deal)

  predicate IsBitValue(v: int) {
    v == 0 || v == 1
  }

  /** The client's `endOfX = x - 2*z0`. */
  function ClientValue(s: Session): int {
    var (e, f) := Open(s.x, s.y, s.deal);
    s.x - 2 * ClientZ(s.deal, e, f)
  }

  /** The server's `endOfY`: `y - 2*z1`, then its pairwise keys added in with `std::accumulate`. */
  function ServerValue(s: Session, keys: seq<int>): int {
    var (e, f) := Open(s.x, s.y, s.deal);
    s.y - 2 * ServerZ(s.deal, e, f) + Sum(keys)
  }

  /** The XOR of two bits as an integer. */
  function BitXor(x: int, y: int): (r: int)
    requires IsBitValue(x) && IsBitValue(y)
    ensures IsBitValue(r) && (r == 1 <==> x != y)
  {
    if x == y then 0 else 1
  }

  /**
    Without the keys, a session's two values add up to x + y - 2xy, which for
    bits is their XOR.
  */
  lemma SessionRevealsXor(s: Session)
    requires ValidDeal(s.deal) && IsBitValue(s.x) && IsBitValue(s.y)
    ensures ClientValue(s) + ServerValue(s, []) == BitXor(s.x, s.y)
  {
    BeaverProduct(s.x, s.y, s.deal);
  }

  /** Ranges of every intermediate value for shares and differences in the dealt ranges. */
  lemma ProductsFit(a0: int, a1: int, b0: int, b1: int, c0: int, c1: int, e: int, f: int)
    requires 1 <= a0 <= 100 && 0 <= a1 <= 9999 && 1 <= b0 <= 100 && 0 <= b1 <= 9999
    requires 1 <= c0 <= 100 && 0 <= c1 <= 100_000_000
    requires -10000 <= e <= 0 && -10000 <= f <= 0
    ensures -100_000_000 <= a1 * f <= 0 && -100_000_000 <= b1 * e <= 0
    ensures -1_000_000 <= a0 * f <= 0 && -1_000_000 <= b0 * e <= 0
    ensures 0 <= e * f <= 100_000_000
  {
    NegProductFits(a1, f, 10000, 10000);
    NegProductFits(b1, e, 10000, 10000);
    NegProductFits(a0, f, 100, 10000);
    NegProductFits(b0, e, 100, 10000);
    MulLe(0, 0, -e, -f);
    MulLe(-e, -f, 10000, 10000);
    assert e * f == (-e) * (-f);
  }

  /** A natural times a non-positive value lies between minus the bound product and 0. */
  lemma NegProductFits(u: nat, v: int, bu: nat, bv: nat)
    requires u <= bu && -(bv as int) <= v <= 0
    ensures -(bu * bv) <= u * v <= 0
  {
    MulLe(0, 0, u, -v);
    MulLe(u, -v, bu, bv);
    assert u * v == -(u * -v);
  }

  /**
    With a, b in [100, 10000], share randoms in [1, 100] and bit inputs,
    every value both parties compute fits in the 32-bit `int` the code uses:
    the product a * b and the six shares, the four published halves and their
    sums e and f, the five products, each partial sum of `z1` and `z0`, twice
    each of them, and `x - 2*z0` and `y - 2*z1`.
  */
  lemma DealFitsInt32(a: int, b: int, ra: int, rb: int, rc: int, x: int, y: int)
    requires InRange(a, 100, 10000) && InRange(b, 100, 10000)
    requires InRange(ra, 1, 100) && InRange(rb, 1, 100) && InRange(rc, 1, 100)
    requires IsBitValue(x) && IsBitValue(y)
    ensures var d := MakeDeal(a, b, ra, rb, rc);
      IsInt32(a * b) && IsInt32(d.c0) && IsInt32(d.c1)
      && IsInt32(d.a0) && IsInt32(d.a1) && IsInt32(d.b0) && IsInt32(d.b1)
    ensures var h := OpenHalves(x, y, MakeDeal(a, b, ra, rb, rc));
      IsInt32(h.e0) && IsInt32(h.f0) && IsInt32(h.e1) && IsInt32(h.f1)
    ensures var d := MakeDeal(a, b, ra, rb, rc);
      var (e, f) := Open(x, y, d);
      IsInt32(e) && IsInt32(f) && IsInt32(d.a1 * f) && IsInt32(d.b1 * e)
      && IsInt32(d.a0 * f) && IsInt32(d.b0 * e) && IsInt32(e * f)
    ensures var d := MakeDeal(a, b, ra, rb, rc);
      var (e, f) := Open(x, y, d);
      IsInt32(d.c1 + d.a1 * f) && IsInt32(ServerZ(d, e, f)) && IsInt32(2 * ServerZ(d, e, f))
      && IsInt32(y - 2 * ServerZ(d, e, f))
    ensures var d := MakeDeal(a, b, ra, rb, rc);
      var (e, f) := Open(x, y, d);
      IsInt32(d.c0 + d.a0 * f) && IsInt32(d.c0 + d.a0 * f + d.b0 * e)
      && IsInt32(ClientZ(d, e, f)) && IsInt32(2 * ClientZ(d, e, f))
      && IsInt32(x - 2 * ClientZ(d, e, f))
  {
    var d := MakeDeal(a, b, ra, rb, rc);
    var (e, f) := Open(x, y, d);
    MulLe(a, b, 10000, 10000);
    MulLe(100, 100, a, b);
    ProductsFit(d.a0, d.a1, d.b0, d.b1, d.c0, d.c1, e, f);
  }

  /** `clientResult`: slot i holds client i's value, as `add(endOfX, index)` places it. */
  function ClientResults(ss: seq<Session>): (r: seq<int>)
    ensures |r| == |ss| && forall i :: 0 <= i < |ss| ==> r[i] == ClientValue(ss[i])
  {
    if ss == [] then [] else ClientResults(ss[..|ss| - 1]) + [ClientValue(ss[|ss| - 1])]
  }

  /** `serverResult`: slot i holds server i's value, its key row i already added in. */
  function ServerResults(ss: seq<Session>, keys: seq<seq<int>>): (r: seq<int>)
    requires |keys| == |ss|
    ensures |r| == |ss| && forall i :: 0 <= i < |ss| ==> r[i] == ServerValue(ss[i], keys[i])
  {
    if ss == [] then []
    else ServerResults(ss[..|ss| - 1], keys[..|ss| - 1]) + [ServerValue(ss[|ss| - 1], keys[|ss| - 1])]
  }

  /** The client leader's `std::accumulate` over `clientResult`. */
  function ClientTotal(ss: seq<Session>): int {
    Sum(ClientResults(ss))
  }

  /** The server leader's `std::accumulate` over `serverResult`. */
  function ServerTotal(ss: seq<Session>, keys: seq<seq<int>>): int
    requires |keys| == |ss|
  {
    Sum(ServerResults(ss, keys))
  }

  predicate Honest(ss: seq<Session>) {
    forall i :: 0 <= i < |ss| ==> ValidDeal(ss[i].deal) && IsBitValue(ss[i].x) && IsBitValue(ss[i].y)
  }

  /** How many sessions hold different bits on the two sides. */
  function DifferingCount(ss: seq<Session>): nat
    requires Honest(ss)
  {
    if ss == [] then 0
    else
      assert Honest(ss[..|ss| - 1]);
      DifferingCount(ss[..|ss| - 1]) + BitXor(ss[|ss| - 1].x, ss[|ss| - 1].y)
  }

  /**
    The two leaders' totals add up to the number of sessions whose bits
    differ, plus the sum of all pairwise keys.
  */
  lemma {:induction false} TotalsReveal(ss: seq<Session>, keys: seq<seq<int>>)
    requires |keys| == |ss| && Honest(ss)
    ensures ClientTotal(ss) + ServerTotal(ss, keys) == DifferingCount(ss) + SumRows(keys)
  {
    if ss != [] {
      var n := |ss|;
      assert Honest(ss[..n - 1]);
      TotalsReveal(ss[..n - 1], keys[..n - 1]);
      SessionRevealsXor(ss[n - 1]);
      var cs, vs := ClientResults(ss), ServerResults(ss, keys);
      assert cs[..n - 1] == ClientResults(ss[..n - 1]);
      assert vs[..n - 1] == ServerResults(ss[..n - 1], keys[..n - 1]);
    }
  }

  /** When the keys cancel, the totals reveal the number of differing sessions and nothing else. */
  lemma KeysCancel(ss: seq<Session>, keys: seq<seq<int>>)
    requires |keys| == |ss| && Honest(ss) && SumRows(keys) == 0
    ensures ClientTotal(ss) + ServerTotal(ss, keys) == DifferingCount(ss)
  {
    TotalsReveal(ss, keys);
  }

  /**
    The whole PSM3 ending: after a pairwise setup in which every two servers
    met, the servers' keys cancel, so the two leaders' totals add up to the
    number of sessions whose bits differ and reveal nothing else.
  */
  lemma SetupThenTotals(n: nat, sched: seq<(nat, nat)>, secrets: seq<int>, ss: seq<Session>)
    requires Pairwise.PairsIn(sched, n) && |secrets| == |sched| && Pairwise.Complete(sched, n)
    requires |ss| == n && Honest(ss)
    ensures var keys := Pairwise.Run(Pairwise.Initial(n), n, sched, secrets).keys;
      |keys| == n && ClientTotal(ss) + ServerTotal(ss, keys) == DifferingCount(ss)
  {
    Pairwise.InitialValid(n);
    Pairwise.CompleteRun(Pairwise.Initial(n), n, sched, secrets);
    KeysCancel(ss, Pairwise.Run(Pairwise.Initial(n), n, sched, secrets).keys);
  }

  /**
    A session built from the two parties' folded equality shares: when the
    shares are bits, the two bits differ exactly when the combined shares
    have odd parity.
  */
  function SessionOf(clientShares: seq<u8>, serverShares: seq<u8>, d: Deal): Session
    requires |clientShares| == |serverShares|
  {
    Session(XorFold(clientShares) as int, XorFold(serverShares) as int, d)
  }

  lemma SessionParity(clientShares: seq<u8>, serverShares: seq<u8>, d: Deal)
    requires |clientShares| == |serverShares|
    requires forall k :: 0 <= k < |clientShares| ==> IsBit(clientShares[k]) && IsBit(serverShares[k])
    ensures IsBitValue(SessionOf(clientShares, serverShares, d).x)
    ensures IsBitValue(SessionOf(clientShares, serverShares, d).y)
    ensures var s := SessionOf(clientShares, serverShares, d);
      BitXor(s.x, s.y) == XorFold(Combine(clientShares, serverShares)) as int
  {
    XorFoldOfBits(clientShares);
    XorFoldOfBits(serverShares);
    XorFoldCombine(clientShares, serverShares);
    XorOfBits(XorFold(clientShares), XorFold(serverShares));
  }
}
