/**
  The data shaping of src/common/functionalities.cpp: `flatten`, the client's
  round-robin binning and the server's row-major binning, the reshaping of
  OPRF output blocks into 64-bit values, and the padded comparison buffers of
  the secret-shared equality protocol.
*/
module Bins {
  import opened Block
  import opened Arithmetic

  function Min(a: nat, b: nat): nat {
    if a < b then a else b
  }

  /** The buckets' elements, bucket after bucket, each bucket in its own order. */
  function Concat<T>(buckets: seq<seq<T>>): seq<T> {
    if buckets == [] then [] else Concat(buckets[..|buckets| - 1]) + buckets[|buckets| - 1]
  }

  /** The sum of the bucket lengths. */
  function TotalLength<T>(buckets: seq<seq<T>>): nat {
    if buckets == [] then 0 else TotalLength(buckets[..|buckets| - 1]) + |buckets[|buckets| - 1]|
  }

  lemma {:induction false} ConcatLength<T>(buckets: seq<seq<T>>)
    ensures |Concat(buckets)| == TotalLength(buckets)
  {
    if buckets != [] {
      ConcatLength(buckets[..|buckets| - 1]);
    }
  }

  /** Element j of bucket i sits after all elements of the buckets before it. */
  lemma {:induction false} ConcatAt<T>(buckets: seq<seq<T>>, i: nat, j: nat)
    requires i < |buckets| && j < |buckets[i]|
    ensures TotalLength(buckets[..i]) + j < |Concat(buckets)|
    ensures Concat(buckets)[TotalLength(buckets[..i]) + j] == buckets[i][j]
  {
    var n := |buckets|;
    var p := buckets[..n - 1];
    ConcatLength(p);
    ConcatLength(buckets);
    if i == n - 1 {
      assert buckets[..i] == p;
    } else {
      assert p[..i] == buckets[..i];
      ConcatAt(p, i, j);
    }
  }

  /** The buckets before i and bucket i together are no longer than the whole table. */
  lemma {:induction false} TotalLengthPrefix<T>(t: seq<seq<T>>, i: nat)
    requires i < |t|
    ensures TotalLength(t[..i]) + |t[i]| <= TotalLength(t)
  {
    var n := |t|;
    if i < n - 1 {
      assert t[..n - 1][..i] == t[..i];
      TotalLengthPrefix(t[..n - 1], i);
    } else {
      assert t[..i] == t[..n - 1];
    }
  }

  /** Growing one bucket by one element grows the total by one. */
  lemma {:induction false} TotalLengthAppend<T>(t: seq<seq<T>>, b: nat, x: T)
    requires b < |t|
    ensures TotalLength(t[b := t[b] + [x]]) == TotalLength(t) + 1
  {
    var u := t[b := t[b] + [x]];
    var n := |t|;
    if b == n - 1 {
      assert u[..n - 1] == t[..n - 1];
    } else {
      assert u[..n - 1] == t[..n - 1][b := t[b] + [x]];
      TotalLengthAppend(t[..n - 1], b, x);
    }
  }

  /** A table whose first m buckets hold one element each and whose others are empty. */
  lemma {:induction false} ConcatSingletons<T>(t: seq<seq<T>>, m: nat)
    requires m <= |t|
    requires forall k :: 0 <= k < m ==> |t[k]| == 1
    requires forall k :: m <= k < |t| ==> t[k] == []
    ensures |Concat(t)| == m
    ensures forall k :: 0 <= k < m ==> Concat(t)[k] == t[k][0]
  {
    if t != [] {
      var n := |t|;
      var p := t[..n - 1];
      if m == n {
        ConcatSingletons(p, m - 1);
      } else {
        ConcatSingletons(p, m);
      }
    }
  }

  /**
    `flatten`: the concatenation of the buckets. Its length is the sum of the
    bucket lengths and element j of bucket i lands after the buckets before i.
  */
  method Flatten<T>(data: seq<seq<T>>) returns (flat: seq<T>)
    ensures flat == Concat(data)
    ensures |flat| == TotalLength(data)
    ensures forall i :: 0 <= i < |data| ==> TotalLength(data[..i]) + |data[i]| <= |flat|
    ensures forall i, j :: 0 <= i < |data| && 0 <= j < |data[i]| ==>
      flat[TotalLength(data[..i]) + j] == data[i][j]
  {
    flat := [];
    for i := 0 to |data|
      invariant flat == Concat(data[..i])
    {
      assert data[..i + 1][..i] == data[..i];
      flat := flat + data[i];
    }
    assert data[..|data|] == data;
    ConcatLength(data);
    forall i | 0 <= i < |data|
      ensures TotalLength(data[..i]) + |data[i]| <= |flat|
    {
      TotalLengthPrefix(data, i);
    }
    forall i, j | 0 <= i < |data| && 0 <= j < |data[i]|
      ensures flat[TotalLength(data[..i]) + j] == data[i][j]
    {
      ConcatAt(data, i, j);
    }
  }

  /**
    The client's binning (`inputs[i]` pushed to bin `i % cnbins`): bin b holds
    exactly the inputs whose index is congruent to b, in input order: the
    first `|inputs| % cnbins` bins one more than the others, and no element is
    lost or added.
  */
  method ClientBins(inputs: seq<u64>, cnbins: nat) returns (table: seq<seq<u64>>)
    requires cnbins > 0
    ensures |table| == cnbins
    ensures forall b :: 0 <= b < cnbins ==>
      |table[b]| == |inputs| / cnbins + (if b < |inputs| % cnbins then 1 else 0)
    ensures RoundRobinPlaced(table, inputs, cnbins, |inputs|)
    ensures forall i :: 0 <= i < |inputs| ==>
      i / cnbins < |table[i % cnbins]| && table[i % cnbins][i / cnbins] == inputs[i]
    ensures TotalLength(table) == |inputs|
  {
    table := seq(cnbins, _ => []);
    ZeroTotalLength(table);
    ghost var q, r := 0, 0;
    for i := 0 to |inputs|
      invariant |table| == cnbins
      invariant 0 <= r < cnbins && i == q * cnbins + r
      invariant BinSizes(table, q, r)
      invariant RoundRobinPlaced(table, inputs, cnbins, i)
      invariant TotalLength(table) == i
    {
      DivModOfMultiplePlus(q, cnbins, r);
      var bin := i % cnbins;
      TotalLengthAppend(table, bin, inputs[i]);
      var next := table[bin := table[bin] + [inputs[i]]];
      BinSizesStep(table, inputs[i], q, r);
      RoundRobinPlacement(table, inputs, cnbins, i, bin);
      table := next;
      if r + 1 < cnbins {
        r := r + 1;
      } else {
        assert (q + 1) * cnbins == q * cnbins + cnbins;
        q, r := q + 1, 0;
      }
    }
    DivModOfMultiplePlus(q, cnbins, r);
    RoundRobinIndexAll(table, inputs, cnbins);
  }

  /** Bins before `r` hold `q + 1` elements, the others `q`. */
  ghost predicate BinSizes<T>(table: seq<seq<T>>, q: nat, r: nat) {
    forall b :: 0 <= b < |table| ==> |table[b]| == q + (if b < r then 1 else 0)
  }

  /** Appending to bin `r` moves the boundary one bin on, wrapping to a new round. */
  lemma BinSizesStep<T>(table: seq<seq<T>>, x: T, q: nat, r: nat)
    requires BinSizes(table, q, r) && r < |table|
    ensures |table[r]| == q
    ensures r + 1 < |table| ==> BinSizes(table[r := table[r] + [x]], q, r + 1)
    ensures r + 1 == |table| ==> BinSizes(table[r := table[r] + [x]], q + 1, 0)
  {
  }

  /** Element j of bin b is the input at index b + j*c, which is below n. */
  ghost predicate PlacedAt(table: seq<seq<u64>>, inputs: seq<u64>, c: nat, n: nat, b: nat, j: nat) {
    b < |table| && j < |table[b]| && b + j * c < n <= |inputs| && table[b][j] == inputs[b + j * c]
  }

  /** Every element of every bin is placed round-robin: bin b, position j holds input b + j*c. */
  ghost predicate RoundRobinPlaced(table: seq<seq<u64>>, inputs: seq<u64>, c: nat, n: nat) {
    forall b: nat, j: nat :: b < |table| && j < |table[b]| ==> PlacedAt(table, inputs, c, n, b, j)
  }

  /** Appending input i at position |table[bin]| of bin `bin` keeps every element in its place. */
  lemma RoundRobinPlacement(table: seq<seq<u64>>, inputs: seq<u64>, c: nat, i: nat, bin: nat)
    requires bin < |table| && i < |inputs|
    requires RoundRobinPlaced(table, inputs, c, i)
    requires bin + |table[bin]| * c == i
    ensures RoundRobinPlaced(table[bin := table[bin] + [inputs[i]]], inputs, c, i + 1)
  {
    var next, n := table[bin := table[bin] + [inputs[i]]], i + 1;
    forall b: nat, j: nat {:trigger PlacedAt(next, inputs, c, n, b, j)} | b < |next| && j < |next[b]|
      ensures PlacedAt(next, inputs, c, n, b, j)
    {
      if b != bin || j < |table[bin]| {
        assert PlacedAt(table, inputs, c, i, b, j);
        assert next[b][j] == table[b][j];
      } else {
        assert j == |table[bin]|;
        assert next[b][j] == inputs[i];
      }
    }
  }

  /** With the final bin sizes, input i sits in bin i % c at position i / c. */
  lemma RoundRobinIndex(table: seq<seq<u64>>, inputs: seq<u64>, c: nat, i: nat)
    requires c > 0 && |table| == c && i < |inputs|
    requires BinSizes(table, |inputs| / c, |inputs| % c)
    requires RoundRobinPlaced(table, inputs, c, |inputs|)
    ensures i / c < |table[i % c]| && table[i % c][i / c] == inputs[i]
  {
    var n, b, j := |inputs|, i % c, i / c;
    assert b + j * c == i;
    DivModBelow(i, n, c);
    assert |table[b]| == n / c + (if b < n % c then 1 else 0);
    assert PlacedAt(table, inputs, c, n, b, j);
  }

  lemma RoundRobinIndexAll(table: seq<seq<u64>>, inputs: seq<u64>, c: nat)
    requires c > 0 && |table| == c
    requires BinSizes(table, |inputs| / c, |inputs| % c)
    requires RoundRobinPlaced(table, inputs, c, |inputs|)
    ensures forall i :: 0 <= i < |inputs| ==> i / c < |table[i % c]| && table[i % c][i / c] == inputs[i]
  {
    forall i | 0 <= i < |inputs|
      ensures i / c < |table[i % c]| && table[i % c][i / c] == inputs[i]
    {
      RoundRobinIndex(table, inputs, c, i);
    }
  }

  lemma {:induction false} ZeroTotalLength<T>(t: seq<seq<T>>)
    requires forall k :: 0 <= k < |t| ==> t[k] == []
    ensures TotalLength(t) == 0
  {
    if t != [] {
      ZeroTotalLength(t[..|t| - 1]);
    }
  }

  /** Under the server binning's precondition a row that starts inside the input ends inside it. */
  lemma RowFits(n: nat, snbins: nat, sneles: nat, i: nat)
    requires sneles == 0 || n % sneles == 0 || n >= snbins * sneles
    requires i < snbins && i * sneles < n
    ensures (i + 1) * sneles <= n && i * sneles + sneles <= n
  {
    MulSucc(i, sneles);
    if sneles > 0 && n % sneles == 0 {
      var m := n / sneles;
      assert n == m * sneles;
      if i >= m {
        MulMonotone(m, i, sneles);
      }
      MulMonotone(i + 1, m, sneles);
    } else if sneles > 0 {
      MulMonotone(i + 1, snbins, sneles);
    }
  }

  /** Rows 0 .. i-1 each hold their full slice of `sneles` inputs. */
  ghost predicate RowsFilled(table: seq<seq<u64>>, inputs: seq<u64>, sneles: nat, i: nat) {
    i <= |table| &&
    forall r :: 0 <= r < i ==>
      r * sneles + sneles <= |inputs| && table[r] == inputs[r * sneles..r * sneles + sneles]
  }

  lemma FillRow(table: seq<seq<u64>>, inputs: seq<u64>, sneles: nat, i: nat)
    requires RowsFilled(table, inputs, sneles, i) && i < |table|
    requires i * sneles + sneles <= |inputs|
    ensures RowsFilled(table[i := inputs[i * sneles..i * sneles + sneles]], inputs, sneles, i + 1)
  {
  }

  /** Once the loop stops, the filled rows are the ones that start inside the input. */
  lemma ServerRowsFinal(table: seq<seq<u64>>, inputs: seq<u64>, snbins: nat, sneles: nat, i: nat)
    requires |table| == snbins && RowsFilled(table, inputs, sneles, i)
    requires forall r :: i <= r < snbins ==> table[r] == []
    requires i == snbins || i * sneles >= |inputs|
    ensures forall r :: 0 <= r < snbins && r * sneles < |inputs| ==>
      (r + 1) * sneles <= |inputs| && table[r] == inputs[r * sneles..(r + 1) * sneles]
    ensures forall r :: 0 <= r < snbins && r * sneles >= |inputs| ==> table[r] == []
  {
    forall r | 0 <= r < snbins && r * sneles < |inputs|
      ensures (r + 1) * sneles <= |inputs| && table[r] == inputs[r * sneles..(r + 1) * sneles]
    {
      assert (r + 1) * sneles == r * sneles + sneles;
      if r >= i {
        MulMonotone(i, r, sneles);
      }
    }
    forall r | 0 <= r < snbins && r * sneles >= |inputs|
      ensures table[r] == []
    {
      if r < i {
        assert table[r] == inputs[r * sneles..r * sneles + sneles];
      }
    }
  }

  /** The inner loop of the server's binning: appends `len` inputs from `start` to row `i`. */
  method CopyRow(table: seq<seq<u64>>, inputs: seq<u64>, i: nat, start: nat, len: nat)
    returns (next: seq<seq<u64>>, end: nat)
    requires i < |table| && table[i] == [] && start + len <= |inputs|
    ensures end == start + len
    ensures next == table[i := inputs[start..end]]
  {
    next, end := table, start;
    assert inputs[start..end] == [];
    assert table[i := inputs[start..end]] == table;
    for j := 0 to len
      invariant end == start + j
      invariant next == table[i := inputs[start..end]]
    {
      assert inputs[start..end + 1] == inputs[start..end] + [inputs[end]];
      next := next[i := next[i] + [inputs[end]]];
      end := end + 1;
    }
  }

  /**
    The server's binning: rows of `sneles` consecutive inputs, filled while
    rows and inputs remain. The inner loop reads without a bounds check, so the
    input must not end inside a row: its length is a multiple of `sneles` or
    covers all `snbins` rows.
  */
  method ServerBins(inputs: seq<u64>, snbins: nat, sneles: nat) returns (table: seq<seq<u64>>)
    requires sneles == 0 || |inputs| % sneles == 0 || |inputs| >= snbins * sneles
    ensures |table| == snbins
    ensures forall i :: 0 <= i < snbins && i * sneles < |inputs| ==>
      (i + 1) * sneles <= |inputs| && table[i] == inputs[i * sneles..(i + 1) * sneles]
    ensures forall i :: 0 <= i < snbins && i * sneles >= |inputs| ==> table[i] == []
  {
    table := seq(snbins, _ => []);
    var inputIndex := 0;
    var i := 0;
    while i < snbins && inputIndex < |inputs|
      invariant 0 <= i <= snbins
      invariant inputIndex == i * sneles <= |inputs|
      invariant |table| == snbins
      invariant RowsFilled(table, inputs, sneles, i)
      invariant forall r :: i <= r < snbins ==> table[r] == []
    {
      RowFits(|inputs|, snbins, sneles, i);
      ghost var before := table;
      table, inputIndex := CopyRow(table, inputs, i, inputIndex, sneles);
      FillRow(before, inputs, sneles, i);
      MulSucc(i, sneles);
      i := i + 1;
    }
    ServerRowsFinal(table, inputs, snbins, sneles, i);
  }

  /**
    `fromClientOprfData`: one value per block for the first `size` blocks, the
    XOR of that block's two lanes.
  */
  method FromClientOprfData(data: seq<Block>, size: nat) returns (r: seq<u64>)
    ensures |r| == Min(|data|, size)
    ensures forall i :: 0 <= i < |r| ==> r[i] == BlockToUint64Xor(data[i])[0]
  {
    var table: seq<seq<u64>> := seq(size, _ => []);
    var i := 0;
    while i < |data| && i < size
      invariant 0 <= i <= Min(|data|, size)
      invariant |table| == size
      invariant forall k :: 0 <= k < i ==> table[k] == BlockToUint64Xor(data[k])
      invariant forall k :: i <= k < size ==> table[k] == []
    {
      var xorResult := BlockToUint64Xor(data[i]);
      table := table[i := table[i] + xorResult];
      i := i + 1;
    }
    r := Flatten(table);
    ConcatSingletons(table, i);
  }

  /** The lane XOR of each block, in order. */
  function LaneXors(blocks: seq<Block>): (r: seq<u64>)
    ensures |r| == |blocks|
    ensures forall k :: 0 <= k < |blocks| ==> r[k] == BlockToUint64Xor(blocks[k])[0]
  {
    if blocks == [] then [] else LaneXors(blocks[..|blocks| - 1]) + BlockToUint64Xor(blocks[|blocks| - 1])
  }

  /** One more block appends its lane XOR. */
  lemma LaneXorsSnoc(blocks: seq<Block>, k: nat)
    requires k < |blocks|
    ensures LaneXors(blocks[..k + 1]) == LaneXors(blocks[..k]) + BlockToUint64Xor(blocks[k])
  {
    assert blocks[..k + 1][..k] == blocks[..k];
  }

  /**
    `fromServerOprfData`: exactly `snbins` rows; row i holds the lane XOR of
    each block of `data[i]`, in order, and is empty when `data` has no row i.
    The branch that would open an extra row tests a counter that never leaves
    0, so it never fires; evaluating its `% sneles` still needs `sneles != 0`
    whenever a block is processed.
  */
  method FromServerOprfData(data: seq<seq<Block>>, sneles: nat, snbins: nat) returns (table: seq<seq<u64>>)
    requires sneles > 0 || forall i :: 0 <= i < |data| && i < snbins ==> data[i] == []
    ensures |table| == snbins
    ensures forall i :: 0 <= i < snbins ==> |table[i]| == (if i < |data| then |data[i]| else 0)
    ensures forall i, k :: 0 <= i < snbins && i < |data| && 0 <= k < |data[i]| ==>
      table[i][k] == BlockToUint64Xor(data[i][k])[0]
  {
    table := seq(snbins, _ => []);
    for i := 0 to snbins
      invariant |table| == snbins
      invariant forall r :: 0 <= r < i ==> table[r] == if r < |data| then LaneXors(data[r]) else []
      invariant forall r :: i <= r < snbins ==> table[r] == []
    {
      if i < |data| {
        table := XorRow(table, i, data[i], sneles);
      }
    }
  }

  /**
    The inner loop of `fromServerOprfData`: appends the lane XOR of each block
    of one server row to bin i. Its row counter stays 0, so the branch that
    would add a new bin never fires.
  */
  method XorRow(table: seq<seq<u64>>, i: nat, blocks: seq<Block>, sneles: nat) returns (next: seq<seq<u64>>)
    requires i < |table| && table[i] == []
    requires sneles > 0 || blocks == []
    ensures next == table[i := LaneXors(blocks)]
  {
    var index1 := 0;
    next := table;
    assert blocks[..0] == [];
    for k := 0 to |blocks|
      invariant |next| == |table| && next[i] == LaneXors(blocks[..k])
      invariant forall r :: 0 <= r < |table| && r != i ==> next[r] == table[r]
    {
      LaneXorsSnoc(blocks, k);
      var xorResult := BlockToUint64Xor(blocks[k]);
      if index1 % sneles == 0 && index1 != 0 {
        next := next + [[]];
      }
      next := next[i := next[i] + xorResult];
    }
    assert blocks[..|blocks|] == blocks;
    assert next == table[i := LaneXors(blocks)];
  }

  /** The batch size of the equality comparison. */
  const BATCH_SIZE: nat := 8

  /** `num_cmps`: the bin count plus its remainder modulo the batch size. */
  function NumCmps(nbins: nat): (r: nat)
    ensures nbins <= r < nbins + BATCH_SIZE
    ensures r == nbins <==> nbins % BATCH_SIZE == 0
  {
    nbins + nbins % BATCH_SIZE
  }

  /**
    The client's comparison buffer: bin i holds `inputs[i]`, or the next random
    filler once the inputs run out; then `nbins % 8` copies of the client pad
    constant fill it to its intended length `num_cmps`.
  */
  method ClientCompareBuffer(inputs: seq<u64>, nbins: nat, fillers: seq<u64>, padValue: u64)
    returns (buf: seq<u64>)
    requires |inputs| < nbins ==> nbins - |inputs| <= |fillers|
    requires forall k :: 0 <= k < |fillers| ==> fillers[k] <= 10000
    ensures |buf| == NumCmps(nbins)
    ensures forall i :: 0 <= i < nbins ==>
      buf[i] == if i < |inputs| then inputs[i] else fillers[i - |inputs|]
    ensures forall i :: |inputs| <= i < nbins ==> buf[i] <= 10000
    ensures forall i :: nbins <= i < |buf| ==> buf[i] == padValue
  {
    var rmdr := nbins % BATCH_SIZE;
    buf := [];
    var drawn := 0;
    for i := 0 to nbins
      invariant |buf| == i
      invariant drawn == if i < |inputs| then 0 else i - |inputs|
      invariant forall p :: 0 <= p < i ==>
        buf[p] == if p < |inputs| then inputs[p] else fillers[p - |inputs|]
    {
      if i < |inputs| {
        buf := buf + [inputs[i]];
      } else {
        buf := buf + [fillers[drawn]];
        drawn := drawn + 1;
      }
    }
    for i := 0 to rmdr
      invariant |buf| == nbins + i
      invariant forall p :: 0 <= p < nbins ==>
        buf[p] == if p < |inputs| then inputs[p] else fillers[p - |inputs|]
      invariant forall p :: nbins <= p < |buf| ==> buf[p] == padValue
    {
      buf := buf + [padValue];
    }
  }

  /**
    The server's comparison buffer: `nbins` rows of 8 elements, taking the
    inputs in order and then random fillers; then `8 * (nbins % 8)` copies of
    the server pad constant fill it to its intended length `8 * num_cmps`.
  */
  method ServerCompareBuffer(inputs: seq<u64>, nbins: nat, fillers: seq<u64>, padValue: u64)
    returns (buf: seq<u64>)
    requires |inputs| < BATCH_SIZE * nbins ==> BATCH_SIZE * nbins - |inputs| <= |fillers|
    requires forall k :: 0 <= k < |fillers| ==> fillers[k] <= 1000
    ensures |buf| == BATCH_SIZE * NumCmps(nbins)
    ensures forall p :: 0 <= p < BATCH_SIZE * nbins ==>
      buf[p] == if p < |inputs| then inputs[p] else fillers[p - |inputs|]
    ensures forall p :: |inputs| <= p < BATCH_SIZE * nbins ==> buf[p] <= 1000
    ensures forall p :: BATCH_SIZE * nbins <= p < |buf| ==> buf[p] == padValue
  {
    var pad := BATCH_SIZE * (nbins % BATCH_SIZE);
    buf := [];
    var inputIndex := 0;
    var drawn := 0;
    for i := 0 to nbins
      invariant |buf| == BATCH_SIZE * i
      invariant inputIndex == Min(|inputs|, |buf|) && drawn == |buf| - inputIndex
      invariant forall p :: 0 <= p < |buf| ==>
        buf[p] == if p < |inputs| then inputs[p] else fillers[p - |inputs|]
    {
      for j := 0 to BATCH_SIZE
        invariant |buf| == BATCH_SIZE * i + j
        invariant inputIndex == Min(|inputs|, |buf|) && drawn == |buf| - inputIndex
        invariant forall p :: 0 <= p < |buf| ==>
          buf[p] == if p < |inputs| then inputs[p] else fillers[p - |inputs|]
      {
        if inputIndex < |inputs| {
          buf := buf + [inputs[inputIndex]];
          inputIndex := inputIndex + 1;
        } else {
          buf := buf + [fillers[drawn]];
          drawn := drawn + 1;
        }
      }
    }
    for i := 0 to pad
      invariant |buf| == BATCH_SIZE * nbins + i
      invariant forall p :: 0 <= p < BATCH_SIZE * nbins ==>
        buf[p] == if p < |inputs| then inputs[p] else fillers[p - |inputs|]
      invariant forall p :: BATCH_SIZE * nbins <= p < |buf| ==> buf[p] == padValue
    {
      buf := buf + [padValue];
    }
  }
}
