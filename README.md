# Sequential core of the multi-party set-membership protocols

This project models the sequential data-shaping and share arithmetic of a
multi-party private set-membership system. Several clients and several
servers each hold a list of 64-bit identifiers and learn whether (PSM1, PSM2)
or how (PSM3) the lists intersect. The network, oblivious transfer,
Paillier encryption and the OpenSSL key exchange are left out. Their outputs
become inputs of the model.

Modules, one per file:

- `Block` (block.dfy): an OT block as sixteen bytes in memory order. It holds
  its two little-endian 64-bit lanes, `blockToUint64Xor`, and `blockToHex`
  with a decoder that inverts it.
- `KeyAgreement` (ka.dfy): the key cache of class `KA` as a Dafny class, and
  `keys(n)`. It also holds `compute_shared_secret`: the EVP calls' outcomes
  are a record of inputs, and the byte fold runs modulo 2^32.
- `Bins` (bins.dfy): `flatten`, the server's row-major binning and the client's
  round-robin binning. Also `fromClientOprfData`, `fromServerOprfData`, and
  the PSM3 comparison buffers padded to `num_cmps = nbins + nbins % 8`.
- `Leader` (leader.dfy): the PSM1 match count and its {0, 1, 2} verdict, and
  the PSM2 homomorphic product. Ciphertexts there are opaque naturals.
- `Wire` (wire.dfy): the `"<N>|<G>"` parameter message and its split at the
  first `'|'`, with `npos` and the `i + 1` wrap-around.
- `Accumulate` (accumulate.dfy): the two `std::accumulate` folds. One is the
  integer sum, the other the XOR of 8-bit result shares.
- `SecureEquality` (secure_equality.dfy): `splitIntoShares`, the Beaver-triple
  product, the per-party values `x - 2*z0` and `y - 2*z1 + sum(keys)`, and the
  leaders' totals.
- `Pairwise` (pairwise.dfy): the pairwise mask-key bookkeeping. It has the
  `isShared` matrix, per-server `keys` and `keyOfShared`, both as a pure
  transition system and as a class whose methods update the fields in place.
  `getSharedCount` is the loop's exit measure.
- `Arithmetic` (arith.dfy) and `Wrappers` (wrappers.dfy): small shared facts
  and the `Option` type.

Integers are unbounded except where the source's width shows in the result:
- the 32-bit byte fold of `compute_shared_secret`;
- `npos` and `i + 1` in the wire split;
- the 64-bit lanes;
- the 8-bit result shares.

The Beaver arithmetic is proved over unbounded integers. `DealFitsInt32`
then proves that each value the exchange computes fits the 32-bit `int`:
the shares, the published halves, e and f, the five products, every partial
sum of z0 and z1, and the final `x - 2*z0` and `y - 2*z1`.

The binning code adds no random padding to the bins:
- the client's round-robin bins receive only the inputs
  (src/common/functionalities.cpp:187-190);
- the server's rows past the end of the input stay empty (333-340).

Random filler appears only in the PSM3 comparison buffers (636-649,
684-699), and there it is modelled.

## Model

| member | source | states |
|---|---|---|
| `Block.BlockToUint64Xor` | src/common/block.hpp:8-18 | a one-element vector holding the XOR of the high lane and the low lane |
| `Block.LaneXorRecovers` | src/common/block.hpp:14 | XOR-ing the result with either lane gives back the other lane |
| `Block.LaneXorZeroIff` | src/common/block.hpp:14 | the lane XOR is 0 exactly when the two lanes are equal |
| `Block.LaneXorSymmetric` | src/common/block.hpp:10-14 | exchanging the two lanes does not change the result |
| `Block.Low` | src/common/block.hpp:10 | the low lane is the little-endian value of bytes 0..7 (a definition; the lane lemmas below state its properties) |
| `Block.High` | src/common/block.hpp:11 | the high lane is the little-endian value of bytes 8..15 (a definition; the lane lemmas below state its properties) |
| `Block.HexPair` | src/common/block.hpp:25 | one byte writes exactly two characters, both lowercase hex digits |
| `Block.HexEncode` | src/common/block.hpp:24-26 | the stream text is two characters per byte written |
| `Block.HexEncodeAt` | src/common/block.hpp:23-26 | characters 2i and 2i+1 are the zero-padded high and low nibble digits of byte i, in memory order |
| `Block.HexEncodeAlphabet` | src/common/block.hpp:23 | every character written is a lowercase hex digit |
| `Block.DecodePairOfHexPair` | src/common/block.hpp:25 | the two digits written for a byte read back as that byte |
| `Block.HexRoundTrip` | src/common/block.hpp:20-28 | decoding an encoding pairwise gives back exactly the encoded bytes |
| `Block.BlockToHex` | src/common/block.hpp:20-28 | the loop builds the encoding of the 16 bytes: 32 lowercase digits, two per byte, high nibble first, decoding back to the block |
| `KeyAgreement.KeyStep` | src/common/KA.hpp:95-109 | `key(createNew)` calls the generator exactly when no key is stored or a new one is asked for, and keeps every stored key one the generator made |
| `KeyAgreement.KeyCreateNewBypasses` | src/common/KA.hpp:98-103 | `key(true)` returns a key never handed out before and leaves the stored key unchanged |
| `KeyAgreement.KeyCached` | src/common/KA.hpp:95-109 | `key(false)` generates only when no key is stored, stores it, and a second `key(false)` returns the same key without generating |
| `KeyAgreement.KA.constructor` | src/common/KA.hpp:77-84 | a new object stores no key, has generated none, and meets the cache invariant |
| `KeyAgreement.KA.GenerateKey` | src/common/KA.hpp:60-67 | each call yields a key distinct from all earlier ones, leaves the stored key alone and keeps the cache invariant |
| `KeyAgreement.KA.Key` | src/common/KA.hpp:95-109 | the new cache state and the returned key are those of the cache transition, and the cache invariant still holds |
| `KeyAgreement.KA.Keys` | src/common/KA.hpp:111-122 | exactly n keys, each freshly generated in order, with the stored key untouched and the cache invariant kept |
| `KeyAgreement.KeysDistinct` | src/common/KA.hpp:111-122 | the keys of one `keys(n)` call are pairwise distinct |
| `KeyAgreement.Fold` | src/common/KA.hpp:51-54 | the folded value always fits an unsigned 32-bit pattern |
| `KeyAgreement.AsInt32` | src/common/KA.hpp:51 | the `int` that holds a 32-bit pattern lies in the int32 range and agrees with it modulo 2^32 |
| `KeyAgreement.ShiftOrMod` | src/common/KA.hpp:53 | on 32 bits, shifting left by eight and or-ing in a byte is multiplying by 256 and adding the byte, modulo 2^32 |
| `KeyAgreement.FoldSnoc` | src/common/KA.hpp:53 | when the 32-bit `key_as_int` holds the fold of the bytes so far, `(key_as_int << 8) \| byte` holds the fold with the next byte |
| `KeyAgreement.FoldBitsIsFold` | src/common/KA.hpp:51-54 | the shift-and-or loop over the whole buffer, on 32-bit patterns, yields the byte fold modulo 2^32 |
| `KeyAgreement.Fold4` | src/common/KA.hpp:52-54 | four bytes fold to their big-endian value |
| `KeyAgreement.FoldLastFour` | src/common/KA.hpp:52-54 | in 32-bit arithmetic only the last four bytes of the buffer matter |
| `KeyAgreement.ComputeSharedSecret` | src/common/KA.hpp:12-58 | an empty vector exactly when a setup step fails, and otherwise one int, the fold of the derived bytes (0 when the final derive fails and the buffer is cleared) |
| `Bins.ConcatLength` | src/common/functionalities.cpp:45-51 | the concatenation is as long as all buckets together |
| `Bins.ConcatAt` | src/common/functionalities.cpp:45-51 | element j of bucket i sits at the total length of the buckets before i, plus j |
| `Bins.Flatten` | src/common/functionalities.cpp:45-51 | the loop returns the concatenation of the buckets, bucket after bucket and each in order |
| `Bins.ClientBins` | src/common/functionalities.cpp:187-190 | `cnbins` bins; input i sits in bin `i % cnbins` at position `i / cnbins`; bin b holds one element more than `|inputs| / cnbins` exactly when `b < |inputs| % cnbins`; nothing is lost |
| `Bins.RoundRobinPlacement` | src/common/functionalities.cpp:188-189 | one more push keeps every element of every bin at its round-robin input index |
| `Bins.RoundRobinIndex` | src/common/functionalities.cpp:189 | after the loop, input i is element `i / c` of bin `i % c` |
| `Bins.RowFits` | src/common/functionalities.cpp:337-338 | when the input length is a multiple of `sneles` or covers every row, a row that starts inside the input ends inside it, so the unchecked reads stay in bounds |
| `Bins.CopyRow` | src/common/functionalities.cpp:337-339 | the inner loop sets row i to the `sneles` inputs that start at the current index, and changes no other row |
| `Bins.ServerBins` | src/common/functionalities.cpp:333-340 | `snbins` rows; row i is `inputs[i*sneles .. (i+1)*sneles)` when it starts inside the input, and empty otherwise |
| `Bins.FromClientOprfData` | src/common/functionalities.cpp:59-70 | `min(|data|, size)` values, value i being the lane XOR of block i |
| `Bins.XorRow` | src/common/functionalities.cpp:81-90 | the inner loop sets bin i to the lane XORs of the row's blocks, in order, and changes no other bin |
| `Bins.FromServerOprfData` | src/common/functionalities.cpp:72-94 | exactly `snbins` rows; row i holds the lane XOR of each block of `data[i]` in order, or nothing when `data` has no row i; the extra-row branch never fires |
| `Bins.NumCmps` | src/common/functionalities.cpp:617-618 | `num_cmps` is at least `nbins` and less than `nbins + 8`, and equals `nbins` exactly when `nbins` is a multiple of 8 |
| `Bins.ClientCompareBuffer` | src/common/functionalities.cpp:617-649 | `num_cmps` entries: the inputs, then random fillers at most 10000 up to `nbins`, then `nbins % 8` copies of the client pad constant |
| `Bins.ServerCompareBuffer` | src/common/functionalities.cpp:684-699 | `8 * num_cmps` entries: the inputs, then random fillers at most 1000 up to `8 * nbins`, then `8 * (nbins % 8)` copies of the server pad constant |
| `Leader.CountMatches` | src/common/functionalities.cpp:524-536 | the triple loop counts the (client index, server row, server column) triples with equal values, and counts 0 exactly when no client value occurs in any server row |
| `Leader.CountAllZeroIff` | src/common/functionalities.cpp:526-536 | the count is 0 exactly when no client value occurs in any server row |
| `Leader.CountServerFlat` | src/common/functionalities.cpp:528-535 | counting over the rows of the server table is counting in the flattened table |
| `Leader.CountIsIntersectionSize` | src/common/functionalities.cpp:524-536 | with duplicate-free lists the count is the size of the intersection |
| `Leader.Classify` | src/common/functionalities.cpp:540-545 | the verdict is 0 exactly for no match, 1 exactly for 1 to g matches and 2 exactly for more than g |
| `Leader.PsmVerdict` | src/common/functionalities.cpp:524-545 | for duplicate-free client and server lists, the verdict in terms of the intersection: empty, at most g elements, more than g elements |
| `Leader.AccAllIsReduce` | src/common/functionalities.cpp:556-568 | the repeated reduced product equals the start value times the product of all matching ciphertexts, reduced once |
| `Leader.HomomorphicSum` | src/common/functionalities.cpp:554-568 | the loop leaves the start ciphertext alone when nothing matches, and otherwise gives it times the product of the matching ciphertexts modulo N² |
| `Wire.Decimal` | src/common/functionalities.cpp:204 | a number prints as a non-empty digit string with no leading zero |
| `Wire.ParseDecimal` | src/common/functionalities.cpp:362-363 | a value comes back exactly for non-empty all-digit strings |
| `Wire.DecimalRoundTrip` | src/common/functionalities.cpp:362-363 | parsing the printed decimal of n gives back n |
| `Wire.EncodeParams` | src/common/functionalities.cpp:203-205 | the message is N's digits, the separator, then G's digits |
| `Wire.Find` | src/common/functionalities.cpp:359 | `npos` exactly when the character is absent, otherwise the index of its first occurrence |
| `Wire.Substr` | src/common/functionalities.cpp:360-361 | the substring is the longest run of at most `len` characters from `pos` |
| `Wire.SplitParams` | src/common/functionalities.cpp:359-361 | with a separator, the halves rejoin around it to the message and the first half holds none; without one, both halves are the whole message |
| `Wire.DecodeParams` | src/common/functionalities.cpp:359-363 | decoding succeeds exactly when both halves parse, and the decoded numbers are their parsed values |
| `Wire.SplitEncoded` | src/common/functionalities.cpp:359-361 | splitting the leader's message gives back the two decimal strings |
| `Wire.ParamsRoundTrip` | src/common/functionalities.cpp:203-205 | every receiver recovers exactly the leader's N and G |
| `Wire.UnseparatedMessage` | src/common/functionalities.cpp:359-363 | a message without a separator decodes to the same number twice, or to nothing |
| `Accumulate.Sum` | src/common/functionalities.cpp:920 | `std::accumulate` with `+` from 0, left to right (a definition; SumAppend and the totals lemmas state its properties) |
| `Accumulate.XorFold` | src/common/functionalities.cpp:836 | `std::accumulate` with `bit_xor` from 0 (a definition; the two lemmas below state its properties) |
| `Accumulate.XorFoldOfBits` | src/common/functionalities.cpp:836 | folding bit shares with XOR gives a bit, and the bit is 1 exactly when an odd number of the shares are 1 |
| `Accumulate.XorFoldCombine` | src/common/functionalities.cpp:836 | the XOR of the two parties' folded shares is the fold of their position-wise XOR |
| `SecureEquality.SplitIntoShares` | src/common/functionalities.cpp:114-118 | the two shares add up to the number and the first lies in [1, 100] |
| `SecureEquality.MakeDeal` | src/common/functionalities.cpp:845-852 | the server's triple is honest, its shares adding up to a, b and a*b |
| `SecureEquality.OpenHalves` | src/common/functionalities.cpp:868-909 | the halves the two sides publish add up to x - a and y - b |
| `SecureEquality.Open` | src/common/functionalities.cpp:910-911 | the opened e and f are x - a and y - b |
| `SecureEquality.ServerZ` | src/common/functionalities.cpp:918 | the server's `z1 = c1 + a1*f + b1*e` (a definition; BeaverProduct states its property) |
| `SecureEquality.ClientZ` | src/common/functionalities.cpp:934 | the client's `z0 = c0 + a0*f + b0*e + e*f` (a definition; BeaverProduct states its property) |
| `SecureEquality.ServerValue` | src/common/functionalities.cpp:919-920 | the server's `y - 2*z1` plus the sum of its keys (a definition; SessionRevealsXor and TotalsReveal state its properties) |
| `SecureEquality.ClientValue` | src/common/functionalities.cpp:935 | the client's `x - 2*z0` (a definition; SessionRevealsXor and TotalsReveal state its properties) |
| `SecureEquality.BeaverProduct` | src/common/functionalities.cpp:913-934 | the client's z0 and the server's z1 add up to x*y |
| `SecureEquality.SessionRevealsXor` | src/common/functionalities.cpp:916-935 | for bits, `(x - 2*z0) + (y - 2*z1)` is x XOR y |
| `SecureEquality.DealFitsInt32` | src/common/functionalities.cpp:841-935 | with the drawn ranges and bit inputs, a*b, the six shares, the four published halves, e, f, the five products, each partial sum of z0 and z1, twice z0 and z1, and both final values fit the 32-bit `int` |
| `SecureEquality.ServerResults` | src/common/functionalities.cpp:922 | slot i of `serverResult` holds server i's value |
| `SecureEquality.ClientResults` | src/common/functionalities.cpp:937 | slot i of `clientResult` holds client i's value |
| `SecureEquality.ServerTotal` | src/common/functionalities.cpp:926-930 | the server leader's sum over `serverResult` (a definition; TotalsReveal states its property) |
| `SecureEquality.ClientTotal` | src/common/functionalities.cpp:941-945 | the client leader's sum over `clientResult` (a definition; TotalsReveal states its property) |
| `SecureEquality.TotalsReveal` | src/common/functionalities.cpp:916-945 | the two leaders' totals add up to the number of sessions with differing bits plus the sum of all pairwise keys |
| `SecureEquality.KeysCancel` | src/common/functionalities.cpp:916-945 | when the keys sum to zero the totals reveal exactly the number of differing sessions |
| `SecureEquality.SetupThenTotals` | src/common/functionalities.cpp:916-945 | after a pairwise setup in which every two servers met, the two leaders' totals add up to exactly the number of sessions whose bits differ |
| `SecureEquality.SessionParity` | src/common/functionalities.cpp:836 | the folded shares are bits, and they differ exactly when the combined shares have odd parity |
| `Pairwise.Initial` | src/common/functionalities.cpp:717-719 | n rows of n unset marks and n zero keys |
| `Pairwise.First` | src/common/functionalities.cpp:745-763 | the first action keeps the table's shape |
| `Pairwise.Second` | src/common/functionalities.cpp:767-777 | the second action keeps the table's shape |
| `Pairwise.Round` | src/common/functionalities.cpp:733-778 | one meeting keeps the table's shape |
| `Pairwise.InitialValid` | src/common/functionalities.cpp:717-719 | the start state meets the bookkeeping invariant |
| `Pairwise.RoundFresh` | src/common/functionalities.cpp:745-777 | a meeting on an unmarked pair marks both directions, gives the first the secret and the second its negation, sets `keyOfShared`, and changes no other cell |
| `Pairwise.RoundMarked` | src/common/functionalities.cpp:745-777 | a meeting on a marked pair changes nothing |
| `Pairwise.RoundSum` | src/common/functionalities.cpp:754-769 | a fresh meeting leaves the sum of all keys unchanged |
| `Pairwise.RoundValid` | src/common/functionalities.cpp:745-777 | every meeting of two distinct servers keeps the invariant: no self marks, symmetric marks, zero keys on unmarked pairs, opposite keys, zero total |
| `Pairwise.SharedCount` | src/common/functionalities.cpp:96-105 | the count of unset marks never exceeds the row's length |
| `Pairwise.SharedCountZero` | src/common/functionalities.cpp:96-105 | the count is 0 exactly when every mark is set |
| `Pairwise.SharedCountMark` | src/common/functionalities.cpp:96-105 | setting an unset mark lowers the count by one |
| `Pairwise.SharedCountOne` | src/common/functionalities.cpp:731 | the loop guard fails exactly when every mark of the row but the server's own is set |
| `Pairwise.RoundCounts` | src/common/functionalities.cpp:745-777 | a fresh meeting lowers the counts of both servers' rows by one |
| `Pairwise.Run` | src/common/functionalities.cpp:731-779 | the meetings of a schedule, in order, keep the table's shape |
| `Pairwise.RunValid` | src/common/functionalities.cpp:731-779 | any schedule of meetings keeps the invariant |
| `Pairwise.RunMarks` | src/common/functionalities.cpp:731-779 | a pair that met at some point is marked both ways at the end |
| `Pairwise.CompleteRun` | src/common/functionalities.cpp:731-779 | after a schedule in which every two servers meet, every loop guard is false and all keys sum to zero |
| `Pairwise.GetSharedCount` | src/common/functionalities.cpp:96-105 | the loop counts the unset marks, and counts 0 exactly when all are set |
| `Pairwise.PairwiseKeys.constructor` | src/common/functionalities.cpp:717-719 | the fields start as the initial table, which meets the invariant |
| `Pairwise.PairwiseKeys.FirstAction` | src/common/functionalities.cpp:745-763 | the fields become the first action's table |
| `Pairwise.PairwiseKeys.SecondAction` | src/common/functionalities.cpp:767-777 | the fields become the second action's table |
| `Pairwise.PairwiseKeys.Share` | src/common/functionalities.cpp:731-779 | the fields become the run of the schedule and the invariant still holds |

## Left out

- Threads and rendezvous are left out: `waitFor`, `waitFor2`, the global flags and the `globalData` aggregates. The pairwise loop becomes an explicit schedule of meetings. Which thread runs which action, and the concurrent `isShared.resize`, are not modelled.
- Pairwise.Run: the schedule is a sequence of meetings of two distinct servers each (`PairsIn`), and each meeting runs the first action and then the second, one after the other (`Round`, and `Share` on the class). The `waitFor2` rendezvous that pairs the servers is not modelled, so nothing is proved about which pairs it forms or how the two threads interleave.
- Pairwise.First: the meeting's secret is a parameter. The source reads `secret[0]` of the vector `compute_shared_secret` returns without checking its size, and that vector is empty when a setup step fails; the model assumes the derive succeeded.
- Pairwise.CompleteRun: the source loops until its guard fails, which relies on the rendezvous pairing every two servers eventually. The model assumes a complete schedule and does not prove that the loop terminates.
- Oblivious transfer and `BatchEquality` are inputs. The OPRF outputs are given blocks and the equality result shares are given bytes.
- Paillier key generation, encryption and decryption, and NTL's conversions are left out. Ciphertexts are opaque naturals and the start value `Enc(0)` is a parameter.
- Wire.ParseDecimal: NTL's lenient parsing of malformed text (leading spaces, signs, trailing junk) is not modelled. Such text gives None.
- The received parameter buffer is read as a NUL-terminated C string although it is not terminated. The model takes the received text at its sent length.
- OpenSSL EVP calls are left out. Keys are handles numbered by generation, and the success of each derive step is an input.
- Key generation failing (a null key) is not modelled.
- Random numbers are parameters: `generate_random_number` and `generateRandomNumber`, with the source's ranges as preconditions, and the shared secrets of the pairwise meetings.
- The pad constants `S_CONST` and `C_CONST` are parameters, since their header is not part of this model.
- Sockets, file I/O, timers and the communication counters are left out. The Beaver exchange is straight-line value passing.
- Bins.ClientCompareBuffer: the pad writes land in the vector's reserved capacity beyond its size. The model holds the buffer at the length `num_cmps` that the comparison reads through `data()`.
- Bins.ServerCompareBuffer: the same holds for the server's buffer, at its length `8 * num_cmps`.
- Signed 32-bit overflow in the Beaver values, in the key sums and in `-keyOfShared` is undefined behaviour and is not modelled. Those values are unbounded integers; `DealFitsInt32` bounds the Beaver ones.
- KeyAgreement.ComputeSharedSecret: the left shift of a negative `int` is read with two's-complement wrap-around, as C++20 defines it.
- Leader.CountMatches: the `uint64_t` count is unbounded. It never exceeds the number of inner-loop iterations, and no run that finishes reaches 2^64 of them.
- Leader.PsmVerdict: the intersection reading needs duplicate-free lists, which the source does not guarantee: the clients' bins are joined into one list, so a value two clients hold appears twice. With repeated values the verdict compares the number of matching (client value, server cell) pairs with g, as `Classify` over `CountAll` states.
- The three `std::accumulate` integer sums are Sum over unbounded integers: the server's key sum is added to its start value `y - 2*z1`, and each leader sums its results vector.
- Leader.HomomorphicSum: every server value must have a ciphertext (`Covers`). The source indexes the ciphertext table without a check.
