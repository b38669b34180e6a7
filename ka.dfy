/**
  src/common/KA.hpp: the cached Diffie-Hellman key of class KA, the batch of
  fresh keys `keys(n)`, and the control flow and byte fold of
  `compute_shared_secret`. OpenSSL's EVP objects are opaque: a key is a handle
  named by the serial number of the generator call that made it, and the
  outcome of each EVP call is an input.
*/
module KeyAgreement {
  import opened Wrappers
  import opened Block
  import opened Arithmetic

  /** An EVP_PKEY*: the n-th key the generator produced. */
  datatype KeyHandle = KeyHandle(serial: nat)

  /** The cache state of a KA object: `m_Key` and how many keys were generated so far. */
  datatype Cache = Cache(stored: Option<KeyHandle>, generated: nat)

  /** Every stored key was produced by an earlier generator call. */
  predicate CacheValid(c: Cache) {
    c.stored.Some? ==> c.stored.value.serial < c.generated
  }

  /** What `key(createNew)` does to the cache, and the key it returns. */
  function KeyStep(c: Cache, createNew: bool): (r: (Cache, KeyHandle))
    ensures r.0.generated == c.generated + (if c.stored.None? || createNew then 1 else 0)
    ensures CacheValid(c) ==> CacheValid(r.0)
  {
    if c.stored.None? || createNew then
      var made := KeyHandle(c.generated);
      if createNew then (Cache(c.stored, c.generated + 1), made)
      else (Cache(Some(made), c.generated + 1), made)
    else (c, c.stored.value)
  }

  /** `key(true)` returns a key never handed out before and leaves the stored key alone. */
  lemma KeyCreateNewBypasses(c: Cache)
    requires CacheValid(c)
    ensures KeyStep(c, true).0.stored == c.stored
    ensures KeyStep(c, true).1.serial == c.generated
    ensures c.stored.Some? ==> KeyStep(c, true).1 != c.stored.value
    ensures CacheValid(KeyStep(c, true).0)
  {
  }

  /**
    `key(false)` generates only when nothing is stored; afterwards a key is
    stored and every later `key(false)` returns that same key without generating.
  */
  lemma KeyCached(c: Cache)
    requires CacheValid(c)
    ensures KeyStep(c, false).0.generated == if c.stored.None? then c.generated + 1 else c.generated
    ensures KeyStep(c, false).0.stored == Some(KeyStep(c, false).1)
    ensures c.stored.Some? ==> KeyStep(c, false).1 == c.stored.value
    ensures KeyStep(KeyStep(c, false).0, false) == KeyStep(c, false)
    ensures CacheValid(KeyStep(c, false).0)
  {
  }

  class KA {
    /** `m_Key`; None stands for nullptr. */
    var stored: Option<KeyHandle>
    /** Number of calls made so far to `generate_key`. */
    var generated: nat

    ghost function State(): Cache
      reads this
    {
      Cache(stored, generated)
    }

    /** The stored key, when there is one, came from an earlier generator call. */
    ghost predicate Valid()
      reads this
    {
      CacheValid(State())
    }

    /** The constructor: parameters are set up and no key is stored yet. */
    constructor ()
      ensures stored == None && generated == 0
      ensures Valid()
    {
      stored := None;
      generated := 0;
    }

    /** `generate_key(m_Params)`: always yields a key not produced before. */
    method GenerateKey() returns (k: KeyHandle)
      requires Valid()
      modifies this
      ensures Valid()
      ensures k == KeyHandle(old(generated))
      ensures generated == old(generated) + 1 && stored == old(stored)
    {
      k := KeyHandle(generated);
      generated := generated + 1;
    }

    /** `key(createNew)`. */
    method Key(createNew: bool) returns (k: KeyHandle)
      requires Valid()
      modifies this
      ensures Valid()
      ensures (State(), k) == KeyStep(old(State()), createNew)
    {
      if stored.None? || createNew {
        var tmp := GenerateKey();
        if createNew {
          return tmp;
        } else {
          stored := Some(tmp);
        }
      }
      k := stored.value;
    }

    /** `keys(n)`: n keys, each from `key(true)`, so the stored key is untouched. */
    method Keys(n: nat) returns (vec: seq<KeyHandle>)
      requires Valid()
      modifies this
      ensures Valid()
      ensures |vec| == n
      ensures forall i :: 0 <= i < n ==> vec[i] == KeyHandle(old(generated) + i)
      ensures stored == old(stored) && generated == old(generated) + n
    {
      vec := [];
      for i := 0 to n
        invariant |vec| == i
        invariant forall j :: 0 <= j < i ==> vec[j] == KeyHandle(old(generated) + j)
        invariant stored == old(stored) && generated == old(generated) + i
        invariant Valid()
      {
        var k := Key(true);
        vec := vec + [k];
      }
    }
  }

  /** The keys of one `keys(n)` call are pairwise distinct. */
  lemma KeysDistinct(g: nat, vec: seq<KeyHandle>)
    requires forall i :: 0 <= i < |vec| ==> vec[i] == KeyHandle(g + i)
    ensures forall i, j :: 0 <= i < j < |vec| ==> vec[i] != vec[j]
  {
  }

  /**
    The outcome of each EVP call `compute_shared_secret` makes: context creation,
    derive init, set peer, the length query, and the bytes of the resized buffer
    after the second derive (None when that derive fails and the buffer is cleared).
  */
  datatype DeriveSteps = DeriveSteps(
    contextCreated: bool,
    initOk: bool,
    peerSet: bool,
    lengthKnown: bool,
    derived: Option<seq<byte>>)

  /** One of the four setup calls failed and the function returned early. */
  predicate SetupFails(d: DeriveSteps) {
    !d.contextCreated || !d.initOk || !d.peerSet || !d.lengthKnown
  }

  /** The buffer folded after a completed setup: empty when the final derive failed. */
  function SecretBytes(d: DeriveSteps): seq<byte> {
    if d.derived.Some? then d.derived.value else []
  }

  const TWO_32: int := 0x1_0000_0000

  /**
    `key_as_int = (key_as_int << 8) | byte` over a buffer, read as the value of
    the unsigned 32-bit pattern: multiplying by 256 and adding the byte, modulo
    2^32. FoldBitsIsFold proves this reading of the shift-and-or.
  */
  function Fold(bs: seq<byte>): (r: nat)
    ensures r < TWO_32
  {
    if bs == [] then 0 else (Fold(bs[..|bs| - 1]) * 256 + bs[|bs| - 1] as int) % TWO_32
  }

  /** The two's-complement value of a 32-bit pattern, as `int` holds it. */
  function AsInt32(v: nat): (r: int)
    requires v < TWO_32
    ensures -0x8000_0000 <= r < 0x8000_0000
    ensures r % TWO_32 == v
  {
    if v < 0x8000_0000 then v else v - TWO_32
  }

  /** A 32-bit pattern is its top byte followed by its low three bytes. */
  lemma SplitTopByte(x: bv32)
    ensures x as int == (x >> 24) as int * 0x100_0000 + (x & 0xFF_FFFF) as int
  {
  }

  /** Shifting left by eight and or-ing in a byte keeps the low three bytes, then the byte. */
  lemma ShiftOrLow(x: bv32, c: bv8)
    ensures ((x << 8) | (c as bv32)) as int == (x & 0xFF_FFFF) as int * 256 + c as int
  {
  }

  /**
    One step of the source's loop on the bit pattern: when `key_as_int` holds
    Fold(bs) and the next byte is b, `(key_as_int << 8) | byte` holds Fold(bs + [b]).
  */
  lemma FoldSnoc(bs: seq<byte>, b: byte, x: bv32, c: bv8)
    requires x as int == Fold(bs) && c as int == b as int
    ensures ((x << 8) | (c as bv32)) as int == Fold(bs + [b])
  {
    assert (bs + [b])[..|bs|] == bs;
    ShiftOrMod(x, c);
  }

  /** `(x << 8) | c` on 32 bits is x * 256 + c modulo 2^32. */
  lemma ShiftOrMod(x: bv32, c: bv8)
    ensures ((x << 8) | (c as bv32)) as int == (x as int * 256 + c as int) % TWO_32
  {
    ShiftOrLow(x, c);
    SplitTopByte(x);
    ShiftOutTop((x >> 24) as int, (x & 0xFF_FFFF) as int, c as int);
  }

  /** Multiplying by 256 pushes the top byte of a 32-bit value past 2^32. */
  lemma ShiftOutTop(hi: nat, lo: nat, c: nat)
    requires lo < 0x100_0000 && c < 256
    ensures ((hi * 0x100_0000 + lo) * 256 + c) % TWO_32 == lo * 256 + c
  {
    assert (hi * 0x100_0000 + lo) * 256 + c == hi * TWO_32 + (lo * 256 + c);
    ModAddMultiple(hi, TWO_32, lo * 256 + c);
  }

  /** The fold exactly as the source writes it, on 32-bit patterns and unsigned bytes. */
  function FoldBits(bits: seq<bv8>): bv32 {
    if bits == [] then 0 else (FoldBits(bits[..|bits| - 1]) << 8) | (bits[|bits| - 1] as bv32)
  }

  /** A buffer of unsigned bytes holding the same values as a byte sequence. */
  predicate SameBytes(bits: seq<bv8>, bs: seq<byte>) {
    |bits| == |bs| && forall i :: 0 <= i < |bs| ==> bits[i] as int == bs[i] as int
  }

  /** Shift-and-or over the buffer computes the arithmetic fold modulo 2^32. */
  lemma {:induction false} FoldBitsIsFold(bits: seq<bv8>, bs: seq<byte>)
    requires SameBytes(bits, bs)
    ensures FoldBits(bits) as int == Fold(bs)
  {
    if bs != [] {
      var n := |bs| - 1;
      assert SameBytes(bits[..n], bs[..n]);
      FoldBitsIsFold(bits[..n], bs[..n]);
      assert bs == bs[..n] + [bs[n]];
      FoldSnoc(bs[..n], bs[n], FoldBits(bits[..n]), bits[n]);
    }
  }

  /** Up to four bytes fit: the fold is their big-endian value. */
  lemma Fold4(s: seq<byte>)
    requires |s| == 4
    ensures Fold(s) == s[0] as int * 0x100_0000 + s[1] as int * 0x1_0000 + s[2] as int * 0x100 + s[3] as int
  {
    assert s[..1][..0] == [];
    assert s[..2][..1] == s[..1];
    assert s[..3][..2] == s[..2];
    assert Fold(s[..1]) == s[0] as int;
    assert Fold(s[..2]) == s[0] as int * 0x100 + s[1] as int;
    assert Fold(s[..3]) == s[0] as int * 0x1_0000 + s[1] as int * 0x100 + s[2] as int;
  }

  /** Shifting a four-byte value left by a byte and adding one more only drops the top byte. */
  lemma ShiftOut(b0: byte, b1: byte, b2: byte, b3: byte, b: byte)
    ensures ((b0 as int * 0x100_0000 + b1 as int * 0x1_0000 + b2 as int * 0x100 + b3 as int) * 256 + b as int) % TWO_32
      == b1 as int * 0x100_0000 + b2 as int * 0x1_0000 + b3 as int * 0x100 + b as int
  {
    var rest := b1 as int * 0x100_0000 + b2 as int * 0x1_0000 + b3 as int * 0x100 + b as int;
    assert (b0 as int * 0x100_0000 + b1 as int * 0x1_0000 + b2 as int * 0x100 + b3 as int) * 256 + b as int
      == b0 as int * TWO_32 + rest;
    ModAddMultiple(b0 as int, TWO_32, rest);
  }

  /** In 32-bit arithmetic only the last four bytes of the buffer matter. */
  lemma {:induction false} FoldLastFour(bs: seq<byte>)
    requires |bs| >= 4
    ensures Fold(bs) == Fold(bs[|bs| - 4..])
  {
    if |bs| > 4 {
      var p, b := bs[..|bs| - 1], bs[|bs| - 1];
      FoldLastFour(p);
      var q := p[|p| - 4..];
      var t := bs[|bs| - 4..];
      assert t == [q[1], q[2], q[3], b];
      Fold4(q);
      Fold4(t);
      assert bs == p + [b];
      ShiftOut(q[0], q[1], q[2], q[3], b);
    }
  }

  /**
    `compute_shared_secret`: an empty vector when a setup step fails; otherwise
    exactly one int, the big-endian fold of the derived buffer (0 when the final
    derive failed and the buffer was cleared).
  */
  method ComputeSharedSecret(d: DeriveSteps) returns (secret: seq<int>)
    ensures secret == [] <==> SetupFails(d)
    ensures !SetupFails(d) ==> secret == [AsInt32(Fold(SecretBytes(d)))]
    ensures !SetupFails(d) && d.derived.None? ==> secret == [0]
  {
    if !d.contextCreated {
      return [];
    }
    if !d.initOk {
      return [];
    }
    if !d.peerSet {
      return [];
    }
    if !d.lengthKnown {
      return [];
    }
    var secretBytes: seq<byte>;
    match d.derived {
      case Some(bytes) => secretBytes := bytes;
      case None => secretBytes := [];
    }
    var keyAsInt: nat := 0;
    for i := 0 to |secretBytes|
      invariant keyAsInt == Fold(secretBytes[..i])
    {
      assert secretBytes[..i + 1][..i] == secretBytes[..i];
      keyAsInt := (keyAsInt * 256 + secretBytes[i] as int) % TWO_32;
    }
    assert secretBytes[..|secretBytes|] == secretBytes;
    secret := [AsInt32(keyAsInt)];
  }
}
