/**
  The Paillier parameter message of src/common/functionalities.cpp: the leader
  prints N and G in decimal joined by '|'; a receiver splits the text at the
  first '|' and parses both halves.
*/
module Wire {
  import opened Wrappers

  /** `std::string::npos`, the largest 64-bit value, returned by `find` on a miss. */
  const NPOS: nat := 0xFFFF_FFFF_FFFF_FFFF
  const TWO_64: nat := 0x1_0000_0000_0000_0000

  const SEPARATOR: char := '|'

  predicate IsDigit(c: char) {
    '0' <= c <= '9'
  }

  function DigitChar(d: nat): (c: char)
    requires d < 10
    ensures IsDigit(c) && (c as int) - ('0' as int) == d
  {
    ('0' as int + d) as char
  }

  /** The decimal text of n, most significant digit first, with no leading zero. */
  function Decimal(n: nat): (r: string)
    ensures |r| >= 1
    ensures forall k :: 0 <= k < |r| ==> IsDigit(r[k])
    ensures |r| > 1 ==> r[0] != '0'
  {
    if n < 10 then [DigitChar(n)] else Decimal(n / 10) + [DigitChar(n % 10)]
  }

  /** The value of a digit string, None for the empty string or any non-digit. */
  function ParseDecimal(s: string): (r: Option<nat>)
    ensures r.Some? <==> s != [] && forall k :: 0 <= k < |s| ==> IsDigit(s[k])
  {
    if s == [] then None
    else if !IsDigit(s[|s| - 1]) then None
    else if |s| == 1 then Some((s[0] as int - '0' as int) as nat)
    else match ParseDecimal(s[..|s| - 1])
      case None => None
      case Some(v) => Some(v * 10 + (s[|s| - 1] as int - '0' as int))
  }

  /** Parsing the decimal text of n gives back n. */
  lemma {:induction false} DecimalRoundTrip(n: nat)
    ensures ParseDecimal(Decimal(n)) == Some(n)
  {
    if n >= 10 {
      DecimalRoundTrip(n / 10);
      var r := Decimal(n);
      assert r[..|r| - 1] == Decimal(n / 10);
    }
  }

  /** `ss << N << "|" << G`. */
  function EncodeParams(n: nat, g: nat): (r: string)
    ensures |r| == |Decimal(n)| + 1 + |Decimal(g)|
    ensures r[|Decimal(n)|] == SEPARATOR
  {
    Decimal(n) + [SEPARATOR] + Decimal(g)
  }

  /** `find(c)`: the index of the first c, or npos when there is none. */
  function Find(s: string, c: char): (r: nat)
    requires |s| < NPOS
    ensures r == NPOS <==> c !in s
    ensures r != NPOS ==> r < |s| && s[r] == c && c !in s[..r]
  {
    if s == [] then NPOS
    else if s[0] == c then 0
    else
      var r := Find(s[1..], c);
      assert forall k :: 0 <= k < |s| - 1 ==> s[1..][k] == s[k + 1];
      if r == NPOS then NPOS else r + 1
  }

  /** `substr(pos, len)`: at most len characters from pos; pos must not pass the end. */
  function Substr(s: string, pos: nat, len: nat): (r: string)
    requires pos <= |s|
    ensures |r| <= len && pos + |r| <= |s| && r == s[pos..pos + |r|]
    ensures |r| == len || pos + |r| == |s|
  {
    if len < |s| - pos then s[pos..pos + len] else s[pos..]
  }

  /**
    The receiver's split: `substr(0, i)` and `substr(i + 1, npos)` around the
    first '|', with `i + 1` taken modulo 2^64. Without a '|', i is npos, the
    first half is the whole text and `i + 1` wraps to 0, so the second half is
    the whole text too.
  */
  function SplitParams(s: string): (r: (string, string))
    requires |s| < NPOS
    ensures SEPARATOR in s ==> r.0 + [SEPARATOR] + r.1 == s && SEPARATOR !in r.0
    ensures SEPARATOR !in s ==> r == (s, s)
  {
    var i := Find(s, SEPARATOR);
    var nStr := Substr(s, 0, i);
    var gStr := Substr(s, (i + 1) % TWO_64, NPOS);
    assert SEPARATOR in s ==> s == s[..i] + [SEPARATOR] + s[i + 1..];
    (nStr, gStr)
  }

  /** Both numbers of a received parameter message, None when either half is not a digit string. */
  function DecodeParams(s: string): (r: Option<(nat, nat)>)
    requires |s| < NPOS
    ensures r.Some? ==> ParseDecimal(SplitParams(s).0) == Some(r.value.0)
    ensures r.Some? ==> ParseDecimal(SplitParams(s).1) == Some(r.value.1)
    ensures r.Some? <==> ParseDecimal(SplitParams(s).0).Some? && ParseDecimal(SplitParams(s).1).Some?
  {
    var (nStr, gStr) := SplitParams(s);
    match (ParseDecimal(nStr), ParseDecimal(gStr))
      case (Some(n), Some(g)) => Some((n, g))
      case _ => None
  }

  /** What the leader sends is split back into its two decimal halves. */
  lemma SplitEncoded(n: nat, g: nat)
    requires |EncodeParams(n, g)| < NPOS
    ensures SplitParams(EncodeParams(n, g)) == (Decimal(n), Decimal(g))
  {
    var s := EncodeParams(n, g);
    var d := Decimal(n);
    assert SEPARATOR !in d by {
      forall k | 0 <= k < |d|
        ensures d[k] != SEPARATOR
      {
        assert IsDigit(d[k]);
      }
    }
    assert s[..|d|] == d;
  }

  /** Every receiver recovers exactly the leader's N and G. */
  lemma ParamsRoundTrip(n: nat, g: nat)
    requires |EncodeParams(n, g)| < NPOS
    ensures DecodeParams(EncodeParams(n, g)) == Some((n, g))
  {
    SplitEncoded(n, g);
    DecimalRoundTrip(n);
    DecimalRoundTrip(g);
  }

  /** A message without a separator yields the same number twice, or nothing. */
  lemma UnseparatedMessage(s: string)
    requires |s| < NPOS && SEPARATOR !in s
    ensures DecodeParams(s) == match ParseDecimal(s) case Some(v) => Some((v, v)) case None => None
  {
  }
}
