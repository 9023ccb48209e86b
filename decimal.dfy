/**
 * Decimal text for the output records: `%d` / `%llu` (plain decimal),
 * `%019llu` (decimal zero-padded to a minimum width) and `formatU128`, which
 * prints a 128-bit value in chunks of 19 digits split off with division by 10^19.
 */
module Decimal {
  import opened Powers

  /** 10^19, the chunk divisor of `formatU128`. */
  const CHUNK: nat := 10_000_000_000_000_000_000
  /** The number of digits in one chunk. */
  const CHUNK_DIGITS: nat := 19
  /** The largest `uint64_t`; `formatU128` prints values up to it in one `%llu`. */
  const UINT64_MAX: nat := 0xFFFF_FFFF_FFFF_FFFF

  predicate IsDigit(c: char)
  {
    '0' <= c <= '9'
  }

  predicate AllDigits(s: string)
  {
    forall i :: 0 <= i < |s| ==> IsDigit(s[i])
  }

  function Digit(d: nat): (c: char)
    requires d < 10
    ensures IsDigit(c)
  {
    ('0' as int + d) as char
  }

  function DigitValue(c: char): (d: nat)
    requires IsDigit(c)
    ensures d < 10 && Digit(d) == c
  {
    c as int - '0' as int
  }

  /** A string of `k` zero characters. */
  function Zeros(k: nat): (s: string)
    ensures |s| == k && forall i :: 0 <= i < k ==> s[i] == '0'
  {
    if k == 0 then [] else Zeros(k - 1) + "0"
  }

  /** The shortest base-10 text of `v`: what `%d` and `%llu` print. */
  function Dec(v: nat): string
    decreases v
  {
    if v < 10 then [Digit(v)] else Dec(v / 10) + [Digit(v % 10)]
  }

  /** `%0<width>llu`: the decimal text of `v`, left-padded with zeros to at least `width` characters. */
  function Padded(v: nat, width: nat): string
  {
    var s := Dec(v);
    if |s| >= width then s else Zeros(width - |s|) + s
  }

  /** The value of a string of decimal digits (most significant first); the empty string is 0. */
  function ParseDec(s: string): nat
    requires AllDigits(s)
  {
    if s == [] then 0 else ParseDec(s[..|s| - 1]) * 10 + DigitValue(s[|s| - 1])
  }

  /** The `width` least significant decimal digits of `v`, zeros included. */
  function LowDigits(v: nat, width: nat): (s: string)
    ensures |s| == width
  {
    if width == 0 then [] else LowDigits(v / 10, width - 1) + [Digit(v % 10)]
  }

  /**
   * `formatU128`: values up to UINT64_MAX are printed whole; a larger value
   * prints its leading part `value / 10^19` recursively, then its trailing
   * part `value % 10^19` zero-padded to 19 digits. The result is exactly the
   * plain decimal text of the value.
   */
  function FormatU128(value: nat): (s: string)
    ensures s == Dec(value)
    decreases value
  {
    if value > UINT64_MAX then
      var leading := value / CHUNK;
      var trailing := value % CHUNK;
      ChunkSplit(value);
      FormatU128(leading) + Padded(trailing, CHUNK_DIGITS)
    else
      Dec(value)
  }

  /** Splitting a value above UINT64_MAX at 10^19 leaves a non-zero leading part and a 19-digit trailing part. */
  lemma ChunkSplit(value: nat)
    requires value > UINT64_MAX
    ensures value / CHUNK > 0
    ensures Dec(value) == Dec(value / CHUNK) + Padded(value % CHUNK, CHUNK_DIGITS)
  {
    ChunkIsPow10();
    assert value == (value / CHUNK) * CHUNK + value % CHUNK;
    DecSplit(value / CHUNK, value % CHUNK, CHUNK_DIGITS);
    PaddedIsLowDigits(value % CHUNK, CHUNK_DIGITS);
  }

  /** 10^10 and 10^19, unfolded one multiplication at a time. */
  lemma ChunkIsPow10()
    ensures Pow(10, 10) == 10_000_000_000
    ensures Pow(10, CHUNK_DIGITS) == CHUNK
  {
    assert Pow(10, 1) == 10;
    assert Pow(10, 2) == 100;
    assert Pow(10, 3) == 1000;
    assert Pow(10, 4) == 10000;
    assert Pow(10, 5) == 100000;
    assert Pow(10, 6) == 1000000;
    assert Pow(10, 7) == 10000000;
    assert Pow(10, 8) == 100000000;
    assert Pow(10, 9) == 1000000000;
    assert Pow(10, 10) == 10000000000;
    assert Pow(10, 11) == 100000000000;
    assert Pow(10, 12) == 1000000000000;
    assert Pow(10, 13) == 10000000000000;
    assert Pow(10, 14) == 100000000000000;
    assert Pow(10, 15) == 1000000000000000;
    assert Pow(10, 16) == 10000000000000000;
    assert Pow(10, 17) == 100000000000000000;
    assert Pow(10, 18) == 1000000000000000000;
    assert Pow(10, 19) == 10000000000000000000;
  }

  lemma DivStep(q: nat, p: nat, r: nat)
    requires p > 0
    ensures (q * (p * 10) + r) / 10 == q * p + r / 10
    ensures (q * (p * 10) + r) % 10 == r % 10
  {
    assert q * (p * 10) + r == (q * p + r / 10) * 10 + r % 10;
  }

  /** Dec(q * 10^w + r) is Dec(q) followed by the w low digits of r, when q > 0 and r < 10^w. */
  lemma {:induction false} DecSplit(q: nat, r: nat, w: nat)
    requires q > 0 && r < Pow(10, w)
    ensures Dec(q * Pow(10, w) + r) == Dec(q) + LowDigits(r, w)
  {
    if w == 0 {
      assert r == 0;
    } else {
      var p := Pow(10, w - 1);
      var v := q * Pow(10, w) + r;
      assert Pow(10, w) == p * 10;
      DivStep(q, p, r);
      assert v >= 10 by {
        MulMonotone(1, q, 1, Pow(10, w));
      }
      assert r / 10 < p;
      DecSplit(q, r / 10, w - 1);
      calc {
        Dec(v);
        Dec(v / 10) + [Digit(v % 10)];
        Dec(q * p + r / 10) + [Digit(r % 10)];
        Dec(q) + LowDigits(r / 10, w - 1) + [Digit(r % 10)];
      }
    }
  }

  lemma {:induction false} LowDigitsOfZero(w: nat)
    ensures LowDigits(0, w) == Zeros(w)
  {
    if w > 0 {
      LowDigitsOfZero(w - 1);
    }
  }

  /** Zero-padding a value below 10^w to width w gives exactly its w low digits. */
  lemma {:induction false} PaddedIsLowDigits(r: nat, w: nat)
    requires w > 0 && r < Pow(10, w)
    ensures |Dec(r)| <= w
    ensures Padded(r, w) == LowDigits(r, w)
  {
    LowDigitsAreDec(r, w);
  }

  lemma {:induction false} LowDigitsAreDec(r: nat, w: nat)
    requires w > 0 && r < Pow(10, w)
    ensures |Dec(r)| <= w
    ensures LowDigits(r, w) == Zeros(w - |Dec(r)|) + Dec(r)
    decreases w
  {
    if r < 10 {
      LowDigitsOfZero(w - 1);
    } else {
      assert w > 1 && r / 10 < Pow(10, w - 1);
      LowDigitsAreDec(r / 10, w - 1);
    }
  }

  /** `Dec` produces digits only, without a leading zero unless the value is 0. */
  lemma {:induction false} DecWellFormed(v: nat)
    ensures |Dec(v)| > 0 && AllDigits(Dec(v))
    ensures Dec(v)[0] == '0' <==> v == 0
    ensures v == 0 ==> Dec(v) == "0"
    decreases v
  {
    if v >= 10 {
      DecWellFormed(v / 10);
    }
  }

  /** Parsing the decimal text of a value gives the value back. */
  lemma {:induction false} DecRoundTrip(v: nat)
    ensures AllDigits(Dec(v)) && ParseDec(Dec(v)) == v
    decreases v
  {
    DecWellFormed(v);
    if v >= 10 {
      DecRoundTrip(v / 10);
      var s := Dec(v);
      assert s[..|s| - 1] == Dec(v / 10);
    }
  }

  /** Every canonical digit string (non-empty, no leading zero unless it is "0") is the `Dec` of its value. */
  lemma {:induction false} DecCanonical(s: string)
    requires |s| > 0 && AllDigits(s)
    requires s[0] == '0' ==> s == "0"
    ensures Dec(ParseDec(s)) == s
    decreases |s|
  {
    if |s| > 1 {
      var init := s[..|s| - 1];
      DecCanonical(init);
      ParsePositive(init);
      var v := ParseDec(s);
      assert v / 10 == ParseDec(init) && v % 10 == DigitValue(s[|s| - 1]);
      assert Dec(v) == Dec(ParseDec(init)) + [s[|s| - 1]];
    }
  }

  /** A digit string that does not start with '0' has a non-zero value. */
  lemma {:induction false} ParsePositive(s: string)
    requires |s| > 0 && AllDigits(s) && s[0] != '0'
    ensures ParseDec(s) > 0
    decreases |s|
  {
    if |s| > 1 {
      ParsePositive(s[..|s| - 1]);
    }
  }

  /** A zero-padded chunk is exactly `w` digits and parses back to its value. */
  lemma PaddedChunk(r: nat, w: nat)
    requires w > 0 && r < Pow(10, w)
    ensures |Padded(r, w)| == w && AllDigits(Padded(r, w)) && ParseDec(Padded(r, w)) == r
  {
    PaddedIsLowDigits(r, w);
    LowDigitsRoundTrip(r, w);
  }

  lemma {:induction false} LowDigitsRoundTrip(r: nat, w: nat)
    requires r < Pow(10, w)
    ensures AllDigits(LowDigits(r, w)) && ParseDec(LowDigits(r, w)) == r
    decreases w
  {
    if w > 0 {
      assert r / 10 < Pow(10, w - 1);
      LowDigitsRoundTrip(r / 10, w - 1);
      var s := LowDigits(r, w);
      assert s[..|s| - 1] == LowDigits(r / 10, w - 1);
    }
  }

  /** A value below 10^k has at most k digits. */
  lemma {:induction false} DecLength(v: nat, k: nat)
    requires k > 0 && v < Pow(10, k)
    ensures |Dec(v)| <= k
  {
    LowDigitsAreDec(v, k);
  }
}
