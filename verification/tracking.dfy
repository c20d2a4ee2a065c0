/** Tracking identifiers: the server's `generateTrackingId`
    (`server/utils/helpers.js`), the identifier the submission page makes up
    for itself (`src/pages/NewGrievance.tsx`), and the `^GR\d{6}$` format the
    tracking page accepts. The clock and the random number are parameters. */
module TrackingIds {
  import opened Text

  // ---------------------------------------------------------------------------
  // Decimal strings
  // ---------------------------------------------------------------------------

  function Pow10(k: nat): (r: nat)
    ensures r >= 1
  {
    if k == 0 then 1 else 10 * Pow10(k - 1)
  }

  predicate IsDigits(s: string) {
    forall k :: 0 <= k < |s| ==> IsAsciiDigit(s[k])
  }

  function DigitChar(d: nat): (c: char)
    requires d < 10
    ensures IsAsciiDigit(c)
  {
    ('0' as int + d) as char
  }

  function DigitValue(c: char): int {
    c as int - '0' as int
  }

  /** `n.toString()` for a non-negative integer: no sign, no leading zero. */
  function Decimal(n: nat): (s: string)
    ensures |s| >= 1 && IsDigits(s)
    ensures s[0] == '0' ==> n == 0
  {
    if n < 10 then [DigitChar(n)] else Decimal(n / 10) + [DigitChar(n % 10)]
  }

  /** The value of a string of decimal digits, most significant first. */
  function ParseDecimal(s: string): int
    decreases |s|
  {
    if s == [] then 0 else ParseDecimal(s[..|s| - 1]) * 10 + DigitValue(s[|s| - 1])
  }

  /** `Decimal` and `ParseDecimal` are inverse. */
  lemma {:induction false} ParseDecimalOfDecimal(n: nat)
    ensures ParseDecimal(Decimal(n)) == n
  {
    if n >= 10 {
      ParseDecimalOfDecimal(n / 10);
      var s := Decimal(n);
      assert s[..|s| - 1] == Decimal(n / 10);
    }
  }

  /** A decimal string has at most `k` digits exactly when its value is below `10^k`. */
  lemma {:induction false} DecimalLength(n: nat, k: nat)
    requires k >= 1
    ensures |Decimal(n)| <= k <==> n < Pow10(k)
  {
    if n >= 10 {
      if k == 1 {
        assert Pow10(1) == 10;
      } else {
        DecimalLength(n / 10, k - 1);
      }
    } else {
      PowAtLeastTen(k);
    }
  }

  lemma {:induction false} PowAtLeastTen(k: nat)
    requires k >= 1
    ensures Pow10(k) >= 10
  {
    if k > 1 {
      PowAtLeastTen(k - 1);
    }
  }

  lemma {:induction false} ParseDecimalBound(s: string)
    requires IsDigits(s)
    ensures 0 <= ParseDecimal(s) < Pow10(|s|)
    decreases |s|
  {
    if s != [] {
      ParseDecimalBound(s[..|s| - 1]);
    }
  }

  /** Splitting a digit string splits its value. */
  lemma {:induction false} ParseDecimalAppend(a: string, b: string)
    ensures ParseDecimal(a + b) == ParseDecimal(a) * Pow10(|b|) + ParseDecimal(b)
    decreases |b|
  {
    if b == [] {
      assert a + b == a;
    } else {
      var b' := b[..|b| - 1];
      assert (a + b)[..|a + b| - 1] == a + b';
      ParseDecimalAppend(a, b');
      calc {
        ParseDecimal(a + b);
        ParseDecimal(a + b') * 10 + DigitValue(b[|b| - 1]);
        (ParseDecimal(a) * Pow10(|b'|) + ParseDecimal(b')) * 10 + DigitValue(b[|b| - 1]);
        ParseDecimal(a) * (Pow10(|b'|) * 10) + (ParseDecimal(b') * 10 + DigitValue(b[|b| - 1]));
        { assert b[..|b| - 1] == b'; }
        ParseDecimal(a) * Pow10(|b|) + ParseDecimal(b);
      }
    }
  }

  function Zeros(k: nat): (s: string)
    ensures |s| == k
    ensures forall i :: 0 <= i < k ==> s[i] == '0'
  {
    if k == 0 then [] else Zeros(k - 1) + ['0']
  }

  lemma {:induction false} ParseZeros(k: nat)
    ensures ParseDecimal(Zeros(k)) == 0
  {
    if k > 0 {
      ParseZeros(k - 1);
      assert Zeros(k)[..k - 1] == Zeros(k - 1);
    }
  }

  /** `s.padStart(width, '0')` */
  function PadStart(s: string, width: nat): (r: string)
    ensures |r| == if |s| >= width then |s| else width
    ensures r[|r| - |s|..] == s
    ensures forall i :: 0 <= i < |r| - |s| ==> r[i] == '0'
    ensures IsDigits(s) ==> IsDigits(r)
  {
    if |s| >= width then s else Zeros(width - |s|) + s
  }

  /** Zero padding does not change the value. */
  lemma PadStartValue(s: string, width: nat)
    ensures ParseDecimal(PadStart(s, width)) == ParseDecimal(s)
  {
    if |s| < width {
      ParseDecimalAppend(Zeros(width - |s|), s);
      ParseZeros(width - |s|);
    }
  }

  /** `s.slice(-k)`: the last `k` characters, or all of a shorter string. */
  function SliceLast(s: string, k: nat): (r: string)
    ensures |r| == if |s| >= k then k else |s|
    ensures r == s[|s| - |r|..]
    ensures IsDigits(s) ==> IsDigits(r)
  {
    if |s| >= k then s[|s| - k..] else s
  }

  // ---------------------------------------------------------------------------
  // The identifier format and the two generators
  // ---------------------------------------------------------------------------

  /** `/^GR\d{6}$/.test(s)` */
  predicate IsTrackingIdFormat(s: string) {
    |s| == 8 && s[0] == 'G' && s[1] == 'R' && IsDigits(s[2..])
  }

  /** `Math.floor(u * scale)` */
  function FloorScaled(u: real, scale: nat): (n: nat)
    requires 0.0 <= u < 1.0 && scale >= 1
    ensures n < scale
    ensures n as real <= u * scale as real < n as real + 1.0
  {
    (u * scale as real).Floor
  }

  /** The server's `generateTrackingId()`, given `Date.now()` and `Math.random()`. */
  function GenerateTrackingId(now: nat, random: real): string
    requires 0.0 <= random < 1.0
  {
    "GR" + SliceLast(Decimal(now), 6) + PadStart(Decimal(FloorScaled(random, 10000)), 4)
  }

  /** The four random digits are always four characters long. */
  lemma RandomPartWidth(random: real)
    requires 0.0 <= random < 1.0
    ensures |PadStart(Decimal(FloorScaled(random, 10000)), 4)| == 4
  {
    assert Pow10(4) == 10000;
    DecimalLength(FloorScaled(random, 10000), 4);
  }

  /** Where the parts of "GR" + t + r sit. */
  lemma Layout(t: string, r: string)
    requires IsDigits(t) && IsDigits(r)
    ensures var id := "GR" + t + r;
      && id[..2] == "GR"
      && |id| == 2 + |t| + |r|
      && id[2..2 + |t|] == t
      && id[2 + |t|..] == r
      && IsDigits(id[2..])
  {
    var id := "GR" + t + r;
    assert id[2..] == t + r;
  }

  /** The layout of a generated identifier: "GR", then the last (up to) six
      digits of the timestamp, then the random value as four digits. */
  lemma GeneratedIdLayout(now: nat, random: real)
    requires 0.0 <= random < 1.0
    ensures var id := GenerateTrackingId(now, random);
      var t := SliceLast(Decimal(now), 6);
      && id[..2] == "GR"
      && |id| == 2 + |t| + 4
      && id[2..2 + |t|] == t
      && IsDigits(id[2..])
      && ParseDecimal(id[2 + |t|..]) == FloorScaled(random, 10000)
  {
    var n := FloorScaled(random, 10000);
    var t := SliceLast(Decimal(now), 6);
    var r := PadStart(Decimal(n), 4);
    RandomPartWidth(random);
    Layout(t, r);
    PadStartValue(Decimal(n), 4);
    ParseDecimalOfDecimal(n);
  }

  /** For a timestamp of six or more digits the identifier is twelve
      characters, and its middle six digits are the timestamp modulo 10^6. */
  lemma GeneratedIdTwelveChars(now: nat, random: real)
    requires 0.0 <= random < 1.0 && now >= 100000
    ensures var id := GenerateTrackingId(now, random);
      |id| == 12 && ParseDecimal(id[2..8]) == now % 1000000
  {
    var d := Decimal(now);
    assert Pow10(5) == 100000;
    DecimalLength(now, 5);
    GeneratedIdLayout(now, random);
    LastSixDigits(d);
    ParseDecimalOfDecimal(now);
  }

  /** The last six digits of a digit string are its value modulo 10^6. */
  lemma LastSixDigits(d: string)
    requires |d| >= 6 && IsDigits(d)
    ensures ParseDecimal(d[|d| - 6..]) == ParseDecimal(d) % 1000000
  {
    var hi, lo := d[..|d| - 6], d[|d| - 6..];
    assert d == hi + lo;
    ParseDecimalAppend(hi, lo);
    assert Pow10(6) == 1000000;
    ParseDecimalBound(lo);
    LowPartIsRemainder(ParseDecimal(hi), ParseDecimal(lo));
  }

  lemma LowPartIsRemainder(a: int, b: int)
    requires 0 <= b < 1000000
    ensures (a * 1000000 + b) % 1000000 == b
  {
  }

  /** A server-generated identifier passes the tracking page's format check
      only for a two-digit timestamp; every real clock reading (six or more
      digits) yields a twelve-character identifier the page rejects. */
  lemma GeneratedIdFormat(now: nat, random: real)
    requires 0.0 <= random < 1.0
    ensures IsTrackingIdFormat(GenerateTrackingId(now, random)) <==> 10 <= now <= 99
  {
    GeneratedIdLayout(now, random);
    assert Pow10(1) == 10 && Pow10(2) == 100;
    DecimalLength(now, 1);
    DecimalLength(now, 2);
  }

  lemma GeneratedIdNeverValid(now: nat, random: real)
    requires 0.0 <= random < 1.0 && now >= 100000
    ensures !IsTrackingIdFormat(GenerateTrackingId(now, random))
  {
    GeneratedIdFormat(now, random);
  }

  /** The submission page's identifier: "GR" and `Math.floor(random * 1e6)`
      padded to six digits. */
  function ClientTrackingId(random: real): string
    requires 0.0 <= random < 1.0
  {
    "GR" + PadStart(Decimal(FloorScaled(random, 1000000)), 6)
  }

  /** The submission page's identifiers always pass the format check and
      carry the random value. */
  lemma ClientTrackingIdValid(random: real)
    requires 0.0 <= random < 1.0
    ensures IsTrackingIdFormat(ClientTrackingId(random))
    ensures ParseDecimal(ClientTrackingId(random)[2..]) == FloorScaled(random, 1000000)
  {
    var n := FloorScaled(random, 1000000);
    assert Pow10(6) == 1000000;
    DecimalLength(n, 6);
    var id := ClientTrackingId(random);
    assert id[2..] == PadStart(Decimal(n), 6);
    PadStartValue(Decimal(n), 6);
    ParseDecimalOfDecimal(n);
  }
}
