/**
 * Cleaning and parsing the text of a price cell (fetch_fuel_data.py): the
 * cell's text is stripped, every rupee sign is removed, the rest is stripped
 * again and read as a decimal number.
 */
module PriceText {
  import opened Wrappers

  /** The Indian rupee sign that prefixes prices on the page. */
  const RUPEE: char := '\U{20B9}'

  /**
   * The characters Python's `str.strip()` removes (its whitespace class): tab to carriage return, the four separators up to and including
   * the space, next line, no-break space, Ogham space, the spaces from en quad
   * to hair space, line and paragraph separators, narrow no-break space,
   * medium mathematical space and ideographic space.
   */
  predicate IsSpace(c: char)
  {
    ('\U{9}' <= c <= '\U{D}') || ('\U{1C}' <= c <= ' ') || c == '\U{85}' || c == '\U{A0}'
    || c == '\U{1680}' || ('\U{2000}' <= c <= '\U{200A}') || c == '\U{2028}' || c == '\U{2029}'
    || c == '\U{202F}' || c == '\U{205F}' || c == '\U{3000}'
  }

  /** s without its leading whitespace. */
  function TrimStart(s: string): (r: string)
    ensures |r| <= |s| && r == s[|s| - |r|..]
    ensures forall k :: 0 <= k < |s| - |r| ==> IsSpace(s[k])
    ensures r == [] || !IsSpace(r[0])
  {
    if s != [] && IsSpace(s[0]) then TrimStart(s[1..]) else s
  }

  /** s without its trailing whitespace. */
  function TrimEnd(s: string): (r: string)
    ensures |r| <= |s| && r == s[..|r|]
    ensures forall k :: |r| <= k < |s| ==> IsSpace(s[k])
    ensures r == [] || !IsSpace(r[|r| - 1])
  {
    if s != [] && IsSpace(s[|s| - 1]) then TrimEnd(s[..|s| - 1]) else s
  }

  /** r is the piece of s starting at i, and everything around it is whitespace. */
  predicate SpaceAround(s: string, r: string, i: int)
  {
    0 <= i <= |s| - |r| && s[i..i + |r|] == r
    && (forall k :: 0 <= k < i ==> IsSpace(s[k]))
    && (forall k :: i + |r| <= k < |s| ==> IsSpace(s[k]))
  }

  /**
   * s without leading and trailing whitespace: a piece of s that neither
   * starts nor ends with whitespace, everything cut off around it being
   * whitespace.
   */
  function Strip(s: string): (r: string)
    ensures r == [] || (!IsSpace(r[0]) && !IsSpace(r[|r| - 1]))
    ensures exists i :: SpaceAround(s, r, i)
    ensures forall c :: c in r ==> c in s
  {
    TrimBoth(s);
    TrimEnd(TrimStart(s))
  }

  /** Trimming both ends leaves a piece without edge whitespace, surrounded by whitespace. */
  lemma TrimBoth(s: string)
    ensures var r := TrimEnd(TrimStart(s));
      && (r == [] || (!IsSpace(r[0]) && !IsSpace(r[|r| - 1])))
      && SpaceAround(s, r, |s| - |TrimStart(s)|)
      && (forall c :: c in r ==> c in s)
  {
    var t := TrimStart(s);
    var r := TrimEnd(t);
    var i := |s| - |t|;
    if r != [] {
      assert r[0] == t[0];
    }
    SpaceAroundTrimmed(s, t, r, i);
    PieceChars(s, r, i);
  }

  lemma SpaceAroundTrimmed(s: string, t: string, r: string, i: int)
    requires i == |s| - |t| && |t| <= |s| && t == s[i..]
    requires |r| <= |t| && r == t[..|r|]
    requires forall k :: 0 <= k < i ==> IsSpace(s[k])
    requires forall k :: |r| <= k < |t| ==> IsSpace(t[k])
    ensures SpaceAround(s, r, i)
  {
    assert s[i..i + |r|] == r;
    forall k | i + |r| <= k < |s| ensures IsSpace(s[k]) {
      assert s[k] == t[k - i];
    }
  }

  lemma PieceChars(s: string, r: string, i: int)
    requires 0 <= i <= |s| - |r| && s[i..i + |r|] == r
    ensures forall c :: c in r ==> c in s
  {
    forall c | c in r ensures c in s {
      var k :| 0 <= k < |r| && r[k] == c;
      assert s[i + k] == c;
    }
  }

  /** Every rupee sign removed, the other characters kept in order. */
  function RemoveRupee(s: string): (r: string)
    ensures |r| <= |s|
    ensures RUPEE !in r
  {
    if s == [] then []
    else (if s[0] == RUPEE then [] else [s[0]]) + RemoveRupee(s[1..])
  }

  /** Text without a rupee sign is left as it is. */
  lemma {:induction false} RemoveRupeeWithoutRupee(s: string)
    requires RUPEE !in s
    ensures RemoveRupee(s) == s
  {
    if s != [] {
      assert s[0] != RUPEE && RUPEE !in s[1..];
      RemoveRupeeWithoutRupee(s[1..]);
    }
  }

  /** Every character other than the rupee sign survives the removal. */
  lemma {:induction false} RemoveRupeeKeepsOthers(s: string)
    ensures forall c :: c != RUPEE ==> (c in RemoveRupee(s) <==> c in s)
  {
    if s != [] {
      RemoveRupeeKeepsOthers(s[1..]);
      assert forall c :: c in s <==> c == s[0] || c in s[1..];
    }
  }

  /** The price text of a cell, as it is handed to the number parser. */
  function CleanPrice(cell: string): (r: string)
    ensures RUPEE !in r
    ensures r == [] || (!IsSpace(r[0]) && !IsSpace(r[|r| - 1]))
  {
    Strip(RemoveRupee(Strip(cell)))
  }

  // ---------------------------------------------------------------------------
  // Decimal numbers
  // ---------------------------------------------------------------------------

  predicate IsDigit(c: char)
  {
    '0' <= c <= '9'
  }

  predicate AllDigits(s: string)
  {
    forall k :: 0 <= k < |s| ==> IsDigit(s[k])
  }

  /** The value of a string of decimal digits, most significant first. */
  function DigitsValue(s: string): nat
    requires AllDigits(s)
  {
    if s == [] then 0 else DigitsValue(s[..|s| - 1]) * 10 + (s[|s| - 1] - '0') as nat
  }

  function Pow10(k: nat): (p: nat)
    ensures p >= 1
  {
    if k == 0 then 1 else 10 * Pow10(k - 1)
  }

  /** The index of the first '.' in s, or |s| when there is none. */
  function DotIndex(s: string): (k: nat)
    ensures k <= |s|
    ensures forall j :: 0 <= j < k ==> s[j] != '.'
    ensures k < |s| ==> s[k] == '.'
  {
    if s == [] || s[0] == '.' then 0 else 1 + DotIndex(s[1..])
  }

  /** The value of digits written before and after a decimal point. */
  function DecimalValue(whole: string, fraction: string): (v: real)
    requires AllDigits(whole) && AllDigits(fraction)
    ensures v >= 0.0
  {
    DigitsValue(whole) as real + DigitsValue(fraction) as real / Pow10(|fraction|) as real
  }

  /** Digits, optionally a '.' and more digits, with at least one digit in all. */
  function ParseUnsigned(s: string): (r: Option<real>)
    ensures r.Some? ==> r.value >= 0.0 && |s| > 0
    ensures r.Some? ==> forall k :: 0 <= k < |s| ==> IsDigit(s[k]) || s[k] == '.'
  {
    var k := DotIndex(s);
    var whole := s[..k];
    var fraction := if k < |s| then s[k + 1..] else [];
    if AllDigits(whole) && AllDigits(fraction) && |whole| + |fraction| > 0 then
      assert forall j :: k < j < |s| ==> s[j] == fraction[j - k - 1];
      assert forall j :: 0 <= j < k ==> s[j] == whole[j];
      Some(DecimalValue(whole, fraction))
    else None
  }

  /** A character that may appear in a number the parser accepts. */
  predicate IsNumeral(s: string, k: int)
    requires 0 <= k < |s|
  {
    IsDigit(s[k]) || s[k] == '.' || (k == 0 && (s[k] == '+' || s[k] == '-'))
  }

  /**
   * The number written in s: an optional sign, then digits with at most one
   * decimal point. Anything else (an empty string, spaces, a currency sign,
   * a thousands separator, a second point) is not a number.
   */
  function ParseDecimal(s: string): (r: Option<real>)
    ensures r.Some? ==> |s| > 0 && forall k :: 0 <= k < |s| ==> IsNumeral(s, k)
    ensures r.Some? && s[0] != '-' ==> r.value >= 0.0
  {
    if |s| > 0 && (s[0] == '+' || s[0] == '-') then
      match ParseUnsigned(s[1..])
      case None => None
      case Some(v) =>
        assert forall k :: 0 < k < |s| ==> s[k] == s[1..][k - 1];
        Some(if s[0] == '-' then -v else v)
    else ParseUnsigned(s)
  }

  // ---------------------------------------------------------------------------
  // Properties
  // ---------------------------------------------------------------------------

  /**
   * Strip is determined by what it promises: a non-empty piece of s with no
   * whitespace at either end and only whitespace around it is Strip(s).
   */
  lemma StripIsUnique(s: string, r: string, i: int)
    requires SpaceAround(s, r, i)
    requires r != [] && !IsSpace(r[0]) && !IsSpace(r[|r| - 1])
    ensures Strip(s) == r
  {
    var t := Strip(s);
    var j :| SpaceAround(s, t, j);
    SamePiece(s, r, i, t, j);
  }

  /**
   * Two pieces of s with only whitespace around them and no whitespace at
   * their ends, the first non-empty, are the same piece.
   */
  lemma SamePiece(s: string, r: string, i: int, t: string, j: int)
    requires SpaceAround(s, r, i) && SpaceAround(s, t, j)
    requires r != [] && !IsSpace(r[0]) && !IsSpace(r[|r| - 1])
    requires t == [] || (!IsSpace(t[0]) && !IsSpace(t[|t| - 1]))
    ensures r == t
  {
    assert s[i] == r[0];
    assert s[i + |r| - 1] == r[|r| - 1];
    assert j <= i < j + |t|;
    assert s[j] == t[0] && s[j + |t| - 1] == t[|t| - 1];
    assert j <= i && i <= j;
    assert i + |r| <= j + |t| && j + |t| <= i + |r|;
  }

  /** Stripping twice is stripping once. */
  lemma StripIdempotent(s: string)
    ensures Strip(Strip(s)) == Strip(s)
  {
    var t := Strip(s);
    if t != [] {
      assert t[0..0 + |t|] == t;
      StripIsUnique(t, t, 0);
    } else {
      assert Strip(t) == [];
    }
  }

  /** Removing rupee signs works piece by piece, so the order of the rest is kept. */
  lemma {:induction false} RemoveRupeeAppend(a: string, b: string)
    ensures RemoveRupee(a + b) == RemoveRupee(a) + RemoveRupee(b)
  {
    if a == [] {
      assert a + b == b;
    } else {
      assert (a + b)[0] == a[0];
      assert (a + b)[1..] == a[1..] + b;
      RemoveRupeeAppend(a[1..], b);
    }
  }

  predicate AllSpace(s: string)
  {
    forall k :: 0 <= k < |s| ==> IsSpace(s[k])
  }

  /** Whitespace around a piece with no whitespace at its ends is exactly what Strip removes. */
  lemma StripSurrounded(before: string, m: string, after: string)
    requires AllSpace(before) && AllSpace(after)
    requires m != [] && !IsSpace(m[0]) && !IsSpace(m[|m| - 1])
    ensures Strip(before + m + after) == m
  {
    var s := before + m + after;
    assert s[|before|..|before| + |m|] == m;
    forall k | |before| + |m| <= k < |s| ensures IsSpace(s[k]) {
      assert s[k] == after[k - |before| - |m|];
    }
    forall k | 0 <= k < |before| ensures IsSpace(s[k]) {
      assert s[k] == before[k];
    }
    assert SpaceAround(s, m, |before|);
    StripIsUnique(s, m, |before|);
  }

  /**
   * A cell as the page shows it, whitespace, a rupee sign, whitespace, the
   * amount and whitespace, cleans to the amount.
   */
  lemma CleanPriceOfRupeeAmount(before: string, between: string, amount: string, after: string)
    requires AllSpace(before) && AllSpace(between) && AllSpace(after)
    requires amount != [] && !IsSpace(amount[0]) && !IsSpace(amount[|amount| - 1])
    requires RUPEE !in amount
    ensures CleanPrice(before + [RUPEE] + between + amount + after) == amount
  {
    var cell := before + [RUPEE] + between + amount + after;
    var spaced := between + amount;
    StripRupeeCell(before, between, amount, after);
    assert RUPEE !in spaced by {
      assert forall k :: 0 <= k < |between| ==> between[k] != RUPEE;
    }
    RemoveLeadingRupee(spaced);
    StripLeadingSpace(between, amount);
    assert CleanPrice(cell) == Strip(RemoveRupee(Strip(cell)));
  }

  lemma StripLeadingSpace(between: string, amount: string)
    requires AllSpace(between)
    requires amount != [] && !IsSpace(amount[0]) && !IsSpace(amount[|amount| - 1])
    ensures Strip(between + amount) == amount
  {
    assert between + amount == between + amount + [];
    StripSurrounded(between, amount, []);
  }

  lemma StripRupeeCell(before: string, between: string, amount: string, after: string)
    requires AllSpace(before) && AllSpace(after)
    requires amount != [] && !IsSpace(amount[|amount| - 1])
    ensures Strip(before + [RUPEE] + between + amount + after) == [RUPEE] + (between + amount)
  {
    var inner := [RUPEE] + (between + amount);
    assert !IsSpace(RUPEE);
    assert before + [RUPEE] + between + amount + after == before + inner + after;
    StripSurrounded(before, inner, after);
  }

  lemma RemoveLeadingRupee(s: string)
    requires RUPEE !in s
    ensures RemoveRupee([RUPEE] + s) == s
  {
    RemoveRupeeAppend([RUPEE], s);
    assert RemoveRupee([RUPEE]) == [];
    RemoveRupeeWithoutRupee(s);
  }

  // ---------------------------------------------------------------------------
  // Prices written with two decimals parse back to their value
  // ---------------------------------------------------------------------------

  function DigitChar(d: nat): (c: char)
    requires d < 10
    ensures IsDigit(c) && (c - '0') as nat == d
  {
    '0' + d as char
  }

  /** The decimal digits of n, without leading zeros. */
  function NatText(n: nat): (s: string)
    ensures |s| > 0 && AllDigits(s)
    ensures DigitsValue(s) == n
  {
    if n < 10 then [DigitChar(n)]
    else
      var s := NatText(n / 10) + [DigitChar(n % 10)];
      assert s[..|s| - 1] == NatText(n / 10);
      s
  }

  /** An amount in paise written in rupees with two decimals, as in "94.72". */
  function FormatPaise(paise: nat): string
  {
    NatText(paise / 100) + "." + TwoDigits(paise % 100)
  }

  /** Reading back a price written with two decimals gives its exact value. */
  lemma ParseFormatPaise(paise: nat)
    ensures ParseDecimal(FormatPaise(paise)) == Some(paise as real / 100.0)
  {
    var rupees, cents := paise / 100, paise % 100;
    var whole := NatText(rupees);
    var fraction := TwoDigits(cents);
    assert FormatPaise(paise) == whole + ['.'] + fraction;
    ParsePointed(whole, fraction);
    RupeesAndPaise(paise, DigitsValue(whole), DigitsValue(fraction), Pow10(|fraction|));
  }

  /** A number below 100 as exactly two digits. */
  function TwoDigits(p: nat): (s: string)
    requires p < 100
    ensures |s| == 2 && AllDigits(s) && DigitsValue(s) == p && Pow10(|s|) == 100
  {
    var s := [DigitChar(p / 10), DigitChar(p % 10)];
    assert s[..1] == [DigitChar(p / 10)];
    assert [DigitChar(p / 10)][..0] == [];
    assert DigitsValue(s[..1]) == p / 10;
    assert p == p / 10 * 10 + p % 10;
    s
  }

  /**
   * Digits, a point and digits read as the whole part plus the scaled
   * fraction; either side may be empty ("5.", ".5"), but not both (".").
   */
  lemma ParseUnsignedPointed(whole: string, fraction: string)
    requires AllDigits(whole) && AllDigits(fraction)
    ensures |whole| + |fraction| > 0 ==>
      ParseUnsigned(whole + ['.'] + fraction) == Some(DecimalValue(whole, fraction))
    ensures |whole| + |fraction| == 0 ==> ParseUnsigned(whole + ['.'] + fraction) == None
  {
    var s := whole + ['.'] + fraction;
    DotAfterDigits(whole, fraction);
    assert s[..|whole|] == whole;
    assert s[|whole| + 1..] == fraction;
  }

  /** The same read through the parser with its optional sign: such a text has none. */
  lemma ParsePointed(whole: string, fraction: string)
    requires AllDigits(whole) && AllDigits(fraction)
    ensures |whole| + |fraction| > 0 ==>
      ParseDecimal(whole + ['.'] + fraction) == Some(DecimalValue(whole, fraction))
    ensures |whole| + |fraction| == 0 ==> ParseDecimal(whole + ['.'] + fraction) == None
  {
    var s := whole + ['.'] + fraction;
    ParseUnsignedPointed(whole, fraction);
    if |whole| > 0 {
      assert s[0] == whole[0];
    } else {
      assert s[0] == '.';
    }
  }

  /** A run of digits with no point reads as its integer value ("95" is 95). */
  lemma ParseUnsignedDigits(digits: string)
    requires |digits| > 0 && AllDigits(digits)
    ensures ParseUnsigned(digits) == Some(DigitsValue(digits) as real)
  {
    DotIndexOfDigits(digits);
    assert digits[..|digits|] == digits;
    assert DecimalValue(digits, []) == DigitsValue(digits) as real by {
      assert DigitsValue([]) == 0 && Pow10(0) == 1;
    }
  }

  /** Digits hold no point. */
  lemma {:induction false} DotIndexOfDigits(digits: string)
    requires AllDigits(digits)
    ensures DotIndex(digits) == |digits|
  {
    if digits != [] {
      assert IsDigit(digits[0]);
      assert AllDigits(digits[1..]) by {
        assert forall k :: 0 <= k < |digits[1..]| ==> digits[1..][k] == digits[k + 1];
      }
      DotIndexOfDigits(digits[1..]);
    }
  }

  /** The same read through the parser with its optional sign. */
  lemma ParseDigits(digits: string)
    requires |digits| > 0 && AllDigits(digits)
    ensures ParseDecimal(digits) == Some(DigitsValue(digits) as real)
  {
    ParseUnsignedDigits(digits);
    assert IsDigit(digits[0]);
  }

  /** A leading '-' negates the unsigned number after it; a leading '+' keeps it. */
  lemma ParseSigned(sign: char, u: string)
    requires sign == '+' || sign == '-'
    ensures ParseUnsigned(u).None? ==> ParseDecimal([sign] + u) == None
    ensures ParseUnsigned(u).Some? ==>
      ParseDecimal([sign] + u) ==
        Some(if sign == '-' then -ParseUnsigned(u).value else ParseUnsigned(u).value)
  {
    assert ([sign] + u)[1..] == u;
  }

  /** A signed decimal read end to end: "-1.5" is -1.5. */
  lemma NegativeDecimalScenario()
    ensures ParseDecimal("-1.5") == Some(-1.5)
  {
    var whole, fraction := "1", "5";
    assert DigitsValue(whole) == 1 by {
      assert whole[..0] == [];
    }
    assert DigitsValue(fraction) == 5 by {
      assert fraction[..0] == [];
    }
    assert DecimalValue(whole, fraction) == 1.5;
    ParseUnsignedPointed(whole, fraction);
    var u := whole + ['.'] + fraction;
    ParseSigned('-', u);
    assert ['-'] + u == "-1.5";
  }

  /** Digits and points only, with at most one point and at least one digit. */
  predicate UnsignedForm(s: string)
  {
    && (forall k :: 0 <= k < |s| ==> IsDigit(s[k]) || s[k] == '.')
    && (forall i, j :: 0 <= i < j < |s| && s[i] == '.' ==> s[j] != '.')
    && (exists k :: 0 <= k < |s| && IsDigit(s[k]))
  }

  /** ParseUnsigned accepts exactly the strings of that form. */
  lemma UnsignedFormAccepted(s: string)
    ensures ParseUnsigned(s).Some? <==> UnsignedForm(s)
  {
    var k := DotIndex(s);
    var whole := s[..k];
    var fraction := if k < |s| then s[k + 1..] else [];
    assert forall j :: k < j < |s| ==> s[j] == fraction[j - k - 1];
    assert forall j :: 0 <= j < k ==> s[j] == whole[j];
    if ParseUnsigned(s).Some? {
      forall i, j | 0 <= i < j < |s| && s[i] == '.'
        ensures s[j] != '.'
      {
        assert i == k;
        assert IsDigit(fraction[j - k - 1]);
      }
      if |whole| > 0 {
        assert IsDigit(s[0]);
      } else {
        assert IsDigit(s[k + 1]);
      }
    }
    if UnsignedForm(s) {
      var d :| 0 <= d < |s| && IsDigit(s[d]);
      forall j | 0 <= j < |fraction|
        ensures IsDigit(fraction[j])
      {
        assert s[k + 1 + j] != '.';
      }
      assert d < k || k < d;
    }
  }

  /** ParseDecimal accepts exactly that form, optionally after one sign. */
  lemma DecimalFormAccepted(s: string)
    ensures ParseDecimal(s).Some? <==>
      UnsignedForm(s) || (|s| > 0 && (s[0] == '+' || s[0] == '-') && UnsignedForm(s[1..]))
  {
    UnsignedFormAccepted(s);
    if |s| > 0 {
      UnsignedFormAccepted(s[1..]);
    }
  }

  /** The first point of digits, a point and more is the one after the digits. */
  lemma DotAfterDigits(whole: string, fraction: string)
    requires AllDigits(whole)
    ensures DotIndex(whole + ['.'] + fraction) == |whole|
  {
    var s := whole + ['.'] + fraction;
    var k := DotIndex(s);
    assert s[|whole|] == '.';
  }

  /** Rupees plus paise over a hundred is the amount in paise over a hundred. */
  lemma RupeesAndPaise(paise: nat, rupees: nat, cents: nat, scale: nat)
    requires rupees == paise / 100 && cents == paise % 100 && scale == 100
    ensures rupees as real + cents as real / scale as real == paise as real / 100.0
  {
    assert paise == rupees * 100 + cents;
  }
}
