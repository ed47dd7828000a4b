/**
 * The part of Python's built-in `int()` that a submitted lookup value goes through:
 * `int(s)` for a `str` argument in base 10, restricted to ASCII.  `int(s)` strips
 * surrounding whitespace, then accepts an optional `+` or `-` sign followed by decimal
 * digits in which single underscores may separate two digits; anything else raises
 * `ValueError`, modelled here as `None`.
 *
 * Also here: `str(n)` for a non-negative integer, the rendering of a primary key.
 */
module PyInt {
  import opened Wrappers

  /**
   * The ASCII characters `int()` skips around a number: space and `\t \n \v \f \r`.
   * Unlike `str.isspace()`, this leaves out the separators U+001C to U+001F.
   */
  predicate IsSpace(c: char) {
    c == ' ' || ('\t' <= c <= '\r')
  }

  predicate IsDigit(c: char) {
    '0' <= c <= '9'
  }

  function DigitValue(c: char): (v: nat)
    requires IsDigit(c)
    ensures v < 10
  {
    c as int - '0' as int
  }

  // ---------------------------------------------------------------------------
  // Stripping surrounding whitespace

  /** The number of whitespace characters `s` starts with. */
  function LeadingSpaces(s: string): (n: nat)
    ensures n <= |s|
    ensures forall i :: 0 <= i < n ==> IsSpace(s[i])
    ensures n < |s| ==> !IsSpace(s[n])
  {
    if |s| > 0 && IsSpace(s[0]) then 1 + LeadingSpaces(s[1..]) else 0
  }

  /** The number of whitespace characters `s` ends with. */
  function TrailingSpaces(s: string): (n: nat)
    ensures n <= |s|
    ensures forall i :: |s| - n <= i < |s| ==> IsSpace(s[i])
    ensures n < |s| ==> !IsSpace(s[|s| - n - 1])
  {
    if |s| > 0 && IsSpace(s[|s| - 1]) then 1 + TrailingSpaces(s[..|s| - 1]) else 0
  }

  /** The bounds of `s` with its surrounding whitespace cut off. */
  function StripBounds(s: string): (b: (nat, nat))
    ensures b.0 <= b.1 <= |s|
    ensures forall i :: 0 <= i < b.0 ==> IsSpace(s[i])
    ensures forall i :: b.1 <= i < |s| ==> IsSpace(s[i])
    ensures b.0 < b.1 ==> !IsSpace(s[b.0]) && !IsSpace(s[b.1 - 1])
  {
    var lead := LeadingSpaces(s);
    var rest := s[lead..];
    var trail := TrailingSpaces(rest);
    assert |rest| == |s| - lead;
    forall i | |s| - trail <= i < |s|
      ensures IsSpace(s[i])
    {
      assert s[i] == rest[i - lead];
    }
    assert lead < |s| - trail ==> s[|s| - trail - 1] == rest[|rest| - trail - 1];
    (lead, |s| - trail)
  }

  /** `s.strip()` over the ASCII whitespace characters. */
  function Strip(s: string): (t: string)
    ensures |t| <= |s|
    ensures t == [] || (!IsSpace(t[0]) && !IsSpace(t[|t| - 1]))
  {
    var b := StripBounds(s);
    s[b.0..b.1]
  }

  /** A string with no whitespace in it is left alone by stripping. */
  lemma StripNoSpace(s: string)
    requires forall i :: 0 <= i < |s| ==> !IsSpace(s[i])
    ensures Strip(s) == s
  {
    var b := StripBounds(s);
  }

  /** Stripping removes only whitespace: every other character of `s` survives it. */
  lemma StripKeeps(s: string, c: char)
    requires c in s && !IsSpace(c)
    ensures c in Strip(s)
  {
    var b := StripBounds(s);
    var k :| 0 <= k < |s| && s[k] == c;
    assert s[b.0..b.1][k - b.0] == c;
  }

  // ---------------------------------------------------------------------------
  // The grammar int() accepts, stated declaratively

  predicate DigitsAndUnderscores(s: string) {
    forall i :: 0 <= i < |s| ==> IsDigit(s[i]) || s[i] == '_'
  }

  /** No two underscores of `s` stand side by side. */
  ghost predicate NoAdjacentUnderscores(s: string) {
    forall i, j {:trigger s[i], s[j]} :: 0 <= i < j < |s| && j == i + 1 ==> s[i] != '_' || s[j] != '_'
  }

  /**
   * `s` is digit ('_'? digit)*: decimal digits and underscores, beginning and ending with a
   * digit, no two underscores together; so every underscore stands between two digits.
   */
  ghost predicate IsDigitGroups(s: string) {
    |s| > 0 && DigitsAndUnderscores(s) && IsDigit(s[0]) && IsDigit(s[|s| - 1]) && NoAdjacentUnderscores(s)
  }

  /** What a prefix of digit groups looks like: it may also end in one underscore. */
  ghost predicate UnderscoresFollowDigits(p: string) {
    DigitsAndUnderscores(p) && (|p| > 0 ==> IsDigit(p[0])) && NoAdjacentUnderscores(p)
  }

  /** The value of a run of digits read in positional decimal notation, underscores ignored. */
  function DecimalValue(s: string): nat
    requires DigitsAndUnderscores(s)
  {
    if s == [] then 0
    else
      var last := s[|s| - 1];
      if last == '_' then DecimalValue(s[..|s| - 1])
      else DecimalValue(s[..|s| - 1]) * 10 + DigitValue(last)
  }

  /** `int(s)` succeeds: after stripping, an optional sign followed by digit groups. */
  ghost predicate IsIntLiteral(s: string) {
    var t := Strip(s);
    IsDigitGroups(t) || (|t| > 0 && (t[0] == '+' || t[0] == '-') && IsDigitGroups(t[1..]))
  }

  /** The integer an accepted literal denotes. */
  ghost function LiteralValue(s: string): int
    requires IsIntLiteral(s)
  {
    var t := Strip(s);
    if t[0] == '-' then -(DecimalValue(t[1..]) as int)
    else if t[0] == '+' then DecimalValue(t[1..])
    else DecimalValue(t)
  }

  // ---------------------------------------------------------------------------
  // The scanner: one left-to-right pass over the digits

  /**
   * Scans `d` from position `i`, with `acc` the value read so far and `afterDigit` telling
   * whether the previous character was a digit (false at the very start).  An underscore is
   * refused unless it follows a digit, any other non-digit stops the scan with an error, and
   * the text must not end right after an underscore or before any digit.
   */
  function Scan(d: string, i: nat, acc: nat, afterDigit: bool): Option<nat>
    requires i <= |d|
    decreases |d| - i
  {
    if i == |d| then
      if afterDigit then Some(acc) else None
    else if d[i] == '_' then
      if afterDigit then Scan(d, i + 1, acc, false) else None
    else if IsDigit(d[i]) then
      Scan(d, i + 1, acc * 10 + DigitValue(d[i]), true)
    else
      None
  }

  /** From a valid prefix `d[..i]` read as `acc`, the scanner accepts `d` exactly when it is digit groups, with its value. */
  lemma {:induction false} ScanMatchesGrammar(d: string, i: nat, acc: nat, afterDigit: bool)
    requires i <= |d|
    requires UnderscoresFollowDigits(d[..i])
    requires afterDigit == (i > 0 && IsDigit(d[i - 1]))
    requires acc == DecimalValue(d[..i])
    ensures Scan(d, i, acc, afterDigit) == if IsDigitGroups(d) then Some(DecimalValue(d)) else None
    decreases |d| - i
  {
    if i == |d| {
      assert d[..i] == d;
    } else {
      var p := d[..i + 1];
      assert p[..i] == d[..i];
      if d[i] == '_' {
        if afterDigit {
          assert UnderscoresFollowDigits(p);
          ScanMatchesGrammar(d, i + 1, acc, false);
        } else {
          assert !IsDigitGroups(d) by {
            assert d[i] == '_';
          }
        }
      } else if IsDigit(d[i]) {
        assert UnderscoresFollowDigits(p);
        ScanMatchesGrammar(d, i + 1, acc * 10 + DigitValue(d[i]), true);
      } else {
        assert !IsDigitGroups(d) by {
          assert !(IsDigit(d[i]) || d[i] == '_');
        }
      }
    }
  }

  /** `int(s)`: `Some(n)` when Python returns `n`, `None` when it raises `ValueError`. */
  function ParseInt(s: string): (r: Option<int>)
    ensures r.Some? <==> IsIntLiteral(s)
    ensures r.Some? ==> r.value == LiteralValue(s)
  {
    var t := Strip(s);
    if |t| > 0 && (t[0] == '+' || t[0] == '-') then
      var digits := t[1..];
      assert digits[..0] == [];
      ScanMatchesGrammar(digits, 0, 0, false);
      match Scan(digits, 0, 0, false)
      case None => None
      case Some(n) => Some(if t[0] == '-' then -(n as int) else n)
    else
      assert t[..0] == [];
      ScanMatchesGrammar(t, 0, 0, false);
      match Scan(t, 0, 0, false)
      case None => None
      case Some(n) => Some(n)
  }

  // ---------------------------------------------------------------------------
  // Sizes of literals

  function Pow10(k: nat): (p: nat)
    ensures p >= 1
  {
    if k == 0 then 1 else 10 * Pow10(k - 1)
  }

  /** A run of `k` digits (underscores not counted against it) denotes less than 10^k. */
  lemma {:induction false} DecimalValueBound(s: string)
    requires DigitsAndUnderscores(s)
    ensures DecimalValue(s) < Pow10(|s|)
  {
    if s != [] {
      var p := s[..|s| - 1];
      DecimalValueBound(p);
      if s[|s| - 1] != '_' {
        assert DecimalValue(p) + 1 <= Pow10(|p|);
        assert DecimalValue(p) * 10 + 10 <= Pow10(|p|) * 10;
      }
    }
  }

  /** An accepted literal of at most `k + 1` characters denotes a number of absolute value below 10^k when it has a sign, below 10^(k+1) otherwise. */
  lemma LiteralValueBound(s: string)
    requires IsIntLiteral(s)
    ensures var t := Strip(s);
      if t[0] == '+' || t[0] == '-' then -(Pow10(|t| - 1) as int) < LiteralValue(s) < Pow10(|t| - 1)
      else 0 <= LiteralValue(s) < Pow10(|t|)
  {
    var t := Strip(s);
    if t[0] == '+' || t[0] == '-' {
      DecimalValueBound(t[1..]);
    } else {
      DecimalValueBound(t);
    }
  }

  // ---------------------------------------------------------------------------
  // str(n) for n >= 0

  function DigitChar(v: nat): (c: char)
    requires v < 10
    ensures IsDigit(c) && DigitValue(c) == v
  {
    ('0' as int + v) as char
  }

  /** Python's `str(n)` for a non-negative integer: its decimal digits, without leading zeros. */
  function Decimal(n: nat): (s: string)
    ensures |s| > 0
    ensures forall i :: 0 <= i < |s| ==> IsDigit(s[i])
    decreases n
  {
    if n < 10 then [DigitChar(n)] else Decimal(n / 10) + [DigitChar(n % 10)]
  }

  /** Reading back the rendering of `n` gives `n`. */
  lemma {:induction false} DecimalValueOfDecimal(n: nat)
    ensures DecimalValue(Decimal(n)) == n
    decreases n
  {
    var s := Decimal(n);
    if n >= 10 {
      assert s[..|s| - 1] == Decimal(n / 10);
      DecimalValueOfDecimal(n / 10);
    } else {
      assert s[..0] == [];
    }
  }

  /** `str(n)` has at most `k` characters exactly when `n < 10^k` (for `k >= 1`). */
  lemma {:induction false} DecimalLength(n: nat, k: nat)
    requires k >= 1
    ensures |Decimal(n)| <= k <==> n < Pow10(k)
    decreases n
  {
    if n >= 10 {
      if k == 1 {
        assert |Decimal(n)| >= 2;
      } else {
        DecimalLength(n / 10, k - 1);
      }
    } else {
      assert Pow10(k) >= 10 by {
        assert Pow10(k) == 10 * Pow10(k - 1);
      }
    }
  }

  /** A file separator (U+001C) is not whitespace to `int()`: `int("\x1c5")` raises. */
  lemma IntRejectsFileSeparator()
    ensures ParseInt("\U{1C}5") == None
  {
    var s := "\U{1C}5";
    assert !IsSpace(s[0]) && !IsSpace(s[1]);
    StripNoSpace(s);
    assert !IsDigit(s[0]) && s[0] != '+' && s[0] != '-';
    assert !IsIntLiteral(s);
  }

  /** The rendering of a number is a run of digit groups. */
  lemma DecimalIsDigitGroups(n: nat)
    ensures IsDigitGroups(Decimal(n))
  {
  }

  /** Digit groups without a sign parse to their value. */
  lemma ParseDigits(s: string)
    requires IsDigitGroups(s)
    ensures IsIntLiteral(s) && LiteralValue(s) == DecimalValue(s)
    ensures ParseInt(s) == Some(DecimalValue(s))
  {
    StripNoSpace(s);
  }

  /** `int(str(n)) == n`. */
  lemma ParseDecimal(n: nat)
    ensures IsIntLiteral(Decimal(n)) && LiteralValue(Decimal(n)) == n
    ensures ParseInt(Decimal(n)) == Some(n)
  {
    DecimalIsDigitGroups(n);
    DecimalValueOfDecimal(n);
    ParseDigits(Decimal(n));
  }

  /** A minus sign followed by digit groups parses to the negated value of the digits. */
  lemma ParseMinusDigits(s: string)
    requires |s| > 0 && s[0] == '-' && IsDigitGroups(s[1..])
    ensures ParseInt(s) == Some(-(DecimalValue(s[1..]) as int))
  {
    assert forall i :: 0 < i < |s| ==> s[i] == s[1..][i - 1];
    StripNoSpace(s);
    assert IsIntLiteral(s);
  }

  /** `int("-" + str(n)) == -n`. */
  lemma ParseNegativeDecimal(n: nat)
    ensures ParseInt("-" + Decimal(n)) == Some(-(n as int))
  {
    var d := Decimal(n);
    var s := "-" + d;
    assert s[1..] == d;
    DecimalIsDigitGroups(n);
    DecimalValueOfDecimal(n);
    ParseMinusDigits(s);
  }
}
