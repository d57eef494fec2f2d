/**
  * ASCII character classes, Python's `str.capitalize` and decimal numerals, as the
  * chemistry front end uses them: the regular-expression classes `\d`, `[A-Za-z]` and
  * `[A-Za-z0-9]`, the case normalisation applied before every periodic-table lookup,
  * and `int(...)` on a run of digits.
  */
module Text {

  predicate IsDigit(c: char) { '0' <= c <= '9' }
  predicate IsUpper(c: char) { 'A' <= c <= 'Z' }
  predicate IsLower(c: char) { 'a' <= c <= 'z' }
  predicate IsLetter(c: char) { IsUpper(c) || IsLower(c) }
  predicate IsAlnum(c: char) { IsLetter(c) || IsDigit(c) }

  /** The class `[A-Za-z0-9()]` of the formula tokenizer. */
  predicate IsTokenChar(c: char) { IsAlnum(c) || c == '(' || c == ')' }

  /** `c.upper()` on ASCII. */
  function ToUpper(c: char): (u: char)
    ensures !IsLower(u)
    ensures IsLetter(u) == IsLetter(c)
  {
    if IsLower(c) then (c as int - 32) as char else c
  }

  /** `c.lower()` on ASCII. */
  function ToLower(c: char): (l: char)
    ensures !IsUpper(l)
    ensures IsLetter(l) == IsLetter(c)
  {
    if IsUpper(c) then (c as int + 32) as char else c
  }

  function Lower(s: string): (r: string)
    ensures |r| == |s|
    ensures forall i :: 0 <= i < |s| ==> r[i] == ToLower(s[i])
  {
    seq(|s|, i requires 0 <= i < |s| => ToLower(s[i]))
  }

  /** Python's `str.capitalize` on ASCII text: the first character upper-cased, the rest lower-cased. */
  function Capitalize(s: string): (r: string)
    ensures |r| == |s|
    ensures |s| > 0 ==> r[0] == ToUpper(s[0])
    ensures forall i :: 1 <= i < |s| ==> r[i] == ToLower(s[i])
  {
    if s == [] then [] else [ToUpper(s[0])] + Lower(s[1..])
  }

  /** Text in the form `Capitalize` produces: no lower-case first letter, no upper-case letter after it. */
  predicate IsCapitalized(s: string)
  {
    (|s| > 0 ==> !IsLower(s[0])) && forall i :: 1 <= i < |s| ==> !IsUpper(s[i])
  }

  /** Two strings that differ only in the case of their letters. */
  predicate SameIgnoringCase(s: string, t: string)
  {
    |s| == |t| && forall i :: 0 <= i < |s| ==> ToLower(s[i]) == ToLower(t[i])
  }

  lemma ToUpperOfToLower(c: char)
    ensures ToUpper(ToLower(c)) == ToUpper(c)
  {
  }

  lemma CaseFoldsAgree(c: char, d: char)
    requires ToLower(c) == ToLower(d)
    ensures ToUpper(c) == ToUpper(d)
  {
    ToUpperOfToLower(c);
    ToUpperOfToLower(d);
  }

  /** Text already in capitalised form is left alone, so applying `Capitalize` twice is applying it once. */
  lemma CapitalizeFixesCapitalized(s: string)
    ensures IsCapitalized(Capitalize(s))
    ensures IsCapitalized(s) <==> Capitalize(s) == s
  {
    var r := Capitalize(s);
    if IsCapitalized(s) {
      forall i | 0 <= i < |s| ensures r[i] == s[i] {
      }
    }
  }

  lemma CapitalizeIdempotent(s: string)
    ensures Capitalize(Capitalize(s)) == Capitalize(s)
  {
    CapitalizeFixesCapitalized(s);
    CapitalizeFixesCapitalized(Capitalize(s));
  }

  /** `Capitalize` sends two strings to the same text exactly when they differ only in case. */
  lemma CapitalizeIgnoresCase(s: string, t: string)
    ensures Capitalize(s) == Capitalize(t) <==> SameIgnoringCase(s, t)
  {
    var cs, ct := Capitalize(s), Capitalize(t);
    if SameIgnoringCase(s, t) {
      if |s| > 0 {
        CaseFoldsAgree(s[0], t[0]);
      }
      forall i | 0 <= i < |s| ensures cs[i] == ct[i] {
      }
    }
    if cs == ct {
      forall i | 0 <= i < |s| ensures ToLower(s[i]) == ToLower(t[i]) {
        if i == 0 {
          assert ToUpper(s[0]) == ToUpper(t[0]);
        } else {
          assert cs[i] == ct[i];
        }
      }
    }
  }

  function DigitValue(c: char): (v: nat)
    requires IsDigit(c)
    ensures v < 10
  {
    c as int - '0' as int
  }

  function DigitChar(v: nat): (c: char)
    requires v < 10
    ensures IsDigit(c) && DigitValue(c) == v
  {
    ('0' as int + v) as char
  }

  predicate AllDigits(s: string)
  {
    forall i :: 0 <= i < |s| ==> IsDigit(s[i])
  }

  /** `int(s)` for a string of ASCII digits, read most significant digit first. */
  function DigitsValue(s: string): (v: nat)
    requires AllDigits(s)
    ensures v < Pow10(|s|)
  {
    if s == [] then 0 else DigitsValue(s[..|s| - 1]) * 10 + DigitValue(s[|s| - 1])
  }

  function Pow10(n: nat): (p: nat)
    ensures p >= 1
  {
    if n == 0 then 1 else 10 * Pow10(n - 1)
  }

  /** The decimal numeral of `n`, without leading zeros: `str(n)`. */
  function Decimal(n: nat): (s: string)
    ensures |s| > 0 && AllDigits(s)
    ensures |s| > 1 ==> s[0] != '0'
  {
    if n < 10 then [DigitChar(n)] else Decimal(n / 10) + [DigitChar(n % 10)]
  }

  /** `int(str(n)) == n`: reading back a decimal numeral gives the number. */
  lemma {:induction false} DecimalRoundTrip(n: nat)
    ensures DigitsValue(Decimal(n)) == n
  {
    var s := Decimal(n);
    if n >= 10 {
      DecimalRoundTrip(n / 10);
      assert s[..|s| - 1] == Decimal(n / 10);
    }
  }
}
