/**
  * The molecular-mass front end of `FirstScreen.calculate`: the `re.findall` tokenizer,
  * the split of a leading coefficient, the loop that deletes parenthesis pairs, and the
  * loop that adds up the weighted masses. The mass of a flattened formula comes from the
  * `molmass` package, which is not part of this model: it is a parameter.
  */
module Formula {
  import opened Wrappers
  import opened Text

  /** A range of the input found by a pattern; its meaning (half-open, or the two bracket indices) is given where it is produced. */
  datatype Span = Span(start: nat, end: nat)

  /** The end of the longest run of `inClass` characters starting at `p`: a greedy `*` over a character class. */
  function RunEnd(s: string, p: nat, inClass: char -> bool): (q: nat)
    requires p <= |s|
    ensures p <= q <= |s|
    ensures forall j :: p <= j < q ==> inClass(s[j])
    ensures q == |s| || !inClass(s[q])
    decreases |s| - p
  {
    if p < |s| && inClass(s[p]) then RunEnd(s, p + 1, inClass) else p
  }

  /** A run is determined by where it stops: the first index past `p` outside the class. */
  lemma RunEndUnique(s: string, p: nat, q: nat, inClass: char -> bool)
    requires p <= q <= |s|
    requires forall j :: p <= j < q ==> inClass(s[j])
    requires q == |s| || !inClass(s[q])
    ensures RunEnd(s, p, inClass) == q
  {
    var r := RunEnd(s, p, inClass);
  }

  // ---------------------------------------------------------------------------
  // Tokenizer: re.findall(r'(\d*\(*[A-Za-z\(][A-Za-z0-9\(\)]*\)*)', input_text)
  // ---------------------------------------------------------------------------

  /**
    * Whether the tokenizing pattern matches at `p`. After the longest digit run there
    * must be a letter or `(`: the optional `\(*` can always give back its last `(` to
    * the class `[A-Za-z\(]`, and giving back digits leaves a digit there, which no
    * part of the pattern accepts.
    */
  predicate TokenAt(s: string, p: nat)
    requires p <= |s|
  {
    var d := RunEnd(s, p, IsDigit);
    d < |s| && (IsLetter(s[d]) || s[d] == '(')
  }

  /**
    * The matches `findall` reports from `p` on, as half-open ranges `[start, end)`. A
    * match extends over the longest run of `[A-Za-z0-9()]` (the trailing `\)*` has
    * nothing left to take); where nothing matches, the scan moves on by one character.
    */
  function TokenSpans(s: string, p: nat): (spans: seq<Span>)
    requires p <= |s|
    ensures forall k :: 0 <= k < |spans| ==> p <= spans[k].start < spans[k].end <= |s|
    ensures forall k, l :: 0 <= k < l < |spans| ==> spans[k].end <= spans[l].start
    decreases |s| - p
  {
    if p == |s| then []
    else if TokenAt(s, p) then
      TokenStartsWithTokenChar(s, p);
      var q := RunEnd(s, p, IsTokenChar);
      var rest := TokenSpans(s, q);
      SpansCons(s, Span(p, q), rest);
      [Span(p, q)] + rest
    else TokenSpans(s, p + 1)
  }

  /** A non-empty match at `sp.start` that extends over the longest run of token characters. */
  predicate IsMatch(s: string, sp: Span)
  {
    sp.start < sp.end <= |s| && TokenAt(s, sp.start) && sp.end == RunEnd(s, sp.start, IsTokenChar)
  }

  /** A non-empty span followed by ordered spans from its end on gives ordered spans from its start on. */
  lemma SpansCons(s: string, sp: Span, rest: seq<Span>)
    requires sp.start < sp.end <= |s|
    requires forall k :: 0 <= k < |rest| ==> sp.end <= rest[k].start < rest[k].end <= |s|
    requires forall k, l :: 0 <= k < l < |rest| ==> rest[k].end <= rest[l].start
    ensures var spans := [sp] + rest;
      (forall k :: 0 <= k < |spans| ==> sp.start <= spans[k].start < spans[k].end <= |s|) &&
      (forall k, l :: 0 <= k < l < |spans| ==> spans[k].end <= spans[l].start)
  {
    var spans := [sp] + rest;
    forall k, l | 0 <= k < l < |spans| ensures spans[k].end <= spans[l].start {
      assert spans[l] == rest[l - 1];
      if k > 0 {
        assert spans[k] == rest[k - 1];
      }
    }
  }

  /**
    * Every range the scan reports is a match of the pattern: it starts where the
    * pattern can match and extends over the longest run of `[A-Za-z0-9()]`.
    */
  lemma {:induction false} TokenSpansAreMatches(s: string, p: nat)
    requires p <= |s|
    ensures forall k :: 0 <= k < |TokenSpans(s, p)| ==> IsMatch(s, TokenSpans(s, p)[k])
    decreases |s| - p
  {
    if p < |s| {
      var spans := TokenSpans(s, p);
      if TokenAt(s, p) {
        var q := RunEnd(s, p, IsTokenChar);
        TokenStartsWithTokenChar(s, p);
        assert p < q;
        var rest := TokenSpans(s, q);
        TokenSpansAreMatches(s, q);
        assert spans == [Span(p, q)] + rest;
        forall k | 0 <= k < |spans| ensures IsMatch(s, spans[k]) {
          if k > 0 {
            assert spans[k] == rest[k - 1];
          }
        }
      } else {
        TokenSpansAreMatches(s, p + 1);
      }
    }
  }

  /** Where the pattern matches, the character there is a token character, so the match is not empty. */
  lemma TokenStartsWithTokenChar(s: string, p: nat)
    requires p < |s| && TokenAt(s, p)
    ensures IsTokenChar(s[p])
  {
    if !IsDigit(s[p]) {
      RunEndUnique(s, p, p, IsDigit);
    }
  }

  /** `re.findall(...)`: the text of every match, left to right. */
  function FindAll(s: string): (tokens: seq<string>)
    ensures |tokens| == |TokenSpans(s, 0)|
    ensures forall k :: 0 <= k < |tokens| ==> 0 < |tokens[k]| <= |s|
  {
    var spans := TokenSpans(s, 0);
    seq(|spans|, k requires 0 <= k < |spans| => s[spans[k].start..spans[k].end])
  }

  predicate AllTokenChars(s: string)
  {
    forall i :: 0 <= i < |s| ==> IsTokenChar(s[i])
  }

  /** What a token looks like: non-empty, only `[A-Za-z0-9()]`, and its leading digits are followed by a letter or `(`. */
  predicate IsToken(t: string)
  {
    |t| > 0 && AllTokenChars(t) && TokenAt(t, 0)
  }

  /**
    * Every token has the shape the pattern demands, and no character outside
    * `[A-Za-z0-9()]` ever appears in one.
    */
  lemma FindAllTokensWellFormed(s: string)
    ensures forall k :: 0 <= k < |FindAll(s)| ==> IsToken(FindAll(s)[k])
  {
    var spans := TokenSpans(s, 0);
    var tokens := FindAll(s);
    TokenSpansAreMatches(s, 0);
    forall k | 0 <= k < |tokens| ensures IsToken(tokens[k]) {
      MatchIsToken(s, spans[k]);
    }
  }

  /** The text of a match has the shape of a token. */
  lemma MatchIsToken(s: string, sp: Span)
    requires IsMatch(s, sp)
    ensures IsToken(s[sp.start..sp.end])
  {
    var a, b := sp.start, sp.end;
    var t := s[a..b];
    var d := RunEnd(s, a, IsDigit);
    assert d < b;
    RunEndUnique(t, 0, d - a, IsDigit);
  }

  /** One step of the scan at `p`: a match there, or a move to the next character. */
  lemma TokenSpansStep(s: string, p: nat)
    requires p < |s|
    ensures TokenAt(s, p) ==>
      TokenSpans(s, p) == [Span(p, RunEnd(s, p, IsTokenChar))] + TokenSpans(s, RunEnd(s, p, IsTokenChar))
    ensures !TokenAt(s, p) ==> TokenSpans(s, p) == TokenSpans(s, p + 1)
  {
  }

  /** A letter or `(` is where the pattern can match. */
  lemma LetterStartsToken(s: string, j: nat)
    requires j < |s| && (IsLetter(s[j]) || s[j] == '(')
    ensures TokenAt(s, j) && j < RunEnd(s, j, IsTokenChar)
  {
    RunEndUnique(s, j, j, IsDigit);
  }

  /** Index `j` lies inside the `k`-th range. */
  predicate Covers(spans: seq<Span>, k: nat, j: nat)
  {
    k < |spans| && spans[k].start <= j < spans[k].end
  }

  /** Putting a range in front shifts the index of the range that covers `j` by one. */
  lemma CoversCons(sp: Span, rest: seq<Span>, k: nat, j: nat)
    requires Covers(rest, k, j)
    ensures Covers([sp] + rest, k + 1, j)
  {
    assert ([sp] + rest)[k + 1] == rest[k];
  }

  /**
    * `findall` skips no match: every index where the pattern can match lies inside
    * some reported match, the `k`-th. A coefficient's digits are therefore never
    * split off their compound ("H 2O" gives "H" and "2O").
    */
  lemma {:induction false} MatchesCovered(s: string, p: nat, j: nat) returns (k: nat)
    requires p <= j < |s|
    requires TokenAt(s, j)
    ensures Covers(TokenSpans(s, p), k, j)
    decreases |s| - p
  {
    TokenSpansStep(s, p);
    if TokenAt(s, p) {
      var q := RunEnd(s, p, IsTokenChar);
      TokenStartsWithTokenChar(s, p);
      assert p < q;
      if j < q {
        k := 0;
      } else {
        var k' := MatchesCovered(s, q, j);
        CoversCons(Span(p, q), TokenSpans(s, q), k', j);
        k := k' + 1;
      }
    } else {
      assert j != p;
      k := MatchesCovered(s, p + 1, j);
    }
  }

  /**
    * No letter and no `(` is ever dropped: each lies inside some token, the `k`-th.
    * (Digits not followed by a letter or `(`, a stray `)` and every other character may be.)
    */
  lemma TokensCoverLetters(s: string, p: nat, j: nat) returns (k: nat)
    requires p <= j < |s|
    requires IsLetter(s[j]) || s[j] == '('
    ensures Covers(TokenSpans(s, p), k, j)
  {
    LetterStartsToken(s, j);
    k := MatchesCovered(s, p, j);
  }

  /** A string made of token characters that the pattern matches at its start is one whole token. */
  lemma SingleToken(s: string)
    requires IsToken(s)
    ensures FindAll(s) == [s]
  {
    RunEndUnique(s, 0, |s|, IsTokenChar);
    assert TokenSpans(s, |s|) == [];
    assert TokenSpans(s, 0) == [Span(0, |s|)];
    assert s[0..|s|] == s;
  }

  // ---------------------------------------------------------------------------
  // Coefficient: re.match(r"(\d+)([A-Za-z\(].*)", component)
  // ---------------------------------------------------------------------------

  /** A coefficient and the compound it multiplies. */
  datatype Component = Component(coefficient: nat, compound: string)

  predicate NotNewline(c: char) { c != '\n' }

  /**
    * The leading digits become the coefficient when a letter or `(` follows them, and the
    * compound runs from there to the end of the line (`.` stops at a newline); otherwise
    * the coefficient is 1 and the compound is the whole component. A coefficient of 0 is
    * accepted.
    */
  function SplitCoefficient(t: string): (c: Component)
    ensures c == Component(1, t) ||
      (|t| > 0 && IsDigit(t[0]) && 0 < |c.compound| < |t| && (IsLetter(c.compound[0]) || c.compound[0] == '('))
  {
    var d := RunEnd(t, 0, IsDigit);
    if 0 < d < |t| && (IsLetter(t[d]) || t[d] == '(') then
      Component(DigitsValue(t[..d]), t[d..RunEnd(t, d, NotNewline)])
    else
      Component(1, t)
  }

  predicate NoNewline(s: string)
  {
    forall i :: 0 <= i < |s| ==> s[i] != '\n'
  }

  /** The split of a component whose digit run ends at `d` and whose line ends at `e`. */
  lemma SplitCoefficientAt(t: string, d: nat, e: nat)
    requires 0 < d < e <= |t|
    requires forall j :: 0 <= j < d ==> IsDigit(t[j])
    requires IsLetter(t[d]) || t[d] == '('
    requires forall j :: d <= j < e ==> NotNewline(t[j])
    requires e == |t| || !NotNewline(t[e])
    ensures SplitCoefficient(t) == Component(DigitsValue(t[..d]), t[d..e])
  {
    RunEndUnique(t, 0, d, IsDigit);
    RunEndUnique(t, d, e, NotNewline);
  }

  /** Writing a digit string in front of a compound and splitting it again gives back the digits' value and the compound. */
  lemma CoefficientRoundTrip(digits: string, compound: string)
    requires |digits| > 0 && AllDigits(digits)
    requires |compound| > 0 && (IsLetter(compound[0]) || compound[0] == '(') && NoNewline(compound)
    ensures SplitCoefficient(digits + compound) == Component(DigitsValue(digits), compound)
  {
    var t, d := digits + compound, |digits|;
    assert t[..d] == digits && t[d..] == compound;
    forall j | 0 <= j < d ensures IsDigit(t[j]) {
      assert t[j] == digits[j];
    }
    forall j | d <= j < |t| ensures NotNewline(t[j]) {
      assert t[j] == compound[j - d];
    }
    SplitCoefficientAt(t, d, |t|);
  }

  /** `str(n)` in front of a compound splits back into `n` and the compound. */
  lemma DecimalCoefficientRoundTrip(n: nat, compound: string)
    requires |compound| > 0 && (IsLetter(compound[0]) || compound[0] == '(') && NoNewline(compound)
    ensures SplitCoefficient(Decimal(n) + compound) == Component(n, compound)
  {
    CoefficientRoundTrip(Decimal(n), compound);
    DecimalRoundTrip(n);
  }

  /**
    * On a token the split always leaves a compound that starts with a letter or `(`; the
    * characters in front of it are digits, whose value is the coefficient, and when
    * there are none the coefficient is 1.
    */
  lemma TokenComponent(t: string)
    requires IsToken(t)
    ensures var c := SplitCoefficient(t); var d := |t| - |c.compound|;
      0 <= d < |t| && AllDigits(t[..d]) && t[d..] == c.compound &&
      (IsLetter(c.compound[0]) || c.compound[0] == '(') &&
      c.coefficient == (if d == 0 then 1 else DigitsValue(t[..d]))
  {
    var d := RunEnd(t, 0, IsDigit);
    if d > 0 {
      RunEndUnique(t, d, |t|, NotNewline);
    }
  }

  // ---------------------------------------------------------------------------
  // Parenthesis flattening: while '(' in compound and ')' in compound: ...
  // ---------------------------------------------------------------------------

  /** Whether `\(([A-Za-z0-9]*)\)` matches at `p`: a `(`, letters and digits only, then `)`. */
  predicate GroupAt(s: string, p: nat)
  {
    p < |s| && s[p] == '(' &&
    var q := RunEnd(s, p + 1, IsAlnum); q < |s| && s[q] == ')'
  }

  /**
    * `re.search(r'\(([A-Za-z0-9]*)\)', s)` from `p`: the leftmost group, as the indices
    * of its `(` (start) and its `)` (end), or `None`.
    */
  function SearchGroup(s: string, p: nat): (g: Option<Span>)
    requires p <= |s|
    ensures g.Some? ==>
      p <= g.value.start < g.value.end < |s| && GroupAt(s, g.value.start) &&
      g.value.end == RunEnd(s, g.value.start + 1, IsAlnum) &&
      forall j :: p <= j < g.value.start ==> !GroupAt(s, j)
    ensures g.None? ==> forall j :: p <= j < |s| ==> !GroupAt(s, j)
    decreases |s| - p
  {
    if p == |s| then None
    else if GroupAt(s, p) then Some(Span(p, RunEnd(s, p + 1, IsAlnum)))
    else SearchGroup(s, p + 1)
  }

  /** Whether `pat` occurs in `s` at index `i`. */
  predicate OccursAt(s: string, pat: string, i: nat)
  {
    i + |pat| <= |s| && s[i..i + |pat|] == pat
  }

  /** `s.find(pat, p)`: the first occurrence at or after `p`. */
  function Find(s: string, pat: string, p: nat): (i: Option<nat>)
    requires p <= |s|
    ensures i.Some? ==> p <= i.value && OccursAt(s, pat, i.value)
    ensures i.Some? ==> forall j :: p <= j < i.value ==> !OccursAt(s, pat, j)
    ensures i.None? ==> forall j :: p <= j <= |s| ==> !OccursAt(s, pat, j)
    decreases |s| - p
  {
    if OccursAt(s, pat, p) then Some(p)
    else if p == |s| then None
    else Find(s, pat, p + 1)
  }

  /** `s.replace(pat, rep, 1)`: the first occurrence replaced, or `s` itself when there is none. */
  function ReplaceFirst(s: string, pat: string, rep: string): (r: string)
    ensures Find(s, pat, 0).None? ==> r == s
    ensures Find(s, pat, 0).Some? ==> |r| == |s| - |pat| + |rep|
  {
    match Find(s, pat, 0)
    case None => s
    case Some(i) => s[..i] + rep + s[i + |pat|..]
  }

  /** `s` with the two brackets of group `g` deleted. */
  function Unwrap(s: string, g: Span): (t: string)
    requires g.start < g.end < |s|
    ensures |t| == |s| - 2
  {
    s[..g.start] + s[g.start + 1..g.end] + s[g.end + 1..]
  }

  /**
    * One step of the loop: the literal replacement of `"(" + innermost + ")"` by
    * `innermost` hits the group the search found, because an earlier occurrence of that
    * text would itself have been an earlier match. So the step deletes exactly the two
    * brackets of the leftmost letters-and-digits group.
    */
  lemma ReplaceFirstAtGroup(s: string)
    requires SearchGroup(s, 0).Some?
    ensures var g := SearchGroup(s, 0).value; var innermost := s[g.start + 1..g.end];
      ReplaceFirst(s, "(" + innermost + ")", innermost) == Unwrap(s, g)
  {
    var g := SearchGroup(s, 0).value;
    ReplaceFirstGroup(s, g.start, g.end);
  }

  /** The text of the leftmost group occurs first where the group is, so the replacement hits that group. */
  lemma ReplaceFirstGroup(s: string, start: nat, end: nat)
    requires start < end < |s| && s[start] == '(' && s[end] == ')'
    requires forall i :: start < i < end ==> IsAlnum(s[i])
    requires forall j :: 0 <= j < start ==> !GroupAt(s, j)
    ensures ReplaceFirst(s, "(" + s[start + 1..end] + ")", s[start + 1..end]) == Unwrap(s, Span(start, end))
  {
    var innermost := s[start + 1..end];
    var pat := "(" + innermost + ")";
    assert s[start..end + 1] == pat;
    forall j | 0 <= j < start ensures !OccursAt(s, pat, j) {
      if OccursAt(s, pat, j) {
        BracketedRunIsGroup(s, innermost, j);
      }
    }
    FindFirstOccurrence(s, pat, start);
    assert start + |pat| == end + 1;
  }

  /** An occurrence with none before it is the one `find` reports. */
  lemma FindFirstOccurrence(s: string, pat: string, i: nat)
    requires OccursAt(s, pat, i)
    requires forall j :: 0 <= j < i ==> !OccursAt(s, pat, j)
    ensures Find(s, pat, 0) == Some(i)
  {
  }

  /** An occurrence of `"(" + w + ")"` with `w` made of letters and digits is a place where the group pattern matches. */
  lemma BracketedRunIsGroup(s: string, w: string, j: nat)
    requires forall i :: 0 <= i < |w| ==> IsAlnum(w[i])
    requires OccursAt(s, "(" + w + ")", j)
    ensures GroupAt(s, j)
  {
    var pat := "(" + w + ")";
    var e := j + 1 + |w|;
    assert s[j..j + |pat|] == pat;
    assert s[j] == pat[0];
    assert s[e] == pat[|pat| - 1];
    forall i | j + 1 <= i < e ensures IsAlnum(s[i]) {
      assert s[i] == pat[i - j] == w[i - j - 1];
    }
    RunEndUnique(s, j + 1, e, IsAlnum);
  }

  predicate HasBothParens(s: string) { '(' in s && ')' in s }

  /**
    * What the flattening loop yields: while both brackets occur, delete the brackets of
    * the leftmost letters-and-digits group; `None` when both occur but no such group
    * does (the search returns `None` and `.group(1)` raises). No multiplier after a
    * group is applied: "Ca(OH)2" becomes "CaOH2".
    */
  function Flattened(s: string): (r: Option<string>)
    ensures r.Some? ==> !HasBothParens(r.value) && |r.value| <= |s|
    decreases |s|
  {
    if !HasBothParens(s) then Some(s)
    else match SearchGroup(s, 0)
      case None => None
      case Some(g) => Flattened(Unwrap(s, g))
  }

  /** The loop of `calculate` that deletes bracket pairs, one literal replacement at a time. */
  method Flatten(compound: string) returns (r: Option<string>)
    ensures r == Flattened(compound)
  {
    var s := compound;
    while '(' in s && ')' in s
      invariant Flattened(s) == Flattened(compound)
      decreases |s|
    {
      var g := SearchGroup(s, 0);
      if g.None? {
        return None;
      }
      var innermost := s[g.value.start + 1..g.value.end];
      ReplaceFirstAtGroup(s);
      s := ReplaceFirst(s, "(" + innermost + ")", innermost);
    }
    return Some(s);
  }

  /** Flattening a flattened string changes nothing; in particular a string without both brackets is its own result. */
  lemma FlattenedIdempotent(s: string)
    requires Flattened(s).Some?
    ensures Flattened(Flattened(s).value) == Flattened(s)
    ensures !HasBothParens(s) ==> Flattened(s) == Some(s)
  {
  }

  /** `s` without its brackets. */
  function Strip(s: string): (r: string)
    ensures '(' !in r && ')' !in r
    ensures |r| <= |s|
  {
    if s == [] then []
    else (if s[0] == '(' || s[0] == ')' then [] else [s[0]]) + Strip(s[1..])
  }

  lemma {:induction false} StripConcat(a: string, b: string)
    ensures Strip(a + b) == Strip(a) + Strip(b)
  {
    if a != [] {
      var head := if a[0] == '(' || a[0] == ')' then [] else [a[0]];
      assert (a + b)[0] == a[0] && (a + b)[1..] == a[1..] + b;
      calc {
        Strip(a + b);
        head + Strip(a[1..] + b);
        { StripConcat(a[1..], b); }
        head + (Strip(a[1..]) + Strip(b));
        (head + Strip(a[1..])) + Strip(b);
      }
    } else {
      assert a + b == b;
    }
  }

  lemma {:induction false} StripWithoutParens(s: string)
    requires '(' !in s && ')' !in s
    ensures Strip(s) == s
  {
    if s != [] {
      StripWithoutParens(s[1..]);
    }
  }

  /** The group's split points: everything before `(`, the letters and digits inside, everything after `)`. */
  lemma GroupParts(s: string, g: Span)
    requires g.start < g.end < |s| && s[g.start] == '(' && s[g.end] == ')'
    ensures s == s[..g.start] + ['('] + s[g.start + 1..g.end] + [')'] + s[g.end + 1..]
    ensures Unwrap(s, g) == s[..g.start] + s[g.start + 1..g.end] + s[g.end + 1..]
  {
  }

  /** A bracket contributes nothing to the stripped text. */
  lemma StripAroundBracket(x: string, c: char, y: string)
    requires c == '(' || c == ')'
    ensures Strip(x + [c] + y) == Strip(x) + Strip(y)
  {
    assert [c][1..] == [];
    assert Strip([c]) == [];
    calc {
      Strip(x + [c] + y);
      { StripConcat(x + [c], y); }
      Strip(x + [c]) + Strip(y);
      { StripConcat(x, [c]); }
      Strip(x) + Strip(y);
    }
  }

  /** Deleting a group's brackets keeps every other character in order and removes one `(` and one `)`. */
  lemma UnwrapKeepsOthers(s: string, g: Span)
    requires g.start < g.end < |s| && s[g.start] == '(' && s[g.end] == ')'
    ensures Strip(Unwrap(s, g)) == Strip(s)
    ensures multiset(Unwrap(s, g))['('] == multiset(s)['('] - 1
    ensures multiset(Unwrap(s, g))[')'] == multiset(s)[')'] - 1
  {
    var a, m, z := s[..g.start], s[g.start + 1..g.end], s[g.end + 1..];
    GroupParts(s, g);
    calc {
      Strip(s);
      Strip((a + ['('] + m) + [')'] + z);
      { StripAroundBracket(a + ['('] + m, ')', z); }
      Strip(a + ['('] + m) + Strip(z);
      { StripAroundBracket(a, '(', m); }
      Strip(a) + Strip(m) + Strip(z);
      { StripConcat(a, m); }
      Strip(a + m) + Strip(z);
      { StripConcat(a + m, z); }
      Strip(a + m + z);
    }
    assert multiset(s) == multiset(a) + multiset{'('} + multiset(m) + multiset{')'} + multiset(z);
    assert multiset(Unwrap(s, g)) == multiset(a) + multiset(m) + multiset(z);
  }

  /**
    * A successful flattening only deletes brackets: the other characters stay, in order,
    * and as many `(` as `)` are gone, two characters per step.
    */
  lemma {:induction false} FlattenedKeepsOthers(s: string)
    requires Flattened(s).Some?
    ensures var t := Flattened(s).value;
      Strip(t) == Strip(s) &&
      multiset(s)['('] as int - multiset(t)['('] == multiset(s)[')'] as int - multiset(t)[')'] &&
      |s| - |t| == 2 * (multiset(s)['('] as int - multiset(t)['('])
    decreases |s|
  {
    if HasBothParens(s) {
      var g := SearchGroup(s, 0).value;
      UnwrapKeepsOthers(s, g);
      FlattenedKeepsOthers(Unwrap(s, g));
    }
  }

  // Well-nested brackets: the intended reading of a group.

  /** What one character does to the bracket depth. */
  function Delta(c: char): int
  {
    if c == '(' then 1 else if c == ')' then -1 else 0
  }

  /** Open brackets minus closed brackets. */
  function Depth(s: string): int
  {
    if s == [] then 0 else Depth(s[..|s| - 1]) + Delta(s[|s| - 1])
  }

  /** Every `(` is closed by a later `)` and every `)` closes an earlier `(`. */
  predicate Balanced(s: string)
  {
    Depth(s) == 0 && forall k :: 0 <= k <= |s| ==> Depth(s[..k]) >= 0
  }

  /** Between a `(` and a later `)`, with only token characters in between, there is a letters-and-digits group. */
  lemma {:induction false} GroupBetween(s: string, p: nat, q: nat)
    requires AllTokenChars(s)
    requires p < q < |s| && s[p] == '(' && s[q] == ')'
    ensures exists j :: p <= j < q && GroupAt(s, j)
    decreases q - p
  {
    var r := RunEnd(s, p + 1, IsAlnum);
    if s[r] == ')' {
      assert GroupAt(s, p);
    } else {
      assert IsTokenChar(s[r]);
      GroupBetween(s, r, q);
    }
  }

  /** Text of positive depth holds an open bracket. */
  lemma {:induction false} PositiveDepthHasOpen(w: string) returns (p: nat)
    requires Depth(w) > 0
    ensures p < |w| && w[p] == '('
  {
    var v := w[..|w| - 1];
    if w[|w| - 1] == '(' {
      p := |w| - 1;
    } else {
      p := PositiveDepthHasOpen(v);
      assert w[p] == v[p];
    }
  }

  /** A well-nested string with brackets has a group for the search to find. */
  lemma BalancedHasGroup(s: string)
    requires AllTokenChars(s) && Balanced(s) && ')' in s
    ensures SearchGroup(s, 0).Some?
  {
    var q :| 0 <= q < |s| && s[q] == ')';
    assert s[..q + 1][..q] == s[..q];
    assert Depth(s[..q + 1]) >= 0;
    var p := PositiveDepthHasOpen(s[..q]);
    assert s[p] == '(';
    GroupBetween(s, p, q);
  }

  /** Text of depth 0 with only one kind of bracket has no bracket at all. */
  lemma OneKindOfBracket(w: string)
    requires Depth(w) == 0 && ('(' !in w || ')' !in w)
    ensures '(' !in w && ')' !in w
  {
    if ')' !in w {
      DepthWithoutClose(w);
    } else {
      DepthWithoutOpen(w);
    }
  }

  lemma {:induction false} DepthWithoutClose(w: string)
    requires ')' !in w
    ensures Depth(w) >= 0 && ('(' in w ==> Depth(w) > 0)
  {
    if w != [] {
      var v := w[..|w| - 1];
      assert forall i :: 0 <= i < |v| ==> v[i] == w[i];
      DepthWithoutClose(v);
      if '(' in w && w[|w| - 1] != '(' {
        var i :| 0 <= i < |w| && w[i] == '(';
        assert v[i] == '(';
      }
    }
  }

  lemma {:induction false} DepthWithoutOpen(w: string)
    requires '(' !in w
    ensures Depth(w) <= 0 && (')' in w ==> Depth(w) < 0)
  {
    if w != [] {
      var v := w[..|w| - 1];
      assert forall i :: 0 <= i < |v| ==> v[i] == w[i];
      DepthWithoutOpen(v);
      if ')' in w && w[|w| - 1] != ')' {
        var i :| 0 <= i < |w| && w[i] == ')';
        assert v[i] == ')';
      }
    }
  }

  lemma {:induction false} DepthConcat(x: string, y: string)
    ensures Depth(x + y) == Depth(x) + Depth(y)
    decreases |y|
  {
    if y == [] {
      assert x + y == x;
    } else {
      var y' := y[..|y| - 1];
      DepthConcat(x, y');
      assert (x + y)[..|x + y| - 1] == x + y';
    }
  }

  /** Text without brackets has depth 0. */
  lemma {:induction false} DepthWithoutBrackets(w: string)
    requires forall i :: 0 <= i < |w| ==> IsAlnum(w[i])
    ensures Depth(w) == 0
  {
    if w != [] {
      DepthWithoutBrackets(w[..|w| - 1]);
    }
  }

  /** A prefix of the unwrapped string that ends inside the group: the prefix before `(` followed by letters and digits. */
  lemma UnwrapPrefixInside(s: string, g: Span, k: nat)
    requires g.start < k < g.end < |s|
    requires forall i :: g.start < i < g.end ==> IsAlnum(s[i])
    ensures Depth(Unwrap(s, g)[..k]) == Depth(s[..g.start])
  {
    var p := g.start;
    var inner := s[p + 1..k + 1];
    assert Unwrap(s, g)[..k] == s[..p] + inner;
    assert forall i :: 0 <= i < |inner| ==> inner[i] == s[p + 1 + i];
    DepthWithoutBrackets(inner);
    DepthConcat(s[..p], inner);
  }

  /** Depth adds up over adjacent slices. */
  lemma DepthSplit(s: string, i: nat, j: nat, l: nat)
    requires i <= j <= l <= |s|
    ensures Depth(s[i..l]) == Depth(s[i..j]) + Depth(s[j..l])
  {
    assert s[i..l] == s[i..j] + s[j..l];
    DepthConcat(s[i..j], s[j..l]);
  }

  /** The first `k` characters of the unwrapped string, for `k` past the group. */
  lemma UnwrapPrefixShape(s: string, g: Span, k: nat)
    requires g.start < g.end < |s|
    requires g.end - 1 <= k <= |s| - 2
    ensures Unwrap(s, g)[..k] == s[..g.start] + s[g.start + 1..g.end] + s[g.end + 1..k + 2]
  {
    var p, e := g.start, g.end;
    PrefixOfConcat(s[..p] + s[p + 1..e], s[e + 1..], k);
    assert s[e + 1..][..k - (e - 1)] == s[e + 1..k + 2];
  }

  /** The depth of a prefix, counted over the stretches before, inside and after a bracket pair. */
  lemma PrefixDepthAroundPair(s: string, p: nat, e: nat, l: nat)
    requires p < e < l <= |s| && s[p] == '(' && s[e] == ')'
    ensures Depth(s[..l]) == Depth(s[..p]) + Depth(s[p + 1..e]) + Depth(s[e + 1..l])
  {
    assert s[p..p + 1] == ['('] && s[e..e + 1] == [')'];
    assert Depth(['(']) == 1 && Depth([')']) == -1;
    DepthSplit(s, 0, p, l);
    DepthSplit(s, p, p + 1, l);
    DepthSplit(s, p + 1, e, l);
    DepthSplit(s, e, e + 1, l);
    assert s[0..p] == s[..p] && s[0..l] == s[..l];
  }

  /** A prefix of the unwrapped string that ends after the group: the prefix of `s` two characters longer, without the pair. */
  lemma UnwrapPrefixAfter(s: string, g: Span, k: nat)
    requires g.start < g.end < |s| && s[g.start] == '(' && s[g.end] == ')'
    requires g.end - 1 <= k <= |s| - 2
    ensures Depth(Unwrap(s, g)[..k]) == Depth(s[..k + 2])
  {
    var a, m, z := s[..g.start], s[g.start + 1..g.end], s[g.end + 1..k + 2];
    UnwrapPrefixShape(s, g, k);
    DepthConcat(a + m, z);
    DepthConcat(a, m);
    PrefixDepthAroundPair(s, g.start, g.end, k + 2);
  }

  lemma PrefixOfConcat(x: string, y: string, k: nat)
    requires |x| <= k <= |x| + |y|
    ensures (x + y)[..k] == x + y[..k - |x|]
  {
  }

  /** The prefixes of the unwrapped string are no deeper in `)` than those of `s`. */
  lemma UnwrapPrefixDepth(s: string, g: Span, k: nat)
    requires Balanced(s)
    requires g.start < g.end < |s| && s[g.start] == '(' && s[g.end] == ')'
    requires forall i :: g.start < i < g.end ==> IsAlnum(s[i])
    requires k <= |s| - 2
    ensures Depth(Unwrap(s, g)[..k]) >= 0
  {
    if k <= g.start {
      assert Unwrap(s, g)[..k] == s[..k];
      assert Depth(s[..k]) >= 0;
    } else if k < g.end {
      UnwrapPrefixInside(s, g, k);
      assert Depth(s[..g.start]) >= 0;
    } else {
      UnwrapPrefixAfter(s, g, k);
      assert Depth(s[..k + 2]) >= 0;
    }
  }

  /** Deleting the brackets of a group keeps a well-nested string well nested. */
  lemma UnwrapBalanced(s: string, g: Span)
    requires Balanced(s)
    requires g.start < g.end < |s| && s[g.start] == '(' && s[g.end] == ')'
    requires forall i :: g.start < i < g.end ==> IsAlnum(s[i])
    ensures Balanced(Unwrap(s, g))
  {
    var t := Unwrap(s, g);
    forall k | 0 <= k <= |t| ensures Depth(t[..k]) >= 0 {
      UnwrapPrefixDepth(s, g, k);
    }
    UnwrapPrefixAfter(s, g, |t|);
    assert t[..|t|] == t && s[..|t| + 2] == s;
  }

  lemma UnwrapTokenChars(s: string, g: Span)
    requires AllTokenChars(s) && g.start < g.end < |s|
    ensures AllTokenChars(Unwrap(s, g))
  {
    var t := Unwrap(s, g);
    forall i | 0 <= i < |t| ensures IsTokenChar(t[i]) {
      if i < g.start {
        assert t[i] == s[i];
      } else if i < g.end - 1 {
        assert t[i] == s[i + 1];
      } else {
        assert t[i] == s[i + 2];
      }
    }
  }

  /**
    * On well-nested brackets the loop means what the brackets suggest: it always
    * succeeds and removes all of them, leaving the other characters in order.
    */
  lemma {:induction false} BalancedFlattens(s: string)
    requires AllTokenChars(s) && Balanced(s)
    ensures Flattened(s) == Some(Strip(s))
    decreases |s|
  {
    if HasBothParens(s) {
      BalancedHasGroup(s);
      var g := SearchGroup(s, 0).value;
      var t := Unwrap(s, g);
      UnwrapBalanced(s, g);
      UnwrapKeepsOthers(s, g);
      UnwrapTokenChars(s, g);
      BalancedFlattens(t);
      assert Flattened(s) == Flattened(t);
    } else {
      OneKindOfBracket(s);
      StripWithoutParens(s);
    }
  }

  // ---------------------------------------------------------------------------
  // Mass: total_mass += Formula(compound).mass * coefficient
  // ---------------------------------------------------------------------------

  /** `molmass.Formula(compound).mass`, `None` where the package raises. */
  type MassTable = string -> Option<real>

  /** Every failure is reported alike, as "Invalid input." */
  datatype CalculationError = InvalidInput

  /** A mass table that never gives a negative mass, as a periodic table does not. */
  ghost predicate NonNegativeMasses(mass: MassTable)
  {
    forall f :: mass(f).Some? ==> mass(f).value >= 0.0
  }

  /** The weighted mass of one token: split the coefficient, flatten the compound, weigh it. */
  function ComponentMass(mass: MassTable, token: string): (r: Option<real>)
  {
    var c := SplitCoefficient(token);
    match Flattened(c.compound)
    case None => None
    case Some(flat) =>
      match mass(flat)
      case None => None
      case Some(m) => Some(Weighted(m, c.coefficient))
  }

  /** `f.mass * coefficient`. */
  function Weighted(m: real, coefficient: nat): real
  {
    m * coefficient as real
  }

  /**
    * The running total after the given tokens, added up left to right as `total_mass += ...`
    * does; the first token that cannot be weighed makes the whole sum fail.
    */
  function Total(mass: MassTable, tokens: seq<string>): (r: Result<real, CalculationError>)
    ensures tokens == [] ==> r == Success(0.0)
    decreases |tokens|
  {
    if tokens == [] then Success(0.0)
    else
      var sum := Total(mass, tokens[..|tokens| - 1]);
      if sum.Failure? then Failure(InvalidInput)
      else match ComponentMass(mass, tokens[|tokens| - 1])
        case None => Failure(InvalidInput)
        case Some(m) => Success(sum.value + m)
  }

  /** The molecular mass `calculate` reports for the input text. */
  function MolecularMass(mass: MassTable, input: string): (r: Result<real, CalculationError>)
    ensures input == [] ==> r == Success(0.0)
  {
    Total(mass, FindAll(input))
  }

  /** With a table that gives no negative mass, no input weighs less than nothing. */
  lemma {:induction false} TotalNonNegative(mass: MassTable, tokens: seq<string>)
    requires NonNegativeMasses(mass)
    ensures Total(mass, tokens).Success? ==> Total(mass, tokens).value >= 0.0
    decreases |tokens|
  {
    if tokens != [] {
      TotalNonNegative(mass, tokens[..|tokens| - 1]);
      ComponentMassNonNegative(mass, tokens[|tokens| - 1]);
    }
  }

  /** A component never weighs less than nothing when the table gives no negative mass. */
  lemma ComponentMassNonNegative(mass: MassTable, token: string)
    requires NonNegativeMasses(mass)
    ensures ComponentMass(mass, token).Some? ==> ComponentMass(mass, token).value >= 0.0
  {
    var c := SplitCoefficient(token);
    var flat := Flattened(c.compound);
    ComponentMassSteps(mass, token, flat);
    if flat.Some? && mass(flat.value).Some? {
      WeightedNonNegative(mass(flat.value).value, c.coefficient);
    }
  }

  /** A non-negative mass times a count is non-negative. */
  lemma WeightedNonNegative(m: real, coefficient: nat)
    requires m >= 0.0
    ensures Weighted(m, coefficient) >= 0.0
  {
  }

  /** The body of `calculate` up to the formatting: tokenize, then weigh and add up each component. */
  method Calculate(mass: MassTable, inputText: string) returns (r: Result<real, CalculationError>)
    ensures r == MolecularMass(mass, inputText)
  {
    var components := FindAll(inputText);
    r := AddUpComponents(mass, components);
  }

  /** The `for component in components` loop of `calculate`, accumulating `total_mass`. */
  method AddUpComponents(mass: MassTable, components: seq<string>) returns (r: Result<real, CalculationError>)
    ensures r == Total(mass, components)
  {
    var totalMass := 0.0;
    for k := 0 to |components|
      invariant Total(mass, components[..k]) == Success(totalMass)
    {
      var weighted := WeighComponent(mass, components[k]);
      TotalStep(mass, components, k);
      if weighted.None? {
        TotalFailureExtends(mass, components, k + 1);
        return Failure(InvalidInput);
      }
      totalMass := totalMass + weighted.value;
    }
    assert components[..|components|] == components;
    return Success(totalMass);
  }

  /** One more token: the running total grows by its weight, or the sum fails. */
  lemma TotalStep(mass: MassTable, tokens: seq<string>, k: nat)
    requires k < |tokens|
    ensures Total(mass, tokens[..k + 1]) ==
      if Total(mass, tokens[..k]).Failure? then Failure(InvalidInput)
      else match ComponentMass(mass, tokens[k])
        case None => Failure(InvalidInput)
        case Some(m) => Success(Total(mass, tokens[..k]).value + m)
  {
    assert tokens[..k + 1][..k] == tokens[..k];
  }

  /** Once the sum has failed, adding up more tokens cannot repair it. */
  lemma {:induction false} TotalFailureExtends(mass: MassTable, tokens: seq<string>, n: nat)
    requires n <= |tokens| && Total(mass, tokens[..n]).Failure?
    ensures Total(mass, tokens) == Failure(InvalidInput)
    decreases |tokens|
  {
    if n == |tokens| {
      assert tokens[..n] == tokens;
    } else {
      var init := tokens[..|tokens| - 1];
      assert init[..n] == tokens[..n];
      TotalFailureExtends(mass, init, n);
    }
  }

  /**
    * The body of the `for` loop for one component: split the coefficient, flatten the
    * compound, weigh it and multiply; `None` where the loop raises.
    */
  method WeighComponent(mass: MassTable, component: string) returns (weighted: Option<real>)
    ensures weighted == ComponentMass(mass, component)
  {
    var c := SplitCoefficient(component);
    var compound := Flatten(c.compound);
    ComponentMassSteps(mass, component, compound);
    if compound.None? {
      return None;
    }
    var m := mass(compound.value);
    if m.None? {
      return None;
    }
    return Some(Weighted(m.value, c.coefficient));
  }

  /** `ComponentMass` in the steps the loop takes: split, flatten, weigh. */
  lemma ComponentMassSteps(mass: MassTable, token: string, flat: Option<string>)
    requires flat == Flattened(SplitCoefficient(token).compound)
    ensures flat.None? ==> ComponentMass(mass, token).None?
    ensures flat.Some? && mass(flat.value).None? ==> ComponentMass(mass, token).None?
    ensures flat.Some? && mass(flat.value).Some? ==>
      ComponentMass(mass, token) == Some(Weighted(mass(flat.value).value, SplitCoefficient(token).coefficient))
  {
  }

  /** The sum succeeds exactly when every token flattens and has a mass. */
  lemma {:induction false} TotalSucceeds(mass: MassTable, tokens: seq<string>)
    ensures Total(mass, tokens).Success? <==> forall k :: 0 <= k < |tokens| ==> ComponentMass(mass, tokens[k]).Some?
    decreases |tokens|
  {
    if tokens != [] {
      var init, last := tokens[..|tokens| - 1], tokens[|tokens| - 1];
      TotalSucceeds(mass, init);
      assert Total(mass, tokens).Success? <==> Total(mass, init).Success? && ComponentMass(mass, last).Some?;
      if forall k :: 0 <= k < |init| ==> ComponentMass(mass, init[k]).Some? {
        forall k | 0 <= k < |tokens| - 1 ensures ComponentMass(mass, tokens[k]).Some? {
          assert tokens[k] == init[k];
        }
      } else {
        var k :| 0 <= k < |init| && ComponentMass(mass, init[k]).None?;
        assert tokens[k] == init[k];
      }
    }
  }

  /** A single token weighs what its component weighs. */
  lemma SingleTokenTotal(mass: MassTable, t: string, w: real)
    requires ComponentMass(mass, t) == Some(w)
    ensures Total(mass, [t]) == Success(w)
  {
    assert [t][..0] == [];
  }

  /** Input without any token, the empty string among them, weighs 0 rather than being refused. */
  lemma NoTokensWeighNothing(mass: MassTable, input: string)
    requires forall i :: 0 <= i < |input| ==> !IsLetter(input[i]) && input[i] != '('
    ensures MolecularMass(mass, input) == Success(0.0)
  {
    NoLetterNoSpans(input, 0);
  }

  /** Where no letter and no `(` follows `p`, the pattern matches nowhere from `p` on. */
  lemma {:induction false} NoLetterNoSpans(s: string, p: nat)
    requires p <= |s|
    requires forall i :: p <= i < |s| ==> !IsLetter(s[i]) && s[i] != '('
    ensures TokenSpans(s, p) == []
    decreases |s| - p
  {
    if p < |s| {
      TokenSpansStep(s, p);
      NoLetterNoSpans(s, p + 1);
    }
  }

  /** A decimal count in front of a compound of letters and digits starting with a letter is one whole token. */
  lemma CountedCompoundIsToken(n: nat, compound: string)
    requires |compound| > 0 && IsLetter(compound[0])
    requires forall i :: 0 <= i < |compound| ==> IsAlnum(compound[i])
    ensures IsToken(Decimal(n) + compound)
  {
    var d := Decimal(n);
    var t := d + compound;
    RunEndUnique(t, 0, |d|, IsDigit);
    forall i | 0 <= i < |t| ensures IsTokenChar(t[i]) {
      if i < |d| {
        assert t[i] == d[i];
      } else {
        assert t[i] == compound[i - |d|];
      }
    }
    assert t[|d|] == compound[0];
  }

  /** "N·X": a formula written as a count in front of a flat compound weighs the count times the compound. */
  lemma CountedCompound(mass: MassTable, n: nat, compound: string, m: real)
    requires |compound| > 0 && IsLetter(compound[0])
    requires forall i :: 0 <= i < |compound| ==> IsAlnum(compound[i])
    requires mass(compound) == Some(m)
    ensures MolecularMass(mass, Decimal(n) + compound) == Success(Weighted(m, n))
  {
    var t := Decimal(n) + compound;
    assert NoNewline(compound);
    DecimalCoefficientRoundTrip(n, compound);
    CountedCompoundIsToken(n, compound);
    SingleToken(t);
    assert Flattened(compound) == Some(compound);
    assert ComponentMass(mass, t) == Some(Weighted(m, n));
    SingleTokenTotal(mass, t, Weighted(m, n));
  }

  /** A plain formula without a count, such as "Fe" or "H2O", weighs what `molmass` gives for it. */
  lemma PlainCompound(mass: MassTable, compound: string, m: real)
    requires |compound| > 0 && IsLetter(compound[0])
    requires forall i :: 0 <= i < |compound| ==> IsAlnum(compound[i])
    requires mass(compound) == Some(m)
    ensures MolecularMass(mass, compound) == Success(m)
  {
    assert RunEnd(compound, 0, IsDigit) == 0;
    assert AllTokenChars(compound);
    SingleToken(compound);
    assert SplitCoefficient(compound) == Component(1, compound);
    assert Flattened(compound) == Some(compound);
    assert ComponentMass(mass, compound) == Some(Weighted(m, 1));
    SingleTokenTotal(mass, compound, Weighted(m, 1));
  }

  /** "Ca(OH)2" flattens to "CaOH2": the group's brackets go and its trailing 2 stays where it was. */
  lemma CalciumHydroxideFlattened()
    ensures Flattened("Ca(OH)2") == Some("CaOH2")
  {
    CalciumHydroxideGroup();
    assert Unwrap("Ca(OH)2", Span(2, 5)) == "CaOH2";
    assert !HasBothParens("CaOH2");
  }

  /** In "Ca(OH)2" the search finds the group "(OH)", brackets at indices 2 and 5. */
  lemma CalciumHydroxideGroup()
    ensures SearchGroup("Ca(OH)2", 0) == Some(Span(2, 5))
  {
    var s := "Ca(OH)2";
    RunEndUnique(s, 3, 5, IsAlnum);
    assert GroupAt(s, 2);
    assert !GroupAt(s, 0) && !GroupAt(s, 1);
  }

  /** ")(": both brackets but no group, so the loop's search finds nothing and the input is refused. */
  lemma ReversedBracketsRefused()
    ensures Flattened(")(") == None
  {
    assert !GroupAt(")(", 0) && !GroupAt(")(", 1);
  }

  /** End to end, "Ca(OH)2" weighs what the mass table gives for "CaOH2", once. */
  lemma CalciumHydroxideMass(mass: MassTable, m: real)
    requires mass("CaOH2") == Some(m)
    ensures MolecularMass(mass, "Ca(OH)2") == Success(m)
  {
    var s := "Ca(OH)2";
    assert RunEnd(s, 0, IsDigit) == 0;
    assert AllTokenChars(s);
    SingleToken(s);
    assert SplitCoefficient(s) == Component(1, s);
    CalciumHydroxideFlattened();
    assert ComponentMass(mass, s) == Some(Weighted(m, 1));
    SingleTokenTotal(mass, s, Weighted(m, 1));
  }
}
