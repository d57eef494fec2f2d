/**
  * The periodic-table lookup and the element-pair splitter (`get_electronegativity` and
  * `split_elements`). The table itself belongs to the `molmass` package and is not part of
  * this model: it is a parameter, a total map from a capitalised symbol to its
  * electronegativity, `None` when the symbol is unknown or has no electronegativity.
  */
module Elements {
  import opened Wrappers
  import opened Text

  /** `elements.ELEMENTS[symbol].eleneg`, with `None` for a missing key or a missing value. */
  type ElementTable = string -> Option<real>

  /** `get_electronegativity(symbol)`: the lookup is made with the capitalised symbol. */
  function Electronegativity(table: ElementTable, symbol: string): (en: Option<real>)
  {
    table(Capitalize(symbol))
  }

  /** The splitter's test `get_electronegativity(symbol) is not None`. */
  predicate IsElement(table: ElementTable, symbol: string)
  {
    Electronegativity(table, symbol).Some?
  }

  /** The lookup does not depend on the case of the letters it is given. */
  lemma ElectronegativityIgnoresCase(table: ElementTable, s: string, t: string)
    requires SameIgnoringCase(s, t)
    ensures Electronegativity(table, s) == Electronegativity(table, t)
  {
    CapitalizeIgnoresCase(s, t);
  }

  /**
    * A symbol already in capitalised form is looked up as written, and capitalising a
    * symbol first changes nothing: the table is only ever consulted in canonical form.
    */
  lemma ElectronegativityCanonical(table: ElementTable, s: string)
    ensures IsCapitalized(s) ==> Electronegativity(table, s) == table(s)
    ensures Electronegativity(table, Capitalize(s)) == Electronegativity(table, s)
  {
    CapitalizeFixesCapitalized(s);
    CapitalizeIdempotent(s);
  }

  /** The symbol tried at index `i` with width 1 or 2: `compound[i:i+w].capitalize()`. */
  function Candidate(s: string, i: nat, w: nat): (c: string)
    requires i + w <= |s|
    ensures |c| == w
  {
    Capitalize(s[i..i + w])
  }

  /** Whether the two-character candidate at `i` is taken (the first test of the loop). */
  predicate PairMatches(table: ElementTable, s: string, i: nat)
  {
    i + 1 < |s| && IsElement(table, Candidate(s, i, 2))
  }

  /** The symbols the scanning loop of `split_elements` collects from index `i` on. */
  function Scan(table: ElementTable, s: string, i: nat): (r: seq<string>)
    requires i <= |s|
    ensures |r| <= |s| - i
    decreases |s| - i
  {
    if i == |s| then []
    else if PairMatches(table, s, i) then [Candidate(s, i, 2)] + Scan(table, s, i + 2)
    else if IsElement(table, Candidate(s, i, 1)) then [Candidate(s, i, 1)] + Scan(table, s, i + 1)
    else Scan(table, s, i + 1)
  }

  /** `split_elements(compound)`: the scan, then the override of a two-character input that gave one symbol. */
  function Symbols(table: ElementTable, s: string): (r: seq<string>)
    ensures |s| != 2 ==> r == Scan(table, s, 0)
    ensures |s| == 2 ==> |r| != 1
  {
    var scanned := Scan(table, s, 0);
    if |s| == 2 && |scanned| == 1 then [Candidate(s, 0, 1), Candidate(s, 1, 1)] else scanned
  }

  /** The loop of `split_elements`, index by index, with the final override. */
  method SplitElements(table: ElementTable, compound: string) returns (elements: seq<string>)
    ensures elements == Symbols(table, compound)
  {
    elements := [];
    var i := 0;
    while i < |compound|
      invariant 0 <= i <= |compound|
      invariant elements + Scan(table, compound, i) == Scan(table, compound, 0)
    {
      ScanStep(table, compound, i);
      if i + 1 < |compound| {
        var symbol := Capitalize(compound[i..i + 2]);
        if Electronegativity(table, symbol).Some? {
          AppendOne(elements, symbol, Scan(table, compound, i + 2));
          elements := elements + [symbol];
          i := i + 2;
          continue;
        }
      }
      var symbol := Capitalize(compound[i..i + 1]);
      if Electronegativity(table, symbol).Some? {
        AppendOne(elements, symbol, Scan(table, compound, i + 1));
        elements := elements + [symbol];
      }
      i := i + 1;
    }
    if |compound| == 2 && |elements| == 1 {
      elements := [Capitalize(compound[0..1]), Capitalize(compound[1..2])];
    }
  }

  /** Moving one symbol from the unscanned rest to the collected list. */
  lemma AppendOne(elements: seq<string>, symbol: string, rest: seq<string>)
    ensures (elements + [symbol]) + rest == elements + ([symbol] + rest)
  {
  }

  /** Every symbol the scan collects is a capitalised one- or two-character symbol that the table knows. */
  lemma {:induction false} ScanSymbolsAreElements(table: ElementTable, s: string, i: nat)
    requires i <= |s|
    ensures |Scan(table, s, i)| <= |s| - i
    ensures forall k :: 0 <= k < |Scan(table, s, i)| ==>
      var sym := Scan(table, s, i)[k];
      (|sym| == 1 || |sym| == 2) && Capitalize(sym) == sym && table(sym).Some?
    decreases |s| - i
  {
    if i < |s| {
      if PairMatches(table, s, i) {
        ScanSymbolsAreElements(table, s, i + 2);
        CapitalizeIdempotent(s[i..i + 2]);
      } else {
        ScanSymbolsAreElements(table, s, i + 1);
        CapitalizeIdempotent(s[i..i + 1]);
      }
    }
  }

  /** The index of the slice behind each symbol of `Scan(table, s, i)`. */
  function ScanStarts(table: ElementTable, s: string, i: nat): (starts: seq<nat>)
    requires i <= |s|
    ensures |starts| == |Scan(table, s, i)|
    decreases |s| - i
  {
    if i == |s| then []
    else if PairMatches(table, s, i) then [i] + ScanStarts(table, s, i + 2)
    else if IsElement(table, Candidate(s, i, 1)) then [i] + ScanStarts(table, s, i + 1)
    else ScanStarts(table, s, i + 1)
  }

  /** Whether index `j` lies inside the slice of one of the symbols scanned from `i`. */
  predicate Covered(table: ElementTable, s: string, i: nat, j: int)
    requires i <= |s|
  {
    SliceCovers(Scan(table, s, i), ScanStarts(table, s, i), j)
  }

  /** Whether index `j` lies inside the slice of one of the symbols, the `k`-th starting at `starts[k]`. */
  predicate SliceCovers(r: seq<string>, starts: seq<nat>, j: int)
    requires |r| == |starts|
  {
    exists k :: 0 <= k < |r| && starts[k] <= j < starts[k] + |r[k]|
  }

  /** An index no slice covers lies outside the first slice and inside none of the rest. */
  lemma UncoveredCons(sym: string, r: seq<string>, i: nat, starts: seq<nat>, j: int)
    requires |r| == |starts|
    requires !SliceCovers([sym] + r, [i] + starts, j)
    ensures !(i <= j < i + |sym|) && !SliceCovers(r, starts, j)
  {
    assert ([sym] + r)[0] == sym && ([i] + starts)[0] == i;
    forall k | 0 <= k < |r| ensures !(starts[k] <= j < starts[k] + |r[k]|) {
      assert ([sym] + r)[k + 1] == r[k] && ([i] + starts)[k + 1] == starts[k];
    }
  }

  /** `sym` is the symbol the loop takes at index `start`: a capitalised one- or two-character slice, one character only where the pair was refused. */
  predicate TakenAt(table: ElementTable, s: string, sym: string, start: nat)
  {
    (|sym| == 1 || |sym| == 2) && start + |sym| <= |s| &&
    sym == Candidate(s, start, |sym|) &&
    (|sym| == 1 ==> !PairMatches(table, s, start))
  }

  /** Scanning from `i` takes a symbol at `i` exactly when the pair or the single character there is an element. */
  lemma ScanStep(table: ElementTable, s: string, i: nat)
    requires i < |s|
    ensures var w := if PairMatches(table, s, i) then 2 else 1;
      if PairMatches(table, s, i) || IsElement(table, Candidate(s, i, 1)) then
        Scan(table, s, i) == [Candidate(s, i, w)] + Scan(table, s, i + w) &&
        ScanStarts(table, s, i) == [i] + ScanStarts(table, s, i + w)
      else
        Scan(table, s, i) == Scan(table, s, i + 1) && ScanStarts(table, s, i) == ScanStarts(table, s, i + 1)
  {
  }

  /** Prepending a symbol taken at `i` to symbols all taken after `i`. */
  lemma TakenAtCons(table: ElementTable, s: string, i: nat, sym: string, r: seq<string>, starts: seq<nat>)
    requires |r| == |starts| && TakenAt(table, s, sym, i)
    requires forall k :: 0 <= k < |r| ==> i < starts[k] && TakenAt(table, s, r[k], starts[k])
    ensures forall k :: 0 <= k < |r| + 1 ==> i <= ([i] + starts)[k] && TakenAt(table, s, ([sym] + r)[k], ([i] + starts)[k])
  {
    forall k | 0 <= k < |r| + 1 ensures i <= ([i] + starts)[k] && TakenAt(table, s, ([sym] + r)[k], ([i] + starts)[k]) {
      if k > 0 {
        assert ([sym] + r)[k] == r[k - 1] && ([i] + starts)[k] == starts[k - 1];
      }
    }
  }

  /** Symbol `k` of the scan is the one taken at index `starts[k]`, at or after `i`. */
  lemma {:induction false} ScanTakenAt(table: ElementTable, s: string, i: nat)
    requires i <= |s|
    ensures forall k :: 0 <= k < |Scan(table, s, i)| ==>
      i <= ScanStarts(table, s, i)[k] && TakenAt(table, s, Scan(table, s, i)[k], ScanStarts(table, s, i)[k])
    decreases |s| - i
  {
    if i < |s| {
      ScanStep(table, s, i);
      if PairMatches(table, s, i) {
        ScanTakenAt(table, s, i + 2);
        TakenAtCons(table, s, i, Candidate(s, i, 2), Scan(table, s, i + 2), ScanStarts(table, s, i + 2));
      } else if IsElement(table, Candidate(s, i, 1)) {
        ScanTakenAt(table, s, i + 1);
        TakenAtCons(table, s, i, Candidate(s, i, 1), Scan(table, s, i + 1), ScanStarts(table, s, i + 1));
      } else {
        ScanTakenAt(table, s, i + 1);
      }
    }
  }

  /** The slices behind the symbols lie left to right without overlapping. */
  lemma {:induction false} ScanInOrder(table: ElementTable, s: string, i: nat)
    requires i <= |s|
    ensures forall k :: 0 <= k < |Scan(table, s, i)| - 1 ==>
      ScanStarts(table, s, i)[k] + |Scan(table, s, i)[k]| <= ScanStarts(table, s, i)[k + 1]
    decreases |s| - i
  {
    if i < |s| {
      var w := if PairMatches(table, s, i) then 2 else 1;
      ScanInOrder(table, s, i + w);
      ScanTakenAt(table, s, i + w);
      ScanStep(table, s, i);
      var r, starts := Scan(table, s, i), ScanStarts(table, s, i);
      var r', starts' := Scan(table, s, i + w), ScanStarts(table, s, i + w);
      if PairMatches(table, s, i) || IsElement(table, Candidate(s, i, 1)) {
        forall k | 0 <= k < |r| - 1 ensures starts[k] + |r[k]| <= starts[k + 1] {
          if k > 0 {
            assert starts[k] == starts'[k - 1] && r[k] == r'[k - 1] && starts[k + 1] == starts'[k];
          } else {
            assert i + w <= starts'[0];
          }
        }
      }
    }
  }

  /** An index not covered by the symbols from `i` on lies past the symbol taken at `i`, and is not covered by the later ones either. */
  lemma UncoveredPastSymbol(table: ElementTable, s: string, i: nat, j: nat, w: nat)
    requires i <= j < |s|
    requires (w == 2 && PairMatches(table, s, i)) ||
      (w == 1 && !PairMatches(table, s, i) && IsElement(table, Candidate(s, i, 1)))
    requires !Covered(table, s, i, j)
    ensures i + w <= j && !Covered(table, s, i + w, j)
  {
    ScanStep(table, s, i);
    UncoveredCons(Candidate(s, i, w), Scan(table, s, i + w), i, ScanStarts(table, s, i + w), j);
  }

  /** Characters are skipped silently, and only those: an index no symbol covers starts no symbol. */
  lemma {:induction false} ScanSkipsOnlyNonElements(table: ElementTable, s: string, i: nat, j: nat)
    requires i <= j < |s|
    requires !Covered(table, s, i, j)
    ensures !PairMatches(table, s, j) && !IsElement(table, Candidate(s, j, 1))
    decreases |s| - i
  {
    if PairMatches(table, s, i) {
      UncoveredPastSymbol(table, s, i, j, 2);
      ScanSkipsOnlyNonElements(table, s, i + 2, j);
    } else if IsElement(table, Candidate(s, i, 1)) {
      UncoveredPastSymbol(table, s, i, j, 1);
      ScanSkipsOnlyNonElements(table, s, i + 1, j);
    } else if j > i {
      ScanStep(table, s, i);
      ScanSkipsOnlyNonElements(table, s, i + 1, j);
    }
  }

  /**
    * A two-character input never ends with a single symbol: it gives either no symbol,
    * when neither the pair nor either character is an element, or the two capitalised
    * characters, whether or not they are elements ("He" gives "H" and "E").
    */
  lemma TwoCharacterInput(table: ElementTable, s: string)
    requires |s| == 2
    ensures Symbols(table, s) == [] || Symbols(table, s) == [Candidate(s, 0, 1), Candidate(s, 1, 1)]
    ensures Symbols(table, s) == [] <==>
      !IsElement(table, Candidate(s, 0, 2)) && !IsElement(table, Candidate(s, 0, 1)) && !IsElement(table, Candidate(s, 1, 1))
  {
    assert Scan(table, s, 2) == [];
    if !PairMatches(table, s, 0) {
      assert Scan(table, s, 1) == if IsElement(table, Candidate(s, 1, 1)) then [Candidate(s, 1, 1)] else [];
    }
  }

  /** Outside the two-character special case, every resulting symbol is a known element in canonical form. */
  lemma SymbolsAreElements(table: ElementTable, s: string)
    requires |s| != 2
    ensures |Symbols(table, s)| <= |s|
    ensures forall sym :: sym in Symbols(table, s) ==>
      (|sym| == 1 || |sym| == 2) && Capitalize(sym) == sym && table(sym).Some?
  {
    ScanSymbolsAreElements(table, s, 0);
  }
}
