/**
  * The electronegativity-difference screen (`SecondScreen.get_electronegativity_difference`)
  * without its widgets: split the pair text, look up both electronegativities, and classify
  * the absolute difference. Differences are exact reals here; the source computes them in
  * floating point.
  */
module Bond {
  import opened Wrappers
  import opened Text
  import opened Elements

  datatype BondType = NonPolarCovalent | PolarCovalent | Ionic

  /** The two ways the screen refuses its input. */
  datatype PairError =
    | WrongSymbolCount   // "Invalid input.": the splitter did not find exactly two symbols
    | MissingElectronegativity   // "Invalid Input": a ValueError for a symbol without electronegativity

  /** What the screen reports on success. */
  datatype BondReport = BondReport(symbol1: string, symbol2: string, en1: real, en2: real, difference: real, bond: BondType)

  /** `abs(en1 - en2)`. */
  function Difference(en1: real, en2: real): (d: real)
    ensures d >= 0.0
    ensures d == en1 - en2 || d == en2 - en1
  {
    if en1 >= en2 then en1 - en2 else en2 - en1
  }

  /** The `if`/`elif`/`else` on the difference, with strict thresholds 0.4 and 1.7. */
  function Classify(d: real): (b: BondType)
    ensures b == NonPolarCovalent <==> d < 0.4
    ensures b == PolarCovalent <==> 0.4 <= d < 1.7
    ensures b == Ionic <==> d >= 1.7
  {
    if d < 0.4 then NonPolarCovalent
    else if d < 1.7 then PolarCovalent
    else Ionic
  }

  /** The difference does not depend on the order of the two elements. */
  lemma DifferenceSymmetric(en1: real, en2: real)
    ensures Difference(en1, en2) == Difference(en2, en1)
    ensures Difference(en1, en2) == 0.0 <==> en1 == en2
  {
  }

  /** Position of a bond type on the scale from non-polar to ionic. */
  function Polarity(b: BondType): nat
  {
    match b
    case NonPolarCovalent => 0
    case PolarCovalent => 1
    case Ionic => 2
  }

  /** A larger difference never gives a less polar bond type. */
  lemma ClassifyMonotone(d1: real, d2: real)
    requires d1 <= d2
    ensures Polarity(Classify(d1)) <= Polarity(Classify(d2))
  {
  }

  /** `get_electronegativity_difference` on the input text, up to the message formatting. */
  function EvaluatePair(table: ElementTable, text: string): (r: Result<BondReport, PairError>)
    ensures r.Success? ==>
      r.value.difference == Difference(r.value.en1, r.value.en2) &&
      r.value.difference >= 0.0 &&
      r.value.bond == Classify(r.value.difference) &&
      Symbols(table, text) == [r.value.symbol1, r.value.symbol2] &&
      Electronegativity(table, r.value.symbol1) == Some(r.value.en1) &&
      Electronegativity(table, r.value.symbol2) == Some(r.value.en2)
  {
    var elements := Symbols(table, text);
    if |elements| != 2 then Failure(WrongSymbolCount)
    else
      var en1, en2 := Electronegativity(table, elements[0]), Electronegativity(table, elements[1]);
      if en1.None? || en2.None? then Failure(MissingElectronegativity)
      else
        var d := Difference(en1.value, en2.value);
        Success(BondReport(elements[0], elements[1], en1.value, en2.value, d, Classify(d)))
  }

  /**
    * The screen answers exactly when the splitter finds two symbols and both have an
    * electronegativity; it refuses with the count error first, then with the missing value.
    */
  lemma EvaluatePairSucceeds(table: ElementTable, text: string)
    ensures var symbols := Symbols(table, text);
      EvaluatePair(table, text).Success? <==>
        |symbols| == 2 && IsElement(table, symbols[0]) && IsElement(table, symbols[1])
    ensures EvaluatePair(table, text) == Failure(WrongSymbolCount) <==> |Symbols(table, text)| != 2
  {
  }

  /**
    * Swapping the two characters of a two-character input swaps the symbols and changes
    * neither whether the screen answers nor the difference and bond type it reports.
    */
  lemma SwappedPair(table: ElementTable, text: string)
    requires |text| == 2
    ensures var swapped := [text[1], text[0]];
      EvaluatePair(table, text).Success? == EvaluatePair(table, swapped).Success? &&
      (EvaluatePair(table, text).Success? ==>
        EvaluatePair(table, swapped).value.difference == EvaluatePair(table, text).value.difference &&
        EvaluatePair(table, swapped).value.bond == EvaluatePair(table, text).value.bond)
  {
    var swapped := [text[1], text[0]];
    TwoCharacterInput(table, text);
    TwoCharacterInput(table, swapped);
    assert swapped[0..1] == text[1..2] && swapped[1..2] == text[0..1];
    if EvaluatePair(table, text).Success? {
      assert Symbols(table, text) == [Candidate(text, 0, 1), Candidate(text, 1, 1)];
      assert Symbols(table, swapped) == [Candidate(swapped, 0, 1), Candidate(swapped, 1, 1)];
    }
  }

  /**
    * "HO": whatever the table says of "Ho", the screen reports hydrogen and oxygen,
    * |2.2 - 3.4| = 1.2, a polar covalent bond.
    */
  lemma HydrogenOxygen(table: ElementTable)
    requires table("H") == Some(2.2) && table("O") == Some(3.4)
    ensures EvaluatePair(table, "HO") == Success(BondReport("H", "O", 2.2, 3.4, 1.2, PolarCovalent))
  {
    TwoCharacterInput(table, "HO");
    assert Candidate("HO", 0, 1) == "H" && Candidate("HO", 1, 1) == "O";
    assert Symbols(table, "HO") == ["H", "O"];
    assert Capitalize("H") == "H" && Capitalize("O") == "O";
  }

  /** "He": a two-letter element typed as a pair is read as "H" and "E"; with no element "E" the screen refuses. */
  lemma HeliumIsSplit(table: ElementTable)
    requires table("He").Some? && table("E").None?
    ensures Symbols(table, "He") == ["H", "E"]
    ensures EvaluatePair(table, "He") == Failure(MissingElectronegativity)
  {
    TwoCharacterInput(table, "He");
    assert "He"[0..2] == "He" && "He"[0..1] == "H" && "He"[1..2] == "e";
    assert Lower("e") == "e" && Lower([]) == [];
    assert Capitalize("He") == "He";
    assert Candidate("He", 0, 2) == "He";
    assert IsElement(table, "He");
    assert Candidate("He", 0, 1) == "H" && Candidate("He", 1, 1) == "E";
    assert Capitalize("E") == "E";
  }
}
