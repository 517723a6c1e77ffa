/**
 * The unit converter's screen: the state its widgets hold (the two unit
 * drop-downs, the numeric input field, the result field and the two symbol
 * labels) and the callbacks that update it. The input field's text watcher is
 * modelled with its re-entrancy: a `setText` from inside a callback notifies the
 * watcher again before the outer callback returns.
 */
module ConverterScreen {
  import opened Wrappers
  import opened JavaStrings
  import opened Sequences
  import opened UnitConversion

  /**
   * `conversionRates.keySet().toArray(new String[0])`: the keys of the table in
   * the order the hash map yields them, which the model leaves unspecified.
   */
  method KeysInSomeOrder(m: map<string, real>) returns (units: seq<string>)
    ensures |units| == |m.Keys|
    ensures forall i :: 0 <= i < |units| ==> units[i] in m
    ensures forall u :: u in m ==> u in units
    ensures forall i, j :: 0 <= i < j < |units| ==> units[i] != units[j]
  {
    var remaining := m.Keys;
    units := [];
    while remaining != {}
      invariant remaining <= m.Keys
      invariant forall u :: u in m ==> u in remaining || u in units
      invariant forall i :: 0 <= i < |units| ==> units[i] in m && units[i] !in remaining
      invariant forall i, j :: 0 <= i < j < |units| ==> units[i] != units[j]
      invariant |units| + |remaining| == |m.Keys|
      decreases |remaining|
    {
      var u :| u in remaining;
      units := units + [u];
      remaining := remaining - {u};
    }
  }

  /** The symbol label's text for a unit: `setText(unitSymbols.get(unit))`, where null shows as empty. */
  function SymbolOf(symbols: map<string, string>, unit: string): string
  {
    if unit in symbols then symbols[unit] else ""
  }

  /** A `put` after a merge is a merge with the updated map. */
  lemma MergeUpdate<V>(m: map<string, V>, r: map<string, V>, k: string, v: V)
    ensures (m + r)[k := v] == m + r[k := v]
  {
  }

  lemma MergeEmpty<V>(r: map<string, V>)
    ensures map[] + r == r
  {
  }

  /**
   * The tables agree with the drop-downs: every unit has a positive rate and a
   * symbol, and the drop-downs offer each unit of the table exactly once.
   */
  ghost predicate TablesAgree(rates: map<string, real>, symbols: map<string, string>, units: seq<string>)
  {
    && PositiveRates(rates)
    && symbols.Keys == rates.Keys
    && OffersEachOnce(units, rates)
  }

  /** The drop-down offers each unit of the table exactly once, and nothing else. */
  ghost predicate OffersEachOnce(units: seq<string>, rates: map<string, real>)
  {
    && (forall i, j :: 0 <= i < j < |units| ==> units[i] != units[j])
    && (forall i :: 0 <= i < |units| ==> units[i] in rates)
    && (forall u :: u in rates ==> u in units)
  }

  /** What `onCreate` leaves behind satisfies the screen's invariant. */
  lemma InitialScreenFacts()
    ensures PositiveRates(LengthRates())
    ensures LengthSymbols().Keys == LengthRates().Keys
    ensures SymbolOf(LengthSymbols(), DefaultFromUnit) == "m"
    ensures SymbolOf(LengthSymbols(), DefaultToUnit) == "cm"
    ensures Normalize("") == ""
  {
    TableUnits();
    DefaultUnitsInTable();
    NormalizeEmpty();
  }

  class ConverterActivity {
    /** The two tables of `setupConversionRates`. */
    var conversionRates: map<string, real>
    var unitSymbols: map<string, string>
    /** The units the drop-downs offer, by position. */
    var units: seq<string>
    /** The text of the numeric input field, and the position of its cursor. */
    var inputText: string
    var selection: int
    /** What the result field shows. */
    var result: Display
    /** The texts of the two unit drop-downs and of the two symbol labels. */
    var fromUnit: string
    var toUnit: string
    var fromSymbol: string
    var toSymbol: string

    /**
     * Every unit has a positive rate and a symbol, the drop-downs offer exactly
     * the table's units, and the input field always holds a text of digits,
     * '-' and at most one '.' (a normalised text: `NormalizeOfClean`) with its
     * cursor inside it.
     */
    ghost predicate Valid()
      reads this`conversionRates, this`unitSymbols, this`units, this`inputText, this`selection
    {
      && TablesAgree(conversionRates, unitSymbols, units)
      && IsClean(inputText) && DotCount(inputText) <= 1
      && 0 <= selection <= |inputText|
    }

    /**
     * `onCreate`: builds the tables, fills the drop-downs and selects meters and
     * centimeters; the input and result fields start empty.
     */
    constructor ()
      ensures Valid()
      ensures conversionRates == LengthRates() && unitSymbols == LengthSymbols()
      ensures inputText == "" && result == Blank
      ensures fromUnit == DefaultFromUnit && toUnit == DefaultToUnit
      ensures fromSymbol == "m" && toSymbol == "cm"
    {
      conversionRates := map[];
      unitSymbols := map[];
      units := [];
      inputText := "";
      selection := 0;
      result := Blank;
      fromUnit := "";
      toUnit := "";
      fromSymbol := "";
      toSymbol := "";
      new;
      SetupConversionRates();
      assert conversionRates == LengthRates() && unitSymbols == LengthSymbols() by {
        MergeEmpty(LengthRates());
        MergeEmpty(LengthSymbols());
      }
      assert PositiveRates(conversionRates) && unitSymbols.Keys == conversionRates.Keys by {
        InitialScreenFacts();
      }
      SetupUnitSelectors();
      assert fromSymbol == "m" && toSymbol == "cm" by { InitialScreenFacts(); }
      assert IsClean(inputText) && DotCount(inputText) <= 1 by { CountZero(inputText, '.'); }
    }

    /** `setupConversionRates`: one `put` per unit into each table. */
    method SetupConversionRates()
      modifies this`conversionRates, this`unitSymbols
      ensures conversionRates == old(conversionRates) + LengthRates()
      ensures unitSymbols == old(unitSymbols) + LengthSymbols()
    {
      ghost var rates0, symbols0 := conversionRates, unitSymbols;
      assert rates0 == rates0 + map[] && symbols0 == symbols0 + map[];
      conversionRates := conversionRates[Meters := 1.0];
      MergeUpdate(rates0, map[], Meters, 1.0);
      conversionRates := conversionRates[Centimeters := 100.0];
      MergeUpdate(rates0, map[Meters := 1.0], Centimeters, 100.0);
      conversionRates := conversionRates[Feet := 3.28084];
      MergeUpdate(rates0, map[Meters := 1.0, Centimeters := 100.0], Feet, 3.28084);
      conversionRates := conversionRates[Inches := 39.3701];
      MergeUpdate(rates0, map[Meters := 1.0, Centimeters := 100.0, Feet := 3.28084], Inches, 39.3701);
      conversionRates := conversionRates[Yards := 1.09361];
      MergeUpdate(rates0, map[Meters := 1.0, Centimeters := 100.0, Feet := 3.28084, Inches := 39.3701], Yards, 1.09361);

      unitSymbols := unitSymbols[Meters := "m"];
      MergeUpdate(symbols0, map[], Meters, "m");
      unitSymbols := unitSymbols[Centimeters := "cm"];
      MergeUpdate(symbols0, map[Meters := "m"], Centimeters, "cm");
      unitSymbols := unitSymbols[Feet := "ft"];
      MergeUpdate(symbols0, map[Meters := "m", Centimeters := "cm"], Feet, "ft");
      unitSymbols := unitSymbols[Inches := "in"];
      MergeUpdate(symbols0, map[Meters := "m", Centimeters := "cm", Feet := "ft"], Inches, "in");
      unitSymbols := unitSymbols[Yards := "yd"];
      MergeUpdate(symbols0, map[Meters := "m", Centimeters := "cm", Feet := "ft", Inches := "in"], Yards, "yd");
    }

    /**
     * `setupUnitSelectors`: the drop-downs offer the table's units, meters and
     * centimeters are selected, and the labels show their symbols.
     */
    method SetupUnitSelectors()
      requires PositiveRates(conversionRates) && unitSymbols.Keys == conversionRates.Keys
      modifies this`units, this`fromUnit, this`toUnit, this`fromSymbol, this`toSymbol
      ensures TablesAgree(conversionRates, unitSymbols, units)
      ensures fromUnit == DefaultFromUnit && toUnit == DefaultToUnit
      ensures fromSymbol == SymbolOf(unitSymbols, DefaultFromUnit)
      ensures toSymbol == SymbolOf(unitSymbols, DefaultToUnit)
    {
      units := KeysInSomeOrder(conversionRates);
      fromUnit := DefaultFromUnit;
      toUnit := DefaultToUnit;
      fromSymbol := SymbolOf(unitSymbols, fromUnit);
      toSymbol := SymbolOf(unitSymbols, toUnit);
    }

    /**
     * The item-click listener of the first drop-down: selects the unit at
     * `position`, shows its symbol when it has one, and converts again.
     */
    method SelectFromUnit(position: nat)
      requires Valid() && position < |units|
      modifies this`fromUnit, this`fromSymbol, this`result
      ensures Valid()
      ensures fromUnit == units[position] && fromUnit in conversionRates
      ensures fromSymbol == unitSymbols[fromUnit]
      ensures result == UnitConversion.Convert(inputText, fromUnit, toUnit, conversionRates)
    {
      var selectedUnit := units[position];
      fromUnit := selectedUnit;
      if selectedUnit in unitSymbols {
        fromSymbol := unitSymbols[selectedUnit];
      }
      Convert();
    }

    /** The item-click listener of the second drop-down. */
    method SelectToUnit(position: nat)
      requires Valid() && position < |units|
      modifies this`toUnit, this`toSymbol, this`result
      ensures Valid()
      ensures toUnit == units[position] && toUnit in conversionRates
      ensures toSymbol == unitSymbols[toUnit]
      ensures result == UnitConversion.Convert(inputText, fromUnit, toUnit, conversionRates)
    {
      var selectedUnit := units[position];
      toUnit := selectedUnit;
      if selectedUnit in unitSymbols {
        toSymbol := unitSymbols[selectedUnit];
      }
      Convert();
    }

    /**
     * Typing into a drop-down's own text field: it changes the unit name
     * `convert()` reads, without a listener and without a new conversion.
     */
    method TypeFromUnit(name: string)
      requires Valid()
      modifies this`fromUnit
      ensures Valid() && fromUnit == name
    {
      fromUnit := name;
    }

    method TypeToUnit(name: string)
      requires Valid()
      modifies this`toUnit
      ensures Valid() && toUnit == name
    {
      toUnit := name;
    }

    /** The input field's focus listener: gaining focus clears the result field. */
    method FocusChanged(hasFocus: bool)
      requires Valid()
      modifies this`result
      ensures Valid()
      ensures hasFocus ==> result == Blank
      ensures !hasFocus ==> result == old(result)
    {
      if hasFocus {
        result := Blank;
      }
    }

    /**
     * `convert()`: reads the trimmed input, clears the result for partial input,
     * for text `parseDouble` rejects and for a unit the table lacks, and
     * otherwise shows the value converted through meters.
     */
    method Convert()
      requires PositiveRates(conversionRates)
      modifies this`result
      ensures result == UnitConversion.Convert(inputText, fromUnit, toUnit, conversionRates)
    {
      var valueStr := Trim(inputText);
      if IsPartialInput(valueStr) {
        result := Blank;
        return;
      }
      var value := ParseDecimal(valueStr);
      if value.None? {
        // the NumberFormatException handler
        result := Blank;
        return;
      }
      // the two rate lookups, their null check and the arithmetic through meters
      var converted := ConvertValue(value.value, fromUnit, toUnit, conversionRates);
      if converted.None? {
        result := Blank;
        return;
      }
      result := Shown(converted.value);
    }

    /**
     * `inputValue1.setSelection(index)`. The index is not clamped: outside the
     * field's text the span code throws IndexOutOfBoundsException, which
     * `thrown` reports and which nothing in the activity catches.
     */
    method SetSelection(index: int) returns (thrown: bool)
      modifies this`selection
      ensures thrown <==> !(0 <= index <= |inputText|)
      ensures !thrown ==> selection == index
      ensures thrown ==> selection == old(selection)
    {
      thrown := !(0 <= index <= |inputText|);
      if !thrown {
        selection := index;
      }
    }

    /**
     * `inputValue1.setText(text)`, and equally the user typing `text` into the
     * field: the field takes the text with its cursor at the start, then
     * notifies the watcher's `onTextChanged` and `afterTextChanged`. With the
     * watcher placing the cursor at the end of what the field holds, the field
     * ends up holding the normalised form of the text with the cursor inside,
     * so the class invariant survives every edit, and the result field shows
     * the conversion of the settled text.
     */
    method SetText(text: string)
      requires PositiveRates(conversionRates)
      modifies this`inputText, this`result, this`selection
      ensures inputText == Normalize(text) && IsClean(inputText) && DotCount(inputText) <= 1
      ensures result == UnitConversion.Convert(inputText, fromUnit, toUnit, conversionRates)
      ensures selection == if IsClean(text) && DotCount(text) <= 1 then 0 else |inputText|
      decreases |text|, 2
    {
      inputText, selection := text, 0;
      OnTextChanged(text);
      AfterTextChanged(text);
      if IsClean(text) && DotCount(text) <= 1 {
        assert inputText == Normalize(text) by { NormalizeOfClean(text); }
      }
    }

    /** An edit of the input field keeps the class invariant. */
    method Edit(text: string)
      requires Valid()
      modifies this`inputText, this`result, this`selection
      ensures Valid()
      ensures inputText == Normalize(text)
      ensures result == UnitConversion.Convert(inputText, fromUnit, toUnit, conversionRates)
    {
      SetText(text);
    }

    /**
     * The watcher's `onTextChanged`: a text with foreign characters is replaced
     * by its filtered form (which notifies the watcher anew) and the cursor is
     * put at the end of the field; a clean text is converted.
     */
    method OnTextChanged(s: string)
      requires PositiveRates(conversionRates) && inputText == s
      modifies this`inputText, this`result, this`selection
      ensures IsClean(s) ==> inputText == s && selection == old(selection)
      ensures !IsClean(s) ==> inputText == Normalize(s) && selection == |inputText|
      ensures result == UnitConversion.Convert(inputText, fromUnit, toUnit, conversionRates)
      decreases |s|, 1
    {
      var filtered := Filter(s);
      assert (filtered == s <==> IsClean(s)) && (filtered != s ==> |filtered| < |s|) by {
        FilterUnchangedIffClean(s);
      }
      if filtered != s {
        SetText(filtered);
        assert inputText == Normalize(s) by { NormalizeOfFiltered(s); }
        var outOfRange := SetSelection(|inputText|);
        assert !outOfRange;
        return;
      }
      Convert();
    }

    /**
     * The watcher's `afterTextChanged`, given the text it was notified with
     * (after a nested `setText` the field may already hold another one): more
     * than one '.' makes it write the corrected text back into the field and
     * put the cursor at the end of the field.
     */
    method AfterTextChanged(s: string)
      requires PositiveRates(conversionRates)
      modifies this`inputText, this`result, this`selection
      ensures DotCount(s) > 1 ==>
        && inputText == Normalize(s) && selection == |inputText|
        && result == UnitConversion.Convert(inputText, fromUnit, toUnit, conversionRates)
      ensures DotCount(s) <= 1 ==>
        inputText == old(inputText) && result == old(result) && selection == old(selection)
      decreases |s|, 1
    {
      var text := s;
      var decimalPoints := |text| - |RemoveDots(text)|;
      if decimalPoints > 1 {
        assert && '.' in text && |DropLaterDots(text)| < |s|
               && Normalize(DropLaterDots(text)) == Normalize(s) by {
          CorrectionSettles(s);
        }
        // the text up to its first '.', then the rest with every '.' deleted
        var corrected := DropLaterDots(text);
        SetText(corrected);
        var outOfRange := SetSelection(|inputText|);
        assert !outOfRange;
      }
    }

    /**
     * `setText` with the watcher as written, which puts the cursor at the length
     * of the text it wrote rather than of what the field holds. The nested
     * `setText` has by then settled the field to a shorter text exactly when the
     * input has a foreign character and more than one '.', and `setSelection`
     * then throws out of `onTextChanged`, so `afterTextChanged` never runs.
     */
    method SetTextAsWritten(text: string) returns (thrown: bool)
      requires PositiveRates(conversionRates)
      modifies this`inputText, this`result, this`selection
      ensures thrown <==> !IsClean(text) && DotCount(text) > 1
      ensures inputText == Normalize(text)
      ensures result == UnitConversion.Convert(inputText, fromUnit, toUnit, conversionRates)
      ensures !thrown ==> selection == if IsClean(text) && DotCount(text) <= 1 then 0 else |inputText|
      decreases |text|, 2
    {
      inputText, selection := text, 0;
      thrown := OnTextChangedAsWritten(text);
      if thrown {
        return;
      }
      thrown := AfterTextChangedAsWritten(text);
      if IsClean(text) && DotCount(text) <= 1 {
        assert inputText == Normalize(text) by { NormalizeOfClean(text); }
      }
    }

    /** `onTextChanged` as written: the cursor goes to `filtered.length()`. */
    method OnTextChangedAsWritten(s: string) returns (thrown: bool)
      requires PositiveRates(conversionRates) && inputText == s
      modifies this`inputText, this`result, this`selection
      ensures thrown <==> !IsClean(s) && DotCount(s) > 1
      ensures IsClean(s) ==> inputText == s && selection == old(selection)
      ensures !IsClean(s) ==> inputText == Normalize(s)
      ensures !IsClean(s) && !thrown ==> selection == |inputText|
      ensures result == UnitConversion.Convert(inputText, fromUnit, toUnit, conversionRates)
      decreases |s|, 1
    {
      thrown := false;
      var filtered := Filter(s);
      assert (filtered == s <==> IsClean(s)) && (filtered != s ==> |filtered| < |s|) by {
        FilterUnchangedIffClean(s);
      }
      if filtered != s {
        // the filtered text is clean, so the nested notification cannot throw
        var _ := SetTextAsWritten(filtered);
        assert inputText == Normalize(s) by { NormalizeOfFiltered(s); }
        assert |inputText| < |filtered| <==> DotCount(s) > 1 by { NormalizeShortensFilter(s); }
        thrown := SetSelection(|filtered|);
        return;
      }
      Convert();
    }

    /** `afterTextChanged` as written: the cursor goes to `corrected.length()`. */
    method AfterTextChangedAsWritten(s: string) returns (thrown: bool)
      requires PositiveRates(conversionRates)
      modifies this`inputText, this`result, this`selection
      ensures thrown <==> DotCount(s) > 1 && !IsClean(s)
      ensures DotCount(s) > 1 ==>
        inputText == Normalize(s) && result == UnitConversion.Convert(inputText, fromUnit, toUnit, conversionRates)
      ensures DotCount(s) > 1 && !thrown ==> selection == |inputText|
      ensures DotCount(s) <= 1 ==>
        inputText == old(inputText) && result == old(result) && selection == old(selection)
      decreases |s|, 1
    {
      thrown := false;
      var text := s;
      var decimalPoints := |text| - |RemoveDots(text)|;
      if decimalPoints > 1 {
        assert && '.' in text && |DropLaterDots(text)| < |s|
               && Normalize(DropLaterDots(text)) == Normalize(s)
               && (|Normalize(s)| < |DropLaterDots(text)| <==> !IsClean(s)) by {
          CorrectionSettles(s);
        }
        // the text up to its first '.', then the rest with every '.' deleted
        var corrected := DropLaterDots(text);
        // the corrected text has one '.', so the nested notification cannot throw
        var _ := SetTextAsWritten(corrected);
        thrown := SetSelection(|corrected|);
      }
    }
  }

  /**
   * Pasting "a1.2.3" into the freshly created screen crashes the watcher as
   * written: the field settles to "1.23" and the cursor is then set to 5.
   */
  method PasteCrashesAsWritten() returns (thrown: bool)
    ensures thrown
  {
    var screen := new ConverterActivity();
    PastedStrayCharacterAndTwoPoints();
    thrown := screen.SetTextAsWritten("a1.2.3");
  }

  /** Normalising the filtered text is normalising the text. */
  lemma NormalizeOfFiltered(s: string)
    ensures Normalize(Filter(s)) == Normalize(s)
  {
    FilterIdempotent(s);
  }
}
