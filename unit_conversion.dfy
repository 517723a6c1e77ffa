/**
 * The unit converter's engine: the table of length units, the two rewrites the
 * numeric field applies as the user types (drop foreign characters, keep only the
 * first decimal point), the parse of the field's text and the conversion itself.
 * Arithmetic is over `real`, so the decimal constants of the table are exact.
 */
module UnitConversion {
  import opened Wrappers
  import opened JavaStrings
  import opened Sequences

  // ---------------------------------------------------------------------------
  // The unit table
  // ---------------------------------------------------------------------------

  // The table is keyed by the unit names of the app's string resources; the model
  // names each unit after its resource key.
  const Meters: string := "meters"
  const Centimeters: string := "centimeters"
  const Feet: string := "feet"
  const Inches: string := "inches"
  const Yards: string := "yards"

  /** The default selections of the two unit drop-downs. */
  const DefaultFromUnit: string := Meters
  const DefaultToUnit: string := Centimeters

  predicate PositiveRates(rates: map<string, real>)
  {
    forall u :: u in rates ==> rates[u] > 0.0
  }

  /** The scale factors of `setupConversionRates`: how many of each unit make one meter. */
  function LengthRates(): (rates: map<string, real>)
    ensures PositiveRates(rates)
  {
    map[Meters := 1.0, Centimeters := 100.0, Feet := 3.28084, Inches := 39.3701, Yards := 1.09361]
  }

  /** The display symbol of each unit. */
  function LengthSymbols(): map<string, string>
  {
    map[Meters := "m", Centimeters := "cm", Feet := "ft", Inches := "in", Yards := "yd"]
  }

  /** The five unit names are different strings. */
  lemma UnitNamesDistinct()
    ensures Meters != Centimeters && Meters != Feet && Meters != Inches && Meters != Yards
    ensures Centimeters != Feet && Centimeters != Inches && Centimeters != Yards
    ensures Feet != Inches && Feet != Yards && Inches != Yards
  {
    assert Meters[0] != Inches[0];
  }

  /** The table holds the five length units, meters as the base, and each has a symbol. */
  lemma TableUnits()
    ensures LengthRates().Keys == {Meters, Centimeters, Feet, Inches, Yards}
    ensures LengthSymbols().Keys == LengthRates().Keys
    ensures forall u :: u in LengthSymbols() ==> LengthSymbols()[u] != ""
    ensures LengthRates()[Meters] == 1.0
  {
  }

  /** Both default selections are units of the table, each with a symbol. */
  lemma DefaultUnitsInTable()
    ensures DefaultFromUnit in LengthRates() && DefaultToUnit in LengthRates()
    ensures DefaultFromUnit in LengthSymbols() && DefaultToUnit in LengthSymbols()
    ensures LengthSymbols()[DefaultFromUnit] == "m" && LengthSymbols()[DefaultToUnit] == "cm"
  {
  }

  // ---------------------------------------------------------------------------
  // The keystroke filter: replaceAll("[^\\d.-]", "")
  // ---------------------------------------------------------------------------

  /** The characters the numeric field keeps: ASCII digits, '.' and '-'. */
  predicate IsNumericChar(c: char)
  {
    '0' <= c <= '9' || c == '.' || c == '-'
  }

  predicate IsClean(s: string)
  {
    forall i :: 0 <= i < |s| ==> IsNumericChar(s[i])
  }

  /** Deletes every character that is not a digit, '.' or '-'. */
  function Filter(s: string): (r: string)
    ensures IsClean(r)
    ensures |r| <= |s|
  {
    if s == [] then []
    else (if IsNumericChar(s[0]) then [s[0]] else []) + Filter(s[1..])
  }

  lemma {:induction false} FilterConcat(a: string, b: string)
    ensures Filter(a + b) == Filter(a) + Filter(b)
  {
    if a != [] {
      var head := if IsNumericChar(a[0]) then [a[0]] else [];
      assert (a + b)[0] == a[0];
      assert (a + b)[1..] == a[1..] + b;
      FilterConcat(a[1..], b);
      calc {
        Filter(a + b);
        head + Filter(a[1..] + b);
        head + (Filter(a[1..]) + Filter(b));
        (head + Filter(a[1..])) + Filter(b);
        Filter(a) + Filter(b);
      }
    } else {
      assert a + b == b;
    }
  }

  /**
   * The filter's result is the subsequence of the input made of exactly the
   * kept characters: it occurs in the input in order, and it holds every kept
   * character as often as the input does and no other character.
   */
  lemma {:induction false} FilterIsKeptSubsequence(s: string)
    ensures IsSubsequence(Filter(s), s)
    ensures forall c :: Count(Filter(s), c) == if IsNumericChar(c) then Count(s, c) else 0
  {
    if s != [] {
      FilterIsKeptSubsequence(s[1..]);
      var rest := Filter(s[1..]);
      if IsNumericChar(s[0]) {
        assert Filter(s) == [s[0]] + rest;
        assert ([s[0]] + rest)[1..] == rest;
        forall c ensures Count(Filter(s), c) == if IsNumericChar(c) then Count(s, c) else 0 {
          CountConcat([s[0]], rest, c);
        }
      } else {
        assert Filter(s) == rest;
        if rest != [] {
          assert IsNumericChar(rest[0]);
        }
      }
    }
  }

  /** The field is rewritten exactly when the input has a foreign character; the rewrite is shorter. */
  lemma {:induction false} FilterUnchangedIffClean(s: string)
    ensures Filter(s) == s <==> IsClean(s)
    ensures Filter(s) != s ==> |Filter(s)| < |s|
  {
    if s != [] {
      FilterUnchangedIffClean(s[1..]);
      assert IsClean(s) <==> IsNumericChar(s[0]) && IsClean(s[1..]) by {
        if IsNumericChar(s[0]) && IsClean(s[1..]) {
          forall i | 0 <= i < |s| ensures IsNumericChar(s[i]) {
            if i > 0 { assert s[i] == s[1..][i - 1]; }
          }
        }
        if IsClean(s) {
          forall i | 0 <= i < |s[1..]| ensures IsNumericChar(s[1..][i]) {
            assert s[1..][i] == s[i + 1];
          }
        }
      }
      if IsNumericChar(s[0]) {
        assert Filter(s) == [s[0]] + Filter(s[1..]);
        assert s == [s[0]] + s[1..];
        if Filter(s) == s {
          assert Filter(s[1..]) == s[1..];
        }
      } else {
        assert Filter(s) == Filter(s[1..]);
        assert |Filter(s)| < |s|;
      }
    }
  }

  /** Filtering twice is filtering once, so a rewritten field is not rewritten again. */
  lemma FilterIdempotent(s: string)
    ensures Filter(Filter(s)) == Filter(s)
  {
    FilterUnchangedIffClean(Filter(s));
  }

  // ---------------------------------------------------------------------------
  // The decimal-point fix of afterTextChanged
  // ---------------------------------------------------------------------------

  /** `s.replace(".", "")`. */
  function RemoveDots(s: string): (r: string)
    ensures |r| + Count(s, '.') == |s|
  {
    if s == [] then []
    else (if s[0] == '.' then [] else [s[0]]) + RemoveDots(s[1..])
  }

  lemma {:induction false} RemoveDotsConcat(a: string, b: string)
    ensures RemoveDots(a + b) == RemoveDots(a) + RemoveDots(b)
  {
    if a != [] {
      var head := if a[0] == '.' then [] else [a[0]];
      assert (a + b)[0] == a[0];
      assert (a + b)[1..] == a[1..] + b;
      RemoveDotsConcat(a[1..], b);
      calc {
        RemoveDots(a + b);
        head + RemoveDots(a[1..] + b);
        head + (RemoveDots(a[1..]) + RemoveDots(b));
        (head + RemoveDots(a[1..])) + RemoveDots(b);
        RemoveDots(a) + RemoveDots(b);
      }
    } else {
      assert a + b == b;
    }
  }

  /** No '.' is left after `replace(".", "")`. */
  lemma {:induction false} RemoveDotsLeavesNoDot(s: string)
    ensures '.' !in RemoveDots(s)
  {
    if s != [] {
      RemoveDotsLeavesNoDot(s[1..]);
    }
  }

  lemma {:induction false} RemoveDotsWithoutDots(s: string)
    requires Count(s, '.') == 0
    ensures RemoveDots(s) == s
  {
    if s != [] {
      RemoveDotsWithoutDots(s[1..]);
      assert s == [s[0]] + s[1..];
    }
  }

  /** `text.length() - text.replace(".", "").length()`: the number of decimal points. */
  function DotCount(s: string): (n: nat)
    ensures n == Count(s, '.')
  {
    |s| - |RemoveDots(s)|
  }

  /** The text with every '.' after the first one deleted. */
  function DropLaterDots(s: string): string
    requires '.' in s
  {
    var first := IndexOf(s, '.');
    s[..first + 1] + RemoveDots(s[first + 1..])
  }

  lemma DropLaterDotsFacts(s: string)
    requires '.' in s
    ensures Count(DropLaterDots(s), '.') == 1
    ensures |DropLaterDots(s)| == |s| + 1 - Count(s, '.')
    ensures RemoveDots(DropLaterDots(s)) == RemoveDots(s)
    ensures IndexOf(s, '.') < |DropLaterDots(s)|
    ensures DropLaterDots(s)[..IndexOf(s, '.') + 1] == s[..IndexOf(s, '.') + 1]
  {
    var first := IndexOf(s, '.');
    var pre, tail := s[..first], s[first + 1..];
    var head := pre + ['.'];
    assert s[..first + 1] == head;
    assert s == head + tail;
    var r := head + RemoveDots(tail);
    assert DropLaterDots(s) == r;
    CountZero(pre, '.');
    CountZero(RemoveDots(tail), '.');
    assert Count(head, '.') == 1 by { CountConcat(pre, ['.'], '.'); }
    CountConcat(head, tail, '.');
    CountConcat(head, RemoveDots(tail), '.');
    RemoveDotsOfHead(pre, tail);
    assert r[..first + 1] == head;
  }

  lemma RemoveDotsOfHead(pre: string, tail: string)
    ensures RemoveDots(pre + ['.'] + RemoveDots(tail)) == RemoveDots(pre + ['.'] + tail)
  {
    var head := pre + ['.'];
    RemoveDotsLeavesNoDot(tail);
    CountZero(RemoveDots(tail), '.');
    RemoveDotsWithoutDots(RemoveDots(tail));
    RemoveDotsConcat(head, tail);
    RemoveDotsConcat(head, RemoveDots(tail));
  }

  /**
   * `afterTextChanged`'s correction: when the text holds more than one '.', keeps
   * everything up to and including the first one and deletes the later ones, so
   * "12.3.4" becomes "12.34"; otherwise the text is left as it is.
   */
  function FixDecimalPoints(s: string): (r: string)
    ensures DotCount(r) <= 1
    ensures DotCount(s) <= 1 ==> r == s
    ensures DotCount(s) > 1 ==> |r| < |s|
    ensures RemoveDots(r) == RemoveDots(s)
    ensures '.' in s ==> IndexOf(s, '.') < |r| && r[..IndexOf(s, '.') + 1] == s[..IndexOf(s, '.') + 1]
  {
    if DotCount(s) > 1 then
      CountZero(s, '.');
      DropLaterDotsFacts(s);
      DropLaterDots(s)
    else
      s
  }

  /** Applying the correction twice is applying it once. */
  lemma FixDecimalPointsIdempotent(s: string)
    ensures FixDecimalPoints(FixDecimalPoints(s)) == FixDecimalPoints(s)
  {
  }

  lemma {:induction false} FilterRemoveDotsCommute(s: string)
    ensures Filter(RemoveDots(s)) == RemoveDots(Filter(s))
  {
    if s != [] {
      FilterRemoveDotsCommute(s[1..]);
      assert s == [s[0]] + s[1..];
      FilterConcat([s[0]], s[1..]);
      RemoveDotsConcat([s[0]], s[1..]);
      FilterConcat(RemoveDots([s[0]]), RemoveDots(s[1..]));
      RemoveDotsConcat(Filter([s[0]]), Filter(s[1..]));
    }
  }

  /** The correction of a text whose first '.' ends `pre` and that has another '.' in `tail`. */
  lemma FixAtFirstDot(pre: string, tail: string)
    requires '.' !in pre && '.' in tail
    ensures FixDecimalPoints(pre + ['.'] + tail) == pre + ['.'] + RemoveDots(tail)
  {
    var s := pre + ['.'] + tail;
    IndexOfAfterPrefix(pre, '.', tail);
    CountZero(tail, '.');
    CountConcat(pre + ['.'], tail, '.');
    assert Count(pre + ['.'], '.') >= 1 by { CountConcat(pre, ['.'], '.'); }
    assert s[..|pre| + 1] == pre + ['.'];
    assert s[|pre| + 1..] == tail;
  }

  lemma FilterAround(a: string, c: char, b: string)
    requires IsNumericChar(c)
    ensures Filter(a + [c] + b) == Filter(a) + [c] + Filter(b)
  {
    FilterConcat(a + [c], b);
    FilterConcat(a, [c]);
    assert Filter([c]) == [c] + Filter([]);
  }

  /** Both rewrites only delete characters, and they can be applied in either order. */
  lemma FilterFixCommute(s: string)
    ensures Filter(FixDecimalPoints(s)) == FixDecimalPoints(Filter(s))
  {
    FilterIsKeptSubsequence(s);
    assert DotCount(Filter(s)) == DotCount(s);
    if DotCount(s) > 1 {
      CountZero(s, '.');
      var first := IndexOf(s, '.');
      var pre, tail := s[..first], s[first + 1..];
      assert s == pre + ['.'] + tail;
      CountConcat(pre + ['.'], tail, '.');
      CountConcat(pre, ['.'], '.');
      CountZero(pre, '.');
      CountZero(tail, '.');
      FixAtFirstDot(pre, tail);
      FilterAround(pre, '.', RemoveDots(tail));
      FilterRemoveDotsCommute(tail);
      FilterAround(pre, '.', tail);
      FilterIsKeptSubsequence(pre);
      FilterIsKeptSubsequence(tail);
      CountZero(Filter(pre), '.');
      CountZero(Filter(tail), '.');
      FixAtFirstDot(Filter(pre), Filter(tail));
    }
  }

  /** A correction of a clean text is clean. */
  lemma FixDecimalPointsKeepsClean(s: string)
    requires IsClean(s)
    ensures IsClean(FixDecimalPoints(s))
  {
    FilterUnchangedIffClean(s);
    FilterFixCommute(s);
  }

  /** What the numeric field ends up holding after the user enters `s`. */
  function Normalize(s: string): (r: string)
    ensures IsClean(r) && DotCount(r) <= 1
  {
    FixDecimalPointsKeepsClean(Filter(s));
    FixDecimalPoints(Filter(s))
  }

  /** A normalised text is left alone by both rewrites. */
  lemma NormalizeIsFixedPoint(s: string)
    ensures Filter(Normalize(s)) == Normalize(s)
    ensures FixDecimalPoints(Normalize(s)) == Normalize(s)
    ensures Normalize(Normalize(s)) == Normalize(s)
  {
    FilterUnchangedIffClean(Normalize(s));
  }

  /** Correcting the points first and normalising afterwards ends where normalising alone does. */
  lemma NormalizeAfterFix(s: string)
    ensures Normalize(FixDecimalPoints(s)) == Normalize(s)
  {
    FilterFixCommute(s);
  }

  /** The empty field is normalised. */
  lemma NormalizeEmpty()
    ensures Normalize("") == ""
  {
    NormalizeOfClean("");
  }

  /** A clean text with at most one point is already normalised. */
  lemma NormalizeOfClean(s: string)
    requires IsClean(s) && DotCount(s) <= 1
    ensures Normalize(s) == s
  {
    FilterUnchangedIffClean(s);
  }

  /** With more than one '.', the correction keeps one point and drops the others. */
  lemma FixedTextLength(s: string)
    requires DotCount(s) > 1
    ensures |FixDecimalPoints(s)| == |s| + 1 - DotCount(s)
  {
    CountZero(s, '.');
    DropLaterDotsFacts(s);
  }

  /**
   * The settled text is never longer than the filtered one, and it is shorter
   * exactly when the input holds more than one '.'.
   */
  lemma NormalizeShortensFilter(s: string)
    ensures |Normalize(s)| <= |Filter(s)|
    ensures |Normalize(s)| < |Filter(s)| <==> DotCount(s) > 1
  {
    FilterIsKeptSubsequence(s);
    assert DotCount(Filter(s)) == DotCount(s);
  }

  /**
   * The point correction of a text with several points is never shorter than
   * what the field settles to from it, and it is longer exactly when the text
   * also has a foreign character.
   */
  lemma CorrectionOutlastsSettledText(s: string)
    requires DotCount(s) > 1
    ensures |Normalize(FixDecimalPoints(s))| <= |FixDecimalPoints(s)|
    ensures |Normalize(FixDecimalPoints(s))| < |FixDecimalPoints(s)| <==> !IsClean(s)
  {
    NormalizeAfterFix(s);
    FilterIsKeptSubsequence(s);
    assert DotCount(Filter(s)) == DotCount(s);
    FixedTextLength(s);
    FixedTextLength(Filter(s));
    FilterUnchangedIffClean(s);
  }

  /**
   * What `afterTextChanged` relies on when it corrects a text with several
   * points: the text has a '.', the correction settles where the text does, and
   * it outlasts the settled text exactly when the text has a foreign character.
   */
  lemma CorrectionSettles(s: string)
    requires DotCount(s) > 1
    ensures '.' in s && |DropLaterDots(s)| < |s|
    ensures Normalize(DropLaterDots(s)) == Normalize(s)
    ensures |Normalize(s)| < |DropLaterDots(s)| <==> !IsClean(s)
  {
    CountZero(s, '.');
    assert FixDecimalPoints(s) == DropLaterDots(s);
    NormalizeAfterFix(s);
    CorrectionOutlastsSettledText(s);
  }

  /** Pasting "a1.2.3": the filter leaves "1.2.3", and the field settles to "1.23". */
  lemma PastedStrayCharacterAndTwoPoints()
    ensures !IsClean("a1.2.3") && DotCount("a1.2.3") == 2
    ensures Filter("a1.2.3") == "1.2.3" && Normalize("a1.2.3") == "1.23"
  {
    var pasted := "a1.2.3";
    assert !IsNumericChar(pasted[0]);
    assert RemoveDots(pasted) == "a123";
    FilterOfPaste();
    TwoPointsInFilteredPaste();
    FixOfFilteredPaste();
  }

  lemma FilterOfPaste()
    ensures Filter("a1.2.3") == "1.2.3"
  {
    var filtered := "1.2.3";
    assert "a1.2.3" == ['a'] + filtered;
    FilterConcat(['a'], filtered);
    FilterUnchangedIffClean(filtered);
  }

  lemma TwoPointsInFilteredPaste()
    ensures DotCount("1.2.3") == 2
  {
    assert RemoveDots("1.2.3") == "123";
  }

  lemma FixOfFilteredPaste()
    ensures FixDecimalPoints("1.2.3") == "1.23"
  {
    assert "1.2.3" == "1" + ['.'] + "2.3";
    assert RemoveDots("2.3") == "23";
    FixAtFirstDot("1", "2.3");
  }

  // ---------------------------------------------------------------------------
  // Double.parseDouble on the filtered alphabet
  // ---------------------------------------------------------------------------

  predicate IsDigit(c: char)
  {
    '0' <= c <= '9'
  }

  predicate AllDigits(s: string)
  {
    forall i :: 0 <= i < |s| ==> IsDigit(s[i])
  }

  /** The natural number a string of decimal digits denotes. */
  function DigitsValue(s: string): nat
    requires AllDigits(s)
  {
    if s == [] then 0 else DigitsValue(s[..|s| - 1]) * 10 + (s[|s| - 1] as int - '0' as int)
  }

  function Pow10(n: nat): (p: nat)
    ensures p >= 1
  {
    if n == 0 then 1 else 10 * Pow10(n - 1)
  }

  /** The value of the numeral `whole.fraction`. */
  function DecimalValue(whole: string, fraction: string): real
    requires AllDigits(whole) && AllDigits(fraction)
  {
    DigitsValue(whole) as real + DigitsValue(fraction) as real / Pow10(|fraction|) as real
  }

  /** Digits with at most one '.', and at least one digit; the value it denotes. */
  function ParseUnsigned(s: string): (r: Option<real>)
    ensures r.Some? ==> s != [] && r.value >= 0.0 && '-' !in s
  {
    var p := IndexOf(s, '.');
    var whole := s[..p];
    var fraction := if p < |s| then s[p + 1..] else [];
    if AllDigits(whole) && AllDigits(fraction) && |whole| + |fraction| >= 1 then
      NoMinusAroundPoint(s, p);
      Some(DecimalValue(whole, fraction))
    else
      None
  }

  /** Digits on both sides of the first '.' leave no room for a '-'. */
  lemma NoMinusAroundPoint(s: string, p: nat)
    requires p <= |s| && (p < |s| ==> s[p] == '.')
    requires AllDigits(s[..p]) && (p < |s| ==> AllDigits(s[p + 1..]))
    ensures '-' !in s
  {
    forall i | 0 <= i < |s| ensures s[i] != '-' {
      if i < p {
        assert s[i] == s[..p][i];
      } else if i > p {
        assert s[i] == s[p + 1..][i - p - 1];
      }
    }
  }

  /**
   * `Double.parseDouble` on a text made of digits, '.' and '-': an optional leading
   * '-', then digits with at most one '.', and at least one digit. `None` stands for
   * the NumberFormatException.
   */
  function ParseDecimal(s: string): (r: Option<real>)
    ensures r.Some? ==> s != [] && '-' !in s[1..]
    ensures r.Some? && r.value < 0.0 ==> s[0] == '-'
    ensures r.Some? && s[0] == '-' ==> r.value <= 0.0
  {
    if s != [] && s[0] == '-' then
      match ParseUnsigned(s[1..])
      case Some(v) => Some(-v)
      case None => None
    else
      ParseUnsigned(s)
  }

  /** Digits and at most one '.', with at least one digit: the accepted numbers without their sign. */
  predicate IsUnsignedNumeral(body: string)
  {
    && (forall i :: 0 <= i < |body| ==> IsDigit(body[i]) || body[i] == '.')
    && Count(body, '.') <= 1
    && exists i :: 0 <= i < |body| && IsDigit(body[i])
  }

  /** The grammar of accepted numerals, stated by counting rather than by cutting at the point. */
  predicate IsNumeral(s: string)
  {
    if s != [] && s[0] == '-' then IsUnsignedNumeral(s[1..]) else IsUnsignedNumeral(s)
  }

  lemma UnsignedAcceptsNumerals(s: string)
    requires s == [] || s[0] != '-'
    ensures ParseUnsigned(s).Some? <==> IsUnsignedNumeral(s)
  {
    if '.' in s {
      var p := IndexOf(s, '.');
      PointNumeralParts(s, s[..p], s[p + 1..]);
    } else {
      assert s[..|s|] == s;
      CountZero(s, '.');
      if IsUnsignedNumeral(s) {
        assert AllDigits(s) by {
          forall i | 0 <= i < |s| ensures IsDigit(s[i]) {
            assert s[i] != '.';
          }
        }
      }
      if ParseUnsigned(s).Some? {
        assert IsDigit(s[0]);
      }
    }
  }

  /** A text with a point is a numeral exactly when the parts around its first point are digits, not both empty. */
  lemma PointNumeralParts(s: string, whole: string, fraction: string)
    requires '.' !in whole && s == whole + ['.'] + fraction
    ensures IsUnsignedNumeral(s) <==> AllDigits(whole) && AllDigits(fraction) && |whole| + |fraction| >= 1
  {
    var p := |whole|;
    CountZero(whole, '.');
    CountZero(fraction, '.');
    CountConcat(whole + ['.'], fraction, '.');
    CountConcat(whole, ['.'], '.');
    assert Count(s, '.') == 1 + Count(fraction, '.');
    if AllDigits(whole) && AllDigits(fraction) && |whole| + |fraction| >= 1 {
      forall i | 0 <= i < |s| ensures IsDigit(s[i]) || s[i] == '.' {
        if i < p {
          assert s[i] == whole[i];
        } else if i > p {
          assert s[i] == fraction[i - p - 1];
        }
      }
      assert '.' !in fraction;
      if |whole| >= 1 {
        assert IsDigit(s[0]) by { assert s[0] == whole[0]; }
      } else {
        assert IsDigit(s[p + 1]) by { assert s[p + 1] == fraction[0]; }
      }
    }
    if IsUnsignedNumeral(s) {
      assert AllDigits(whole) by {
        forall i | 0 <= i < |whole| ensures IsDigit(whole[i]) {
          assert whole[i] == s[i];
        }
      }
      assert AllDigits(fraction) by {
        forall i | 0 <= i < |fraction| ensures IsDigit(fraction[i]) {
          assert fraction[i] == s[p + 1 + i];
        }
      }
      var k :| 0 <= k < |s| && IsDigit(s[k]);
      assert k != p;
    }
  }

  /** `ParseDecimal` accepts exactly the numerals. */
  lemma ParseAcceptsNumerals(s: string)
    ensures ParseDecimal(s).Some? <==> IsNumeral(s)
  {
    if s != [] && s[0] == '-' {
      var body := s[1..];
      if body != [] && body[0] == '-' {
        assert !IsUnsignedNumeral(body) by {
          assert !(IsDigit(body[0]) || body[0] == '.');
        }
        var p := IndexOf(body, '.');
        assert p > 0;
        assert !AllDigits(body[..p]) by { assert body[..p][0] == '-'; }
      } else {
        UnsignedAcceptsNumerals(body);
      }
    } else {
      UnsignedAcceptsNumerals(s);
    }
  }

  /** A '-' anywhere but in front makes `parseDouble` throw, so the result is cleared. */
  lemma MinusNotFirstRejected(s: string, i: nat)
    requires 0 < i < |s| && s[i] == '-'
    ensures ParseDecimal(s) == None
  {
    ParseAcceptsNumerals(s);
    if s[0] == '-' {
      var body := s[1..];
      assert body[i - 1] == '-';
      assert !(IsDigit(body[i - 1]) || body[i - 1] == '.');
    } else {
      assert !(IsDigit(s[i]) || s[i] == '.');
    }
  }

  /** The decimal digits of a natural number, most significant first. */
  function NatToDigits(n: nat): (s: string)
    ensures AllDigits(s) && |s| >= 1
  {
    (if n < 10 then [] else NatToDigits(n / 10)) + [('0' as int + n % 10) as char]
  }

  lemma DigitsValueSnoc(t: string, c: char)
    requires AllDigits(t) && IsDigit(c)
    ensures AllDigits(t + [c])
    ensures DigitsValue(t + [c]) == DigitsValue(t) * 10 + (c as int - '0' as int)
  {
    assert (t + [c])[..|t|] == t;
  }

  lemma {:induction false} DigitsValueOfNat(n: nat)
    ensures DigitsValue(NatToDigits(n)) == n
  {
    var d := ('0' as int + n % 10) as char;
    if n < 10 {
      assert NatToDigits(n) == [] + [d];
      DigitsValueSnoc([], d);
    } else {
      DigitsValueOfNat(n / 10);
      assert NatToDigits(n) == NatToDigits(n / 10) + [d];
      DigitsValueSnoc(NatToDigits(n / 10), d);
    }
  }

  lemma DigitsAreNotSigns(s: string)
    requires AllDigits(s)
    ensures '.' !in s && '-' !in s
  {
  }

  /** A numeral without a point parses to the number its digits denote. */
  lemma ParseDigits(s: string)
    requires AllDigits(s) && |s| >= 1
    ensures ParseUnsigned(s) == Some(DigitsValue(s) as real)
  {
    DigitsAreNotSigns(s);
    assert s[..IndexOf(s, '.')] == s;
    assert DigitsValue([]) == 0 && Pow10(0) == 1;
    assert DecimalValue(s, []) == DigitsValue(s) as real + 0.0 / 1.0;
  }

  /** Parsing the digits of a whole number, with or without a leading '-', gives the number back. */
  lemma ParseWholeNumber(n: nat)
    ensures ParseDecimal(NatToDigits(n)) == Some(n as real)
    ensures ParseDecimal("-" + NatToDigits(n)) == Some(-(n as real))
  {
    var s := NatToDigits(n);
    DigitsValueOfNat(n);
    ParseDigits(s);
    DigitsAreNotSigns(s);
    assert s[0] != '-';
    assert ("-" + s)[1..] == s;
  }

  // ---------------------------------------------------------------------------
  // convert()
  // ---------------------------------------------------------------------------

  /** What the result field shows: nothing, or the (formatted) converted value. */
  datatype Display = Blank | Shown(value: real)

  /** `value / fromRate * toRate`, or `None` when either unit is not in the table. */
  function ConvertValue(value: real, fromUnit: string, toUnit: string, rates: map<string, real>): (r: Option<real>)
    requires PositiveRates(rates)
    ensures r.Some? <==> fromUnit in rates && toUnit in rates
    ensures r.Some? ==> r.value * rates[fromUnit] == value * rates[toUnit]
  {
    if fromUnit !in rates || toUnit !in rates then None
    else
      MulDiv(value / rates[fromUnit], rates[fromUnit]);
      DivMul(value, rates[fromUnit]);
      Some(value / rates[fromUnit] * rates[toUnit])
  }

  lemma MulDiv(x: real, y: real)
    requires y > 0.0
    ensures x * y / y == x
  {
  }

  lemma DivMul(x: real, y: real)
    requires y > 0.0
    ensures x / y * y == x
  {
  }

  /** The texts `convert()` treats as not yet a number: empty, a lone '-' and a lone '.'. */
  predicate IsPartialInput(s: string)
    ensures IsPartialInput(s) <==> |s| <= 1 && (s == [] || (IsNumericChar(s[0]) && !IsDigit(s[0])))
  {
    s == "" || s == "-" || s == "."
  }

  /**
   * `convert()`: the result field for the text of the input field and the two
   * selected units. Partial input, text `parseDouble` rejects and units absent
   * from the table all clear the result; otherwise the result is the input's
   * value in the target unit.
   */
  function Convert(text: string, fromUnit: string, toUnit: string, rates: map<string, real>): (d: Display)
    requires PositiveRates(rates)
    ensures var t := Trim(text);
      d.Shown? <==> !IsPartialInput(t) && ParseDecimal(t).Some? && fromUnit in rates && toUnit in rates
    ensures d.Shown? ==> Some(d.value) == ConvertValue(ParseDecimal(Trim(text)).value, fromUnit, toUnit, rates)
  {
    var valueStr := Trim(text);
    if IsPartialInput(valueStr) then Blank
    else
      var value := ParseDecimal(valueStr);
      if value.None? then Blank
      else
        var converted := ConvertValue(value.value, fromUnit, toUnit, rates);
        if converted.None? then Blank else Shown(converted.value)
  }

  /** The partial inputs are not numbers, so the guard in `convert()` only saves an exception. */
  lemma PartialInputIsNotANumber(s: string)
    requires IsPartialInput(s)
    ensures ParseDecimal(s) == None
  {
    ParseAcceptsNumerals(s);
    if s != [] {
      if s == "-" {
        assert s[1..] == [];
      } else {
        assert !IsDigit(s[0]);
      }
    }
  }

  /** Converting a unit to itself gives the value back. */
  lemma ConvertToSameUnit(value: real, u: string, rates: map<string, real>)
    requires PositiveRates(rates) && u in rates
    ensures ConvertValue(value, u, u, rates) == Some(value)
  {
    DivMul(value, rates[u]);
  }

  /** Converting A to B and then B to C is converting A to C. */
  lemma ConvertChain(value: real, a: string, b: string, c: string, rates: map<string, real>)
    requires PositiveRates(rates) && a in rates && b in rates && c in rates
    ensures ConvertValue(ConvertValue(value, a, b, rates).value, b, c, rates) == ConvertValue(value, a, c, rates)
  {
    var ra, rb, rc := rates[a], rates[b], rates[c];
    var y := ConvertValue(value, a, b, rates).value;
    var z := ConvertValue(y, b, c, rates).value;
    var w := ConvertValue(value, a, c, rates).value;
    assert z * rb == y * rc && y * ra == value * rb && w * ra == value * rc;
    calc {
      z * (rb * ra);
      (z * rb) * ra;
      (y * rc) * ra;
      (y * ra) * rc;
      (value * rb) * rc;
      (value * rc) * rb;
      (w * ra) * rb;
      w * (rb * ra);
    }
    Cancel(z, w, rb * ra);
  }

  lemma Cancel(p: real, q: real, k: real)
    requires k > 0.0 && p * k == q * k
    ensures p == q
  {
  }

  /** Over the reals a conversion and its reverse cancel exactly. */
  lemma ConvertThereAndBack(value: real, a: string, b: string, rates: map<string, real>)
    requires PositiveRates(rates) && a in rates && b in rates
    ensures ConvertValue(ConvertValue(value, a, b, rates).value, b, a, rates) == Some(value)
  {
    ConvertChain(value, a, b, a, rates);
    ConvertToSameUnit(value, a, rates);
  }

  /** One meter is a hundred centimeters. */
  lemma OneMeterInCentimeters()
    ensures ConvertValue(1.0, Meters, Centimeters, LengthRates()) == Some(100.0)
  {
    UnitNamesDistinct();
    assert LengthRates()[Meters] == 1.0 && LengthRates()[Centimeters] == 100.0;
  }

  /** ... also when typed into the field as "1". */
  lemma TypedOneMeterInCentimeters()
    ensures Convert("1", Meters, Centimeters, LengthRates()) == Shown(100.0)
  {
    OneMeterInCentimeters();
    ParseWholeNumber(1);
    assert NatToDigits(1) == "1";
    assert Trim("1") == "1";
    assert !IsPartialInput("1");
  }

  /** One foot comes out as twelve inches to within a thousandth: the table's constants are rounded. */
  lemma OneFootInInches()
    ensures var r := ConvertValue(1.0, Feet, Inches, LengthRates()).value; 11.999 < r < 12.001
  {
  }

  /** On a normalised field `trim` changes nothing. */
  lemma TrimLeavesNormalizedText(t: string)
    ensures Trim(Normalize(t)) == Normalize(t)
  {
    var s := Normalize(t);
    assert forall i :: 0 <= i < |s| ==> s[i] > ' ' by {
      forall i | 0 <= i < |s| ensures s[i] > ' ' { assert IsNumericChar(s[i]); }
    }
  }
}
