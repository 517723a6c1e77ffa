# Unit converter and MySnapshot, modelled in Dafny

This project models the logic of two small Android apps.

- **Unit converter.** This is a length converter with five units. Its
  numeric input field cleans its own text as the user types. It drops every
  character that is not a digit, `.` or `-`, and it keeps only the first
  decimal point. Its result field shows the value converted through meters.
- **MySnapshot.** This is a photo gallery with three parts.
  - The main screen shows the images of one folder, newest first.
  - It can adopt a folder the user picks through the Storage Access
    Framework. A document id such as `primary:DCIM` is mapped to a folder on
    disk, and the images of that folder are copied into the app's own folder.
    Opening the app again restores the folder.
  - The detail screen works out how far to subsample a bitmap and how to
    label its size.

The modules follow the apps' structure:

| file | module | what it holds |
|---|---|---|
| `wrappers.dfy` | `Wrappers` | `Option` |
| `sequences.dfy` | `Sequences` | occurrence counts and subsequences |
| `java_strings.dfy` | `JavaStrings` | the `java.lang.String` operations the apps use: `indexOf`, `split` with its dropped trailing empties, `equalsIgnoreCase`, ASCII `toLowerCase`, `endsWith` and `trim` |
| `unit_conversion.dfy` | `UnitConversion` | the converter's rate table, the two input rewrites, the parse and `convert()` as functions, with their algebra |
| `converter_screen.dfy` | `ConverterScreen` | the converter's activity as a class whose callbacks update the widget state (see below) |
| `image_details.dfy` | `ImageDetails` | `calculateInSampleSize` as a loop over Java `int`, the load plan of `onCreate` and the size label |
| `snapshot_folders.dfy` | `SnapshotFolders` | `getPathFromUri` and the two folder constructors |
| `snapshot_files.dfy` | `SnapshotFiles` | the image filter, the newest-first order and the photo names |
| `snapshot_screen.dfy` | `SnapshotScreen` | the gallery activity as a class: the folder it shows, the grid, the saved preferences, the copy loop and the permission scan |

The input field's text watcher is re-entrant. A `setText` issued inside
`onTextChanged` or `afterTextChanged` notifies the watcher again before the
outer callback returns. `SetText`, `OnTextChanged` and `AfterTextChanged`
are therefore mutually recursive methods.

The file system is a value passed to each operation (`Storage`):

- whether a path exists;
- whether it is a directory;
- what `listFiles` yields for it.

The result of each copy is a further input (`CopyOutcome`).

## Model

| member | source | states |
|---|---|---|
| `UnitConversion.LengthRates` | app/src/main/java/com/example/unitconverter/MainActivity.java:97-102 | every rate of the length table is positive, with meters as the base unit |
| `UnitConversion.TableUnits` | app/src/main/java/com/example/unitconverter/MainActivity.java:96-110 | the rate table and the symbol table have exactly the five units as keys; every symbol is non-empty; meters has rate 1 |
| `UnitConversion.DefaultUnitsInTable` | app/src/main/java/com/example/unitconverter/MainActivity.java:124-130 | the default units (meters and centimeters) are in both tables, with the symbols "m" and "cm" |
| `UnitConversion.UnitNamesDistinct` | app/src/main/java/com/example/unitconverter/MainActivity.java:98-102 | the five unit keys are pairwise different, so no `put` overwrites another |
| `UnitConversion.Filter` | app/src/main/java/com/example/unitconverter/MainActivity.java:160 | the result contains only digits, `.` and `-`, and is no longer than the input |
| `UnitConversion.FilterConcat` | app/src/main/java/com/example/unitconverter/MainActivity.java:160 | filtering distributes over concatenation |
| `UnitConversion.FilterIsKeptSubsequence` | app/src/main/java/com/example/unitconverter/MainActivity.java:160 | the result is a subsequence of the input that keeps every numeric character as often as the input has it and each other character 0 times |
| `UnitConversion.FilterUnchangedIffClean` | app/src/main/java/com/example/unitconverter/MainActivity.java:160-164 | the filter changes the text if and only if the text has a foreign character, and a change always shortens it (the `equals` test that triggers `setText`) |
| `UnitConversion.FilterIdempotent` | app/src/main/java/com/example/unitconverter/MainActivity.java:160 | filtering twice gives the same text as filtering once |
| `UnitConversion.RemoveDots` | app/src/main/java/com/example/unitconverter/MainActivity.java:173 | `replace(".", "")` removes exactly the dots: the length drops by the number of dots |
| `UnitConversion.RemoveDotsLeavesNoDot` | app/src/main/java/com/example/unitconverter/MainActivity.java:173 | no dot is left after `replace(".", "")` |
| `UnitConversion.RemoveDotsConcat` | app/src/main/java/com/example/unitconverter/MainActivity.java:173 | removing dots distributes over concatenation |
| `UnitConversion.RemoveDotsWithoutDots` | app/src/main/java/com/example/unitconverter/MainActivity.java:173 | a text without dots is unchanged |
| `UnitConversion.DotCount` | app/src/main/java/com/example/unitconverter/MainActivity.java:173 | `length() - replace(".", "").length()` is the number of dots in the text |
| `UnitConversion.DropLaterDotsFacts` | app/src/main/java/com/example/unitconverter/MainActivity.java:175-177 | the corrected text has one dot; it is the original with every dot after the first removed, and it agrees with the original up to the first dot |
| `UnitConversion.FixDecimalPoints` | app/src/main/java/com/example/unitconverter/MainActivity.java:172-181 | the result has at most one dot; a text with at most one dot is kept; otherwise the text gets shorter, agrees up to its first dot and keeps every other character in order |
| `UnitConversion.FixDecimalPointsIdempotent` | app/src/main/java/com/example/unitconverter/MainActivity.java:172-181 | fixing twice gives the same text as fixing once |
| `UnitConversion.FixAtFirstDot` | app/src/main/java/com/example/unitconverter/MainActivity.java:175-177 | for `pre + "." + tail` with no dot in `pre`, the fix keeps `pre + "."` and removes the dots of `tail` |
| `UnitConversion.FilterRemoveDotsCommute` | app/src/main/java/com/example/unitconverter/MainActivity.java:160-173 | removing dots and filtering commute |
| `UnitConversion.FilterFixCommute` | app/src/main/java/com/example/unitconverter/MainActivity.java:160-177 | the two rewrites commute, so the order in which the watcher applies them does not matter |
| `UnitConversion.FixDecimalPointsKeepsClean` | app/src/main/java/com/example/unitconverter/MainActivity.java:175-177 | the decimal fix never brings a foreign character back |
| `UnitConversion.Normalize` | app/src/main/java/com/example/unitconverter/MainActivity.java:158-181 | the text the field settles on is clean and has at most one dot |
| `UnitConversion.NormalizeIsFixedPoint` | app/src/main/java/com/example/unitconverter/MainActivity.java:158-181 | the settled text is a fixed point of both rewrites, so the watcher does not fire again |
| `UnitConversion.NormalizeAfterFix` | app/src/main/java/com/example/unitconverter/MainActivity.java:158-181 | applying the decimal fix first leads to the same settled text |
| `UnitConversion.NormalizeEmpty` | app/src/main/java/com/example/unitconverter/MainActivity.java:158-181 | the empty field stays empty |
| `UnitConversion.NormalizeOfClean` | app/src/main/java/com/example/unitconverter/MainActivity.java:158-181 | a clean text with at most one dot is left as it is |
| `UnitConversion.FixedTextLength` | app/src/main/java/com/example/unitconverter/MainActivity.java:172-179 | with more than one point, the corrected text is shorter by the number of points less one |
| `UnitConversion.NormalizeShortensFilter` | app/src/main/java/com/example/unitconverter/MainActivity.java:160-181 | the settled text is no longer than the filtered one, and strictly shorter exactly when the text has more than one point |
| `UnitConversion.CorrectionOutlastsSettledText` | app/src/main/java/com/example/unitconverter/MainActivity.java:174-179 | with more than one point, the settled text is no longer than the corrected one, and strictly shorter exactly when the text has a foreign character |
| `UnitConversion.CorrectionSettles` | app/src/main/java/com/example/unitconverter/MainActivity.java:174-179 | a text with more than one point has a '.', its correction is shorter than it and settles where the text itself does, and the correction outlasts the settled text exactly when the text has a foreign character |
| `UnitConversion.PastedStrayCharacterAndTwoPoints` | app/src/main/java/com/example/unitconverter/MainActivity.java:158-181 | "a1.2.3" has a foreign character and two points; it filters to "1.2.3" and settles to "1.23", one character shorter |
| `UnitConversion.UnsignedAcceptsNumerals` | app/src/main/java/com/example/unitconverter/MainActivity.java:200 | the unsigned parse succeeds if and only if the text is digits with at most one point and at least one digit |
| `UnitConversion.PointNumeralParts` | app/src/main/java/com/example/unitconverter/MainActivity.java:200 | for `whole + "." + fraction`, the text is a numeral if and only if both parts are digits and together they are not empty |
| `UnitConversion.ParseAcceptsNumerals` | app/src/main/java/com/example/unitconverter/MainActivity.java:200 | the parse succeeds if and only if the text is an optional `-` followed by an unsigned numeral |
| `UnitConversion.MinusNotFirstRejected` | app/src/main/java/com/example/unitconverter/MainActivity.java:200-221 | a `-` anywhere but in front makes `parseDouble` fail, which the `catch` turns into a blank result |
| `UnitConversion.NatToDigits` | app/src/main/java/com/example/unitconverter/MainActivity.java:200 | the decimal digits of a natural number are a non-empty digit string |
| `UnitConversion.DigitsValueOfNat` | app/src/main/java/com/example/unitconverter/MainActivity.java:200 | reading back the digits of `n` gives `n` |
| `UnitConversion.ParseDigits` | app/src/main/java/com/example/unitconverter/MainActivity.java:200 | a non-empty digit string parses to its value |
| `UnitConversion.ParseWholeNumber` | app/src/main/java/com/example/unitconverter/MainActivity.java:200 | the digits of `n` parse to `n`, and with a leading `-` to `-n` |
| `UnitConversion.ParseUnsigned` | app/src/main/java/com/example/unitconverter/MainActivity.java:200 | an unsigned parse succeeds only on a non-empty text without '-', and its value is not negative |
| `UnitConversion.ParseDecimal` | app/src/main/java/com/example/unitconverter/MainActivity.java:200 | a parse succeeds only on a non-empty text with no '-' after the first character; a negative value needs a leading '-', and a leading '-' gives a value of at most 0 |
| `UnitConversion.ConvertValue` | app/src/main/java/com/example/unitconverter/MainActivity.java:204-214 | there is a result if and only if both units are in the table; then result × rate(from) = value × rate(to) |
| `UnitConversion.Convert` | app/src/main/java/com/example/unitconverter/MainActivity.java:191-222 | a value is shown if and only if the trimmed text is not partial, it parses, and both units are in the table; the value shown is the converted parse |
| `UnitConversion.PartialInputIsNotANumber` | app/src/main/java/com/example/unitconverter/MainActivity.java:194-197 | "", "-" and "." do not parse, so the early return only avoids the exception |
| `UnitConversion.IsPartialInput` | app/src/main/java/com/example/unitconverter/MainActivity.java:194-197 | the partial inputs are exactly the empty text and the one-character texts that are numeric but not a digit, that is "-" and "." |
| `UnitConversion.ConvertToSameUnit` | app/src/main/java/com/example/unitconverter/MainActivity.java:213-214 | converting a value into its own unit gives the value |
| `UnitConversion.ConvertChain` | app/src/main/java/com/example/unitconverter/MainActivity.java:213-214 | converting a to b and then b to c equals converting a to c |
| `UnitConversion.ConvertThereAndBack` | app/src/main/java/com/example/unitconverter/MainActivity.java:213-214 | converting a to b and back gives the original value |
| `UnitConversion.OneMeterInCentimeters` | app/src/main/java/com/example/unitconverter/MainActivity.java:213-214 | 1 m is 100 cm |
| `UnitConversion.TypedOneMeterInCentimeters` | app/src/main/java/com/example/unitconverter/MainActivity.java:191-222 | typing "1" with meters to centimeters shows 100 |
| `UnitConversion.OneFootInInches` | app/src/main/java/com/example/unitconverter/MainActivity.java:213-214 | 1 ft is 12 in within 0.001, given the table's rounded rates |
| `UnitConversion.TrimLeavesNormalizedText` | app/src/main/java/com/example/unitconverter/MainActivity.java:192 | the settled text has no blanks, so `trim()` leaves it as it is |
| `JavaStrings.IndexOf` | app/src/main/java/com/example/unitconverter/MainActivity.java:175 | `indexOf` finds the first occurrence: it is in range exactly when the character occurs, it points at that character, and no occurrence comes before it |
| `JavaStrings.Fields` | app/src/main/java/com/example/mysnapshot/MainActivity.java:268 | cutting at every separator gives at least one piece, and exactly one when the separator does not occur |
| `JavaStrings.JoinFields` | app/src/main/java/com/example/mysnapshot/MainActivity.java:268 | joining the pieces with the separator gives back the text |
| `JavaStrings.FieldsHaveNoSeparator` | app/src/main/java/com/example/mysnapshot/MainActivity.java:268 | no piece contains the separator |
| `JavaStrings.DropTrailingEmpty` | app/src/main/java/com/example/mysnapshot/MainActivity.java:268 | the result is a prefix of the pieces that does not end in an empty piece, and only empty pieces were dropped |
| `JavaStrings.Split` | app/src/main/java/com/example/mysnapshot/MainActivity.java:268 | `split` of a text without the separator is the text alone; otherwise it is a prefix of the pieces that does not end in an empty one, and every piece it drops is empty |
| `JavaStrings.SplitJoin` | app/src/main/java/com/example/mysnapshot/MainActivity.java:268 | putting the dropped empty pieces back and joining with the separator gives back the text, so `split` loses only trailing separators |
| `JavaStrings.SplitPiecesHaveNoSeparator` | app/src/main/java/com/example/mysnapshot/MainActivity.java:268 | no element of `split` contains the separator |
| `JavaStrings.SplitFirstTwo` | app/src/main/java/com/example/mysnapshot/MainActivity.java:268-272 | `a:b...` with a non-empty `b` splits into at least two elements, `a` and `b` |
| `JavaStrings.SplitEmptyMiddle` | app/src/main/java/com/example/mysnapshot/MainActivity.java:268-279 | `a::x` splits into `a`, "" and more |
| `JavaStrings.SplitTrailingSeparator` | app/src/main/java/com/example/mysnapshot/MainActivity.java:268-273 | `a:` splits into `a` alone |
| `JavaStrings.SplitOfSeparatorsOnly` | app/src/main/java/com/example/mysnapshot/MainActivity.java:268-269 | a text made of separators only splits into nothing, so `split[0]` throws |
| `JavaStrings.ToLower` | app/src/main/java/com/example/mysnapshot/MainActivity.java:236-238 | lower-casing keeps the length and maps exactly the letters A to Z to a to z |
| `JavaStrings.Trim` | app/src/main/java/com/example/unitconverter/MainActivity.java:192 | the result is the slice of the text between a blank prefix and a blank suffix; it neither starts nor ends with a blank; a text whose two ends are not blank is unchanged |
| `JavaStrings.EqualsIgnoreCase` | app/src/main/java/com/example/mysnapshot/MainActivity.java:271 | texts equal up to case have the same length, and every text equals itself |
| `JavaStrings.EqualsIgnoreCaseSymmetric` | app/src/main/java/com/example/mysnapshot/MainActivity.java:271 | the comparison does not depend on the order of its operands, so `"primary".equalsIgnoreCase(type)` is `type` compared with "primary" |
| `JavaStrings.EndsWith` | app/src/main/java/com/example/mysnapshot/MainActivity.java:236-238 | a text that ends with the suffix is at least as long and is its own prefix followed by the suffix |
| `JavaStrings.EndsWithAppended` | app/src/main/java/com/example/mysnapshot/MainActivity.java:236-238 | a text followed by the suffix ends with it, and a text of that length that ends with the suffix is its prefix followed by the suffix |
| `ConverterScreen.KeysInSomeOrder` | app/src/main/java/com/example/unitconverter/MainActivity.java:113 | the array holds every key of the table exactly once |
| `ConverterScreen.InitialScreenFacts` | app/src/main/java/com/example/unitconverter/MainActivity.java:96-130 | after setup the rates are positive, both tables have the same units, the default symbols are "m" and "cm", and the empty field needs no rewrite |
| `ConverterScreen.ConverterActivity.constructor` | app/src/main/java/com/example/unitconverter/MainActivity.java:96-130 | the screen's first state: the length tables, an empty input, a blank result, the default units and the symbols "m" and "cm" |
| `ConverterScreen.ConverterActivity.SetupConversionRates` | app/src/main/java/com/example/unitconverter/MainActivity.java:96-110 | the rate and symbol maps are the old maps overwritten with the length tables |
| `ConverterScreen.ConverterActivity.SetupUnitSelectors` | app/src/main/java/com/example/unitconverter/MainActivity.java:112-130 | given tables with positive rates and a symbol per unit, the drop-downs then agree with them (`TablesAgree`: every unit of the table listed exactly once); the defaults are selected and their symbols shown |
| `ConverterScreen.ConverterActivity.SelectFromUnit` | app/src/main/java/com/example/unitconverter/MainActivity.java:133-140 | picking entry `position` selects that unit, shows its symbol and recomputes the result for the current text |
| `ConverterScreen.ConverterActivity.SelectToUnit` | app/src/main/java/com/example/unitconverter/MainActivity.java:142-149 | the same for the target unit |
| `ConverterScreen.ConverterActivity.TypeFromUnit` | app/src/main/java/com/example/unitconverter/MainActivity.java:201 | typing a name into the source drop-down changes the unit `convert()` reads, and nothing else |
| `ConverterScreen.ConverterActivity.TypeToUnit` | app/src/main/java/com/example/unitconverter/MainActivity.java:202 | the same for the target drop-down |
| `ConverterScreen.ConverterActivity.FocusChanged` | app/src/main/java/com/example/unitconverter/MainActivity.java:184-188 | gaining focus clears the result, and losing it changes nothing |
| `ConverterScreen.ConverterActivity.Convert` | app/src/main/java/com/example/unitconverter/MainActivity.java:191-222 | the result field becomes `UnitConversion.Convert` of the current text and units |
| `ConverterScreen.ConverterActivity.SetText` | app/src/main/java/com/example/unitconverter/MainActivity.java:158-181 | after `setText` and every callback it triggers, the field holds the settled text (clean, with at most one point), the result is its conversion, and the cursor is at the start for a text needing no rewrite and at the end of the field otherwise |
| `ConverterScreen.ConverterActivity.OnTextChanged` | app/src/main/java/com/example/unitconverter/MainActivity.java:158-167 | a clean text is kept with its cursor and converted; a dirty one is replaced by its settled form with the cursor at its end, and the result is the conversion of the final text |
| `ConverterScreen.ConverterActivity.AfterTextChanged` | app/src/main/java/com/example/unitconverter/MainActivity.java:170-181 | a text with several dots leads to the settled text, its conversion and the cursor at the end; otherwise text, result and cursor are unchanged |
| `ConverterScreen.ConverterActivity.SetSelection` | app/src/main/java/com/example/unitconverter/MainActivity.java:163 | `setSelection` moves the cursor to an index within the field's text, and throws, leaving the cursor, for any other index |
| `ConverterScreen.ConverterActivity.Edit` | app/src/main/java/com/example/unitconverter/MainActivity.java:158-181 | an edit of the field keeps the screen's invariant; the field holds the settled text and the result is its conversion |
| `ConverterScreen.ConverterActivity.SetTextAsWritten` | app/src/main/java/com/example/unitconverter/MainActivity.java:158-181 | with the watcher as written, `setText` throws exactly when the text has a foreign character and more than one point; either way the field holds the settled text and the result is its conversion |
| `ConverterScreen.ConverterActivity.OnTextChangedAsWritten` | app/src/main/java/com/example/unitconverter/MainActivity.java:158-167 | `setSelection(filtered.length())` throws exactly when the nested `setText` shortened the field below the filtered text, that is for a dirty text with more than one point |
| `ConverterScreen.ConverterActivity.AfterTextChangedAsWritten` | app/src/main/java/com/example/unitconverter/MainActivity.java:170-181 | `setSelection(corrected.length())` throws exactly for a dirty text with more than one point, a case `onTextChanged` has already thrown on, so in the callback chain it never fires |
| `ConverterScreen.PasteCrashesAsWritten` | app/src/main/java/com/example/unitconverter/MainActivity.java:158-181 | pasting "a1.2.3" into a freshly created screen makes the watcher as written throw |
| `ConverterScreen.NormalizeOfFiltered` | app/src/main/java/com/example/unitconverter/MainActivity.java:160-163 | filtering first does not change the settled text |
| `ImageDetails.Wrap32` | app/src/main/java/com/example/mysnapshot/ImageDetailsActivity.java:63 | Java `int` arithmetic: the result is a 32-bit value congruent to the exact one, and equal to it when no overflow occurs |
| `ImageDetails.JavaDiv` | app/src/main/java/com/example/mysnapshot/ImageDetailsActivity.java:156-157 | Java's `/` on `int` truncates toward zero: the sign follows the dividend, and abs(q)·b ≤ abs(a) < (abs(q)+1)·b |
| `ImageDetails.CalculateInSampleSize` | app/src/main/java/com/example/mysnapshot/ImageDetailsActivity.java:152-167 | the result is a power of two in `int` range; it is 1 when the image already fits; otherwise it is the first power of two at which a half-dimension falls below the request, and every smaller one keeps both |
| `ImageDetails.QuotientIsLargest` | app/src/main/java/com/example/mysnapshot/ImageDetailsActivity.java:161 | a quotient is the largest q with q·s ≤ a |
| `ImageDetails.SampleBelowHalf` | app/src/main/java/com/example/mysnapshot/ImageDetailsActivity.java:161-163 | while both halves still meet the request, the sample size has not passed both half-dimensions, so the loop ends before overflow |
| `ImageDetails.KeepsBothBelow` | app/src/main/java/com/example/mysnapshot/ImageDetailsActivity.java:161 | a sample size that keeps both dimensions makes every smaller one keep them too |
| `ImageDetails.SampleSizeIsFirstFailure` | app/src/main/java/com/example/mysnapshot/ImageDetailsActivity.java:161-163 | every sample size from 1 to half the result keeps both dimensions |
| `ImageDetails.TargetHeightKeepsAspect` | app/src/main/java/com/example/mysnapshot/ImageDetailsActivity.java:62-63 | without overflow, the target height is the screen width scaled by the aspect ratio, rounded down |
| `ImageDetails.TargetHeight` | app/src/main/java/com/example/mysnapshot/ImageDetailsActivity.java:62-63 | the target height is an `int`: the wrapped product divided with truncation stays in 32-bit range |
| `ImageDetails.TargetHeightCanWrap` | app/src/main/java/com/example/mysnapshot/ImageDetailsActivity.java:63 | a 1 × 2000000 image on a 1080-pixel screen makes the product overflow to a negative height |
| `ImageDetails.PrepareImageLoad` | app/src/main/java/com/example/mysnapshot/ImageDetailsActivity.java:52-70 | the fallback icon is used if and only if a decoded dimension is not positive; otherwise the plan has the computed target height and sample size 1, because the fresh `Options` report 0 × 0 |
| `ImageDetails.FormatFileSize` | app/src/main/java/com/example/mysnapshot/ImageDetailsActivity.java:98-107 | the unit is MB above 1048576 bytes, KB above 1024 and bytes otherwise; the amount times the unit's size is the size |
| `ImageDetails.SizeUnitMonotone` | app/src/main/java/com/example/mysnapshot/ImageDetailsActivity.java:101-107 | a larger file never gets a smaller unit |
| `ImageDetails.ScaledAmountInRange` | app/src/main/java/com/example/mysnapshot/ImageDetailsActivity.java:101-104 | a KB or MB amount is above 1, and a KB amount is at most 1024 |
| `ImageDetails.SizeBoundaries` | app/src/main/java/com/example/mysnapshot/ImageDetailsActivity.java:101-107 | 1024 bytes stay bytes, 1025 is KB, 1048576 is 1024 KB, and 1048577 is MB |
| `SnapshotFolders.FolderName` | app/src/main/java/com/example/mysnapshot/MainActivity.java:328-331 | the folder name is never empty: an empty name becomes "Photos", and any other is kept |
| `SnapshotFolders.PathFromUri` | app/src/main/java/com/example/mysnapshot/MainActivity.java:261-317 | a URI that is neither kind, or has no document id, gives the default folder; only a tree URI reaches the storage root; a named app folder has a non-empty name |
| `SnapshotFolders.FolderPath` | app/src/main/java/com/example/mysnapshot/MainActivity.java:319-339 | an app folder's path is the pictures directory, "/" and the folder's name ("MySnapshot" for the default); a sub-path is the external root, "/" and the segment; the root is the external root itself |
| `SnapshotFolders.FolderPathInjective` | app/src/main/java/com/example/mysnapshot/MainActivity.java:319-339 | two app folders, or two sub-paths of the external root, with the same path are the same folder |
| `SnapshotFolders.NamedDefaultIsDefaultFolder` | app/src/main/java/com/example/mysnapshot/MainActivity.java:319-339 | an app folder named "MySnapshot" has the default folder's path |
| `SnapshotFolders.PrimarySegmentIsSubPath` | app/src/main/java/com/example/mysnapshot/MainActivity.java:264-305 | `primary:<segment>` in any case leads to the segment below the external root, for both kinds of URI; only the first segment counts |
| `SnapshotFolders.PrimaryAloneIsRoot` | app/src/main/java/com/example/mysnapshot/MainActivity.java:273-284 | a tree id `primary` or `primary:` is the external root |
| `SnapshotFolders.DocumentPrimaryAloneIsAppFolder` | app/src/main/java/com/example/mysnapshot/MainActivity.java:292-308 | a document id `primary:` gives an app folder named after the volume, and `primary` gives the default folder |
| `SnapshotFolders.OtherVolumeSegmentIsAppFolder` | app/src/main/java/com/example/mysnapshot/MainActivity.java:276-302 | another volume's `type:segment` gives the app folder named after the segment |
| `SnapshotFolders.OtherVolumeAloneIsAppFolder` | app/src/main/java/com/example/mysnapshot/MainActivity.java:276-302 | another volume's `type:` gives the app folder named after the volume |
| `SnapshotFolders.IdWithoutColon` | app/src/main/java/com/example/mysnapshot/MainActivity.java:281-308 | a tree id without a separator names the app folder after itself ("Photos" if empty), and a document id without one gives the default folder |
| `SnapshotFolders.SeparatorsOnlyIsDefault` | app/src/main/java/com/example/mysnapshot/MainActivity.java:268-316 | an id made only of separators makes `split[0]` throw, and the handler gives the default folder |
| `SnapshotFolders.EmptySegmentIsPhotos` | app/src/main/java/com/example/mysnapshot/MainActivity.java:328-331 | an empty segment, as in `sd::x`, gives the folder "Photos" |
| `SnapshotFolders.ResolvedNameIsOnePiece` | app/src/main/java/com/example/mysnapshot/MainActivity.java:268-302 | the segment or folder name chosen never contains the separator |
| `SnapshotFiles.FilterImages` | app/src/main/java/com/example/mysnapshot/MainActivity.java:235-238 | the filtered listing holds exactly the listed entries that are files with an image suffix |
| `SnapshotFiles.ImageNameExtensions` | app/src/main/java/com/example/mysnapshot/MainActivity.java:236-238 | an image name has a '.' four or five characters from its end; every name ending in ".jpg", ".jpeg" or ".png", or in their upper-case forms, is an image name |
| `SnapshotFiles.FilterImagesKeepsOrder` | app/src/main/java/com/example/mysnapshot/MainActivity.java:235-238 | the filtered listing keeps the listing's order |
| `SnapshotFiles.FilterImagesKeepsCounts` | app/src/main/java/com/example/mysnapshot/MainActivity.java:235-238 | each image entry occurs as often as in the listing, and every other entry 0 times |
| `SnapshotFiles.ImageNameIgnoresCase` | app/src/main/java/com/example/mysnapshot/MainActivity.java:236-238 | the image test gives the same answer for a name and its lower-case form |
| `SnapshotFiles.UpperCaseImageNames` | app/src/main/java/com/example/mysnapshot/MainActivity.java:236-238 | "IMG_0001.JPG" and "scan.Jpeg" are images |
| `SnapshotFiles.OtherNamesAreNotImages` | app/src/main/java/com/example/mysnapshot/MainActivity.java:236-238 | "photo.gif" and "jpg" are not |
| `SnapshotFiles.InsertByDate` | app/src/main/java/com/example/mysnapshot/MainActivity.java:245 | inserting into a newest-first list keeps it newest first and adds exactly the one entry |
| `SnapshotFiles.SortNewestFirst` | app/src/main/java/com/example/mysnapshot/MainActivity.java:242-246 | the sorted list is newest first and a permutation of the input |
| `SnapshotFiles.InsertKeepsTimeOrder` | app/src/main/java/com/example/mysnapshot/MainActivity.java:245 | among entries with the inserted entry's timestamp, it goes first; other timestamps are untouched |
| `SnapshotFiles.SortIsStable` | app/src/main/java/com/example/mysnapshot/MainActivity.java:245 | entries with equal timestamps keep the listing's order, as `List.sort` guarantees |
| `SnapshotFiles.SortIsTheStableSort` | app/src/main/java/com/example/mysnapshot/MainActivity.java:245 | any newest-first, stable reordering of the listing equals the model's sort |
| `SnapshotFiles.PhotoFileName` | app/src/main/java/com/example/mysnapshot/MainActivity.java:364-367 | a photo name is the timestamp with 10 characters of prefix and suffix |
| `SnapshotFiles.PhotoNameIsImage` | app/src/main/java/com/example/mysnapshot/MainActivity.java:364-367 | every photo the camera saves passes the grid's image filter |
| `SnapshotFiles.PhotoNameIsInjective` | app/src/main/java/com/example/mysnapshot/MainActivity.java:364-367 | different timestamps give different names |
| `SnapshotScreen.CountedFiles` | app/src/main/java/com/example/mysnapshot/MainActivity.java:550-571 | the number of copied images is at most the number of images |
| `SnapshotScreen.CreatedFiles` | app/src/main/java/com/example/mysnapshot/MainActivity.java:553-571 | a file is created only where none existed |
| `SnapshotScreen.CountedPlusFailedIsTotal` | app/src/main/java/com/example/mysnapshot/MainActivity.java:542-576 | every image is either counted or failed |
| `SnapshotScreen.AllPresentCopiesNothing` | app/src/main/java/com/example/mysnapshot/MainActivity.java:553-556 | when every destination already exists, all are counted and nothing is written |
| `SnapshotScreen.CopyFiles` | app/src/main/java/com/example/mysnapshot/MainActivity.java:542-576 | the count is at most the total and equals it when every copy succeeds; only absent names are created, each once; with distinct names the count and the writes are those of the specification functions |
| `SnapshotScreen.HasPersistedPermission` | app/src/main/java/com/example/mysnapshot/MainActivity.java:459-467 | the scan answers yes if and only if the saved URI is among the persisted permissions, and it stops at the first match |
| `SnapshotScreen.GridShowsImagesNewestFirst` | app/src/main/java/com/example/mysnapshot/MainActivity.java:232-248 | the grid is newest first and holds exactly the folder's image files |
| `SnapshotScreen.Grid` | app/src/main/java/com/example/mysnapshot/MainActivity.java:232-248 | the grid is newest first and is a permutation of the folder's image files |
| `SnapshotScreen.SnapshotActivity.constructor` | app/src/main/java/com/example/mysnapshot/MainActivity.java:438-443 | the activity starts with no folder, an empty grid, no photo and the stored preferences |
| `SnapshotScreen.SnapshotActivity.Restored` | app/src/main/java/com/example/mysnapshot/MainActivity.java:444-483 | a saved path that is an existing directory is restored; otherwise a restored folder is the path of a saved URI that has a persisted permission and exists; nothing is restored exactly when neither holds |
| `SnapshotScreen.SnapshotActivity.SetupDefaultFolder` | app/src/main/java/com/example/mysnapshot/MainActivity.java:510-515 | the default folder becomes the current folder and the saved path |
| `SnapshotScreen.SnapshotActivity.RefreshImages` | app/src/main/java/com/example/mysnapshot/MainActivity.java:232-259 | without a folder, the default one is set up first; the grid shows the folder's images newest first when the folder exists, and stays as it was otherwise |
| `SnapshotScreen.SnapshotActivity.Resume` | app/src/main/java/com/example/mysnapshot/MainActivity.java:430-436 | with an existing current folder, the grid is refreshed; the folder and the saved path never change |
| `SnapshotScreen.SnapshotActivity.LoadSavedFolderPath` | app/src/main/java/com/example/mysnapshot/MainActivity.java:438-492 | the current folder is the restored folder, or the default one; on failure both preferences are cleared and the default path is saved; the grid shows the chosen folder |
| `SnapshotScreen.SnapshotActivity.CopyImagesToLocalFolder` | app/src/main/java/com/example/mysnapshot/MainActivity.java:518-580 | an invalid source changes nothing; otherwise the default folder is current; without images nothing is copied; else the report counts the images and the copies, and the grid shows the default folder after the copies |
| `SnapshotScreen.SnapshotActivity.FolderPicked` | app/src/main/java/com/example/mysnapshot/MainActivity.java:91-125 | a cancelled picker changes nothing; a pick saves the URI and makes the default folder current; an invalid source is reported exactly when the picked folder is not an existing directory, and then the grid is kept; a folder without images reports nothing to copy; otherwise the report counts the images and the copies, and the grid shows the default folder |
| `SnapshotScreen.SnapshotActivity.CreateImageFile` | app/src/main/java/com/example/mysnapshot/MainActivity.java:362-376 | when the folder can be created, the photo path is the current folder plus the photo name, and it is recorded; otherwise nothing is recorded |

## Left out

- Android itself is not modelled: views, adapters, intents, toasts, the camera and the permission request dialogs. Only the state the callbacks update is kept.
- `ConverterScreen.ConverterActivity.SetText`: the cursor a user's own keystroke leaves is modelled as where `setText` leaves it, at 0. Only the absolute `setSelection` calls of the watcher are followed; the position of the caret while typing is framework state.
- `ConverterScreen.ConverterActivity.TypeFromUnit`: free text in the drop-downs is modelled only as a change of the unit name `convert()` reads. The drop-downs' own filtering and completion are framework behaviour.
- `ConverterScreen.ConverterActivity.SelectFromUnit`: after typing into a drop-down its adapter filters the list, so a click position counts in the filtered list while `units[position]` indexes the full array. The model indexes the full `units` only, so the label showing another unit's symbol after filtering is not captured.
- `ConverterScreen.ConverterActivity.Valid`: states the field invariant as a text of digits, '-' and at most one '.', which `NormalizeOfClean` shows is the same as a normalised text.
- Number formatting (`DecimalFormat` in `convert()`, `%.2f` in the size label) is not modelled. The model keeps the value shown, not its text.
- IEEE doubles are not modelled: rates, values and size amounts are exact `real`s. The rounding of `/` and `*` on doubles is left out.
- `UnitConversion.ParseDecimal`: accepts only the forms that `[0-9.-]` text can take, an optional `-`, digits and at most one point. `parseDouble`'s exponents, `Infinity`, `NaN`, hex floats, a leading `+` and the `d`/`f` suffixes cannot survive the input filter. For text set in other ways they are not modelled.
- `JavaStrings.ToLower`: lower-cases ASCII letters only. That is all the filter's suffixes need, but non-ASCII names are not lower-cased the way Java does.
- File I/O is abstracted into `Storage` and `CopyOutcome`: the byte-stream copy, partial files after a failed write, `mkdirs`, `exists` and `setLastModified`.
- `SnapshotScreen.SnapshotActivity.CopyImagesToLocalFolder`: the `after` file system is an input. That it reflects the copies just made is not modelled.
- `SnapshotScreen.SnapshotActivity.FolderPicked`: `disk` is the file system after the callback's `mkdirs` of the picked folder. The `mkdirs` itself and `takePersistableUriPermission` (and its exception) are not modelled.
- `SimpleDateFormat` timestamps are an opaque string parameter of `CreateImageFile`.
- The external storage directory and the app's pictures directory are opaque constructor parameters.
- `getAbsolutePath` normalisation is not modelled. Paths are string concatenations with "/".
- `SnapshotScreen.SnapshotActivity.CreateImageFile`: when there is no current folder the path is the bare name. The Java relative-path resolution against the working directory is not modelled.
- The string resources are not part of the sources, so units are identified by their resource keys ("meters", …). The symbols are "m", "cm", "ft", "in" and "yd".
- `ConverterScreen.KeysInSomeOrder`: the `HashMap` key order is not specified. The method states only that every key occurs once.
- `SnapshotFiles.SortNewestFirst`: `List.sort` (TimSort) is modelled by an insertion sort on sequences. `SortIsTheStableSort` shows that any stable newest-first sort gives the same list.
- The order in which `listFiles` yields entries is an input (the listing sequence).
- `SnapshotFolders.PathFromUri`: the only exception modelled is the `split[0]` of an id without pieces. Exceptions of `DocumentsContract` and of the directory creation are not.
- `ImageDetails.PrepareImageLoad`: requires a positive screen width (`widthPixels`), which the framework guarantees.
- `ImageDetails.CalculateInSampleSize`: requires one positive requested dimension. With both at most 0 the source's loop doubles until the `int` overflows to 0 and then divides by zero. The method's only caller passes a positive width.
- The image's dates in the detail screen, deletion, the grid's item click, `galleryAddPic`/MediaStore updates and the camera intent are not modelled.
- `SettingsActivity` and the `lottieanimation` app are not part of this model.

## Findings

| source | as written | input that shows it | evidently intended | confidence | as-written member | corrected member |
|---|---|---|---|---|---|---|
| app/src/main/java/com/example/unitconverter/MainActivity.java:163 | `onTextChanged` calls `setSelection(filtered.length())` after `setText(filtered)`, whose nested `afterTextChanged` may already have shortened the field below `filtered` | pasting "a1.2.3": the field settles to "1.23" (length 4) while the cursor is set to 5 (`PastedStrayCharacterAndTwoPoints`), so `setSelection` throws `IndexOutOfBoundsException` out of the callback | the cursor at the end of the text the field holds, `setSelection(inputValue1.length())` | not executed | `ConverterScreen.ConverterActivity.SetTextAsWritten`, with the crash in `ConverterScreen.PasteCrashesAsWritten` | `ConverterScreen.ConverterActivity.SetText` |

The same pattern at line 179 (`setSelection(corrected.length())`) throws only for a text that has a foreign character and more than one point. `onTextChanged` has already thrown on such a text, so within the callback chain line 179 never fires (`AfterTextChangedAsWritten`). The corrected model places the cursor at the end of the field in both callbacks.
