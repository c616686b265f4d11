# FilterCriteriaParser string handling, in Dafny

`FilterCriteriaParser` (word-games-common) turns two kinds of URL
parameters into Hibernate queries. This project models its two hand-written
string transforms and proves what they do:

- **`unescape`** turns the URL spelling of a filter into its canonical
  spelling. A URL uses a dash where the filter has a space and a doubled
  dash where it has a dash. The Java code makes three whole-string passes:
  every `--` becomes a tab, every remaining `-` becomes a space, and every
  tab becomes `-`.
- **`order`** compiles a sort expression such as `Dtitle-AcolumnCount`
  into (direction, property) entries. `null` gives no entries. The empty
  string fails. Otherwise the expression is split on dashes with Java
  `String.split` semantics. Each part must be at least two UTF-16 code
  units long, as Java's `length()` counts them, and start with `D` or `A`.

Files:

- `wrappers.dfy`: `Option` (Java `null`) and `Result` (a thrown exception).
- `java_strings.dfy`: the `java.lang.String` operations the code uses.
  - `length()`, which counts UTF-16 code units.
  - `replaceAll` with the literal pattern `--`: left to right, no overlap.
  - `replace(char, char)`.
  - `split` on one character with no limit: no match gives `{s}`; otherwise
    leading empty parts are kept and trailing ones dropped.
  - Lemmas about `split`.
- `filter_criteria_parser.dfy`:
  - `Unescape`;
  - the `Order` method, which fills an array index by index as the Java
    loop does;
  - `OrderSpec`, the reference function `Order` is proved to compute.
- `unescape_properties.dfy`:
  - a one-pass reading of the URL spelling, and proofs that the three
    passes compute it;
  - concatenation, identity and preserved characters;
  - the escaping the class comment describes, how `Unescape` undoes it,
    and where it is ambiguous.
- `documentation_example.dfy`: the example in the class comment. The URL
  spelling at line 20 unescapes to the filter at line 16.
- `order_properties.dfy`: properties and examples of `order`.

## Model

Source paths are relative to the repository root of the modelled project.

| member | source | states |
|---|---|---|
| FilterCriteriaParser.Unescape | src/main/java/org/entitypedia/games/common/service/filter/FilterCriteriaParser.java:90-92 | The output never contains a tab. Its length is the input length minus the number of `--` pairs the first pass replaces. |
| JavaStrings.ReplaceAllPairs | src/main/java/org/entitypedia/games/common/service/filter/FilterCriteriaParser.java:91 | `replaceAll("--", "\t")` matches left to right without overlap: the result is one character shorter per match. |
| JavaStrings.ReplaceChar | src/main/java/org/entitypedia/games/common/service/filter/FilterCriteriaParser.java:91 | `replace(from, to)` keeps the length and leaves no `from` behind. |
| JavaStrings.ReplaceCharAt | src/main/java/org/entitypedia/games/common/service/filter/FilterCriteriaParser.java:91 | `replace` maps each position on its own: `from` becomes `to`, every other character stays. |
| UnescapeProperties.UnescapeIsOnePass | src/main/java/org/entitypedia/games/common/service/filter/FilterCriteriaParser.java:91 | The three passes equal one left-to-right reading: `--` is a dash, any other dash a space, a tab a dash, anything else itself. |
| UnescapeProperties.UnescapeConcat | src/main/java/org/entitypedia/games/common/service/filter/FilterCriteriaParser.java:91 | Unescaping distributes over concatenation when the first string does not end with a dash. |
| UnescapeProperties.UnescapeDoubledDash | src/main/java/org/entitypedia/games/common/service/filter/FilterCriteriaParser.java:91 | `"a--b"` unescapes to `"a-b"`. |
| UnescapeProperties.UnescapeSingleDash | src/main/java/org/entitypedia/games/common/service/filter/FilterCriteriaParser.java:91 | `"a-b"` unescapes to `"a b"`. |
| UnescapeProperties.UnescapeThreeDashes | src/main/java/org/entitypedia/games/common/service/filter/FilterCriteriaParser.java:91 | `"---"` unescapes to `"- "`: the first two dashes pair up. |
| UnescapeProperties.UnescapeMixed | src/main/java/org/entitypedia/games/common/service/filter/FilterCriteriaParser.java:91 | `"a--b-c"` unescapes to `"a-b c"`. |
| UnescapeProperties.UnescapeInputTab | src/main/java/org/entitypedia/games/common/service/filter/FilterCriteriaParser.java:91 | A tab already in the input comes out as a dash: `"a\tb"` gives `"a-b"`. |
| UnescapeProperties.UnescapeIdentity | src/main/java/org/entitypedia/games/common/service/filter/FilterCriteriaParser.java:91 | An input with no dash and no tab is returned unchanged. |
| UnescapeProperties.DecodeSurfaceKeepsOtherCharacters | src/main/java/org/entitypedia/games/common/service/filter/FilterCriteriaParser.java:91 | The one-pass reading keeps every character other than dash, space and tab, in order. |
| UnescapeProperties.UnescapeKeepsOtherCharacters | src/main/java/org/entitypedia/games/common/service/filter/FilterCriteriaParser.java:91 | `Unescape` keeps every character other than dash, space and tab, in order. |
| UnescapeProperties.UnescapeInvertsEscape | src/main/java/org/entitypedia/games/common/service/filter/FilterCriteriaParser.java:18 | Write a filter with a dash for each space and a doubled dash for each dash. `Unescape` gives the filter back, provided it has no tab and no space followed by a space or a dash. |
| UnescapeProperties.EscapeInvertsUnescape | src/main/java/org/entitypedia/games/common/service/filter/FilterCriteriaParser.java:18 | Every URL spelling without spaces or tabs is the escaping of what it unescapes to. |
| UnescapeProperties.EscapeAmbiguity | src/main/java/org/entitypedia/games/common/service/filter/FilterCriteriaParser.java:18 | Two spellings collide. `" -"` and `"- "` both escape to `"---"`, which unescapes to `"- "`. Two spaces and one dash both escape to `"--"`. |
| UnescapeProperties.UnescapeSpelledPieces | src/main/java/org/entitypedia/games/common/service/filter/FilterCriteriaParser.java:18-20 | Non-empty words without dashes or tabs, each written after one dash (a space) or two (a dash), unescape to the words with those separators. |
| DocumentationExample.UnescapeDocumentationExample | src/main/java/org/entitypedia/games/common/service/filter/FilterCriteriaParser.java:14-20 | The URL spelling at line 20 unescapes to exactly the filter at line 16. Both lines are written as the same six stretches. |
| JavaStrings.Utf16Length | src/main/java/org/entitypedia/games/common/service/filter/FilterCriteriaParser.java:60 | `length()` counts UTF-16 code units: at least one per character and at most two. |
| JavaStrings.Utf16LengthBasicPlane | src/main/java/org/entitypedia/games/common/service/filter/FilterCriteriaParser.java:66 | A string with no supplementary characters has one code unit per character. |
| JavaStrings.Utf16LengthSupplementary | src/main/java/org/entitypedia/games/common/service/filter/FilterCriteriaParser.java:66 | A string with a supplementary character has more code units than characters. |
| JavaStrings.Utf16LengthConcat | src/main/java/org/entitypedia/games/common/service/filter/FilterCriteriaParser.java:66 | The code units of a concatenation are those of its two halves added together. |
| JavaStrings.Pieces | src/main/java/org/entitypedia/games/common/service/filter/FilterCriteriaParser.java:59 | The pieces between dashes: at least one piece, none containing a dash, joining them gives the string back. |
| JavaStrings.DropTrailingEmpty | src/main/java/org/entitypedia/games/common/service/filter/FilterCriteriaParser.java:59 | The result is a prefix of the input. Everything removed is empty, and the last part kept is not empty. |
| JavaStrings.Split | src/main/java/org/entitypedia/games/common/service/filter/FilterCriteriaParser.java:59 | `split("-")`: without a dash the string itself is the only part. Otherwise the result is the pieces minus the trailing empty ones. No part contains a dash. |
| JavaStrings.SplitSeparatorAtEnd | src/main/java/org/entitypedia/games/common/service/filter/FilterCriteriaParser.java:59 | A dash at the end of a non-empty string changes nothing. |
| JavaStrings.SplitOnlySeparators | src/main/java/org/entitypedia/games/common/service/filter/FilterCriteriaParser.java:59 | A non-empty string of dashes splits into no parts. |
| JavaStrings.SplitEmptyOnlyForSeparators | src/main/java/org/entitypedia/games/common/service/filter/FilterCriteriaParser.java:59 | Only a string of dashes splits into no parts. |
| JavaStrings.SplitKeepsPiece | src/main/java/org/entitypedia/games/common/service/filter/FilterCriteriaParser.java:59 | Every piece up to the last non-empty one is kept, unchanged and in place. |
| JavaStrings.SplitOfJoin | src/main/java/org/entitypedia/games/common/service/filter/FilterCriteriaParser.java:59 | Dash-free parts whose last part is non-empty, joined with dashes, split back into themselves. |
| FilterCriteriaParser.EntryOf | src/main/java/org/entitypedia/games/common/service/filter/FilterCriteriaParser.java:69-77 | A valid part is its direction letter (`D` for descending, `A` for ascending) followed by the property, taken verbatim. |
| FilterCriteriaParser.PartError | src/main/java/org/entitypedia/games/common/service/filter/FilterCriteriaParser.java:65-85 | An invalid part is too short exactly when it has fewer than two UTF-16 code units, so length is checked before the prefix. Otherwise its prefix is bad. The error names the part. |
| FilterCriteriaParser.Message | src/main/java/org/entitypedia/games/common/service/filter/FilterCriteriaParser.java:61-84 | The empty-expression message is a fixed text. The other messages start with the fixed text for their kind of failure and end with the offending part. |
| FilterCriteriaParser.MessageInjective | src/main/java/org/entitypedia/games/common/service/filter/FilterCriteriaParser.java:61-84 | Different failures give different messages, so a message identifies both the failure and the part. |
| FilterCriteriaParser.CompilePartsMeaning | src/main/java/org/entitypedia/games/common/service/filter/FilterCriteriaParser.java:63-86 | Compilation succeeds exactly when every part is valid, giving one entry per part in order. Otherwise it fails with the error of the first invalid part. |
| FilterCriteriaParser.CompilePartsFails | src/main/java/org/entitypedia/games/common/service/filter/FilterCriteriaParser.java:64-85 | The loop stops at the first invalid part, with that part's error. |
| FilterCriteriaParser.CompilePartsSucceeds | src/main/java/org/entitypedia/games/common/service/filter/FilterCriteriaParser.java:63-87 | When every part is valid, the result holds exactly the parts' entries. |
| FilterCriteriaParser.OrderSpecMeaning | src/main/java/org/entitypedia/games/common/service/filter/FilterCriteriaParser.java:55-88 | `null` gives no entries and `""` fails as empty. Any other expression succeeds exactly when all split parts are valid: one entry per part, `property` the rest of the part, `Desc` exactly for `D`. Otherwise it fails on the first invalid part. |
| FilterCriteriaParser.Order | src/main/java/org/entitypedia/games/common/service/filter/FilterCriteriaParser.java:55-88 | The method fills an array index by index and returns early on a bad part. Its result equals `OrderSpec`. The loop invariant says every entry filled so far is its part's entry. |
| OrderProperties.OrderSeparatorAtEnd | src/main/java/org/entitypedia/games/common/service/filter/FilterCriteriaParser.java:59 | A trailing dash on a non-empty expression does not change the result. |
| OrderProperties.OrderOnlyDashes | src/main/java/org/entitypedia/games/common/service/filter/FilterCriteriaParser.java:59-64 | An expression of dashes only gives no entries and no error. |
| OrderProperties.OrderLeadingDash | src/main/java/org/entitypedia/games/common/service/filter/FilterCriteriaParser.java:65-68 | A leading dash followed by some non-dash character fails with an empty part that is too short. |
| OrderProperties.OrderDoubledDash | src/main/java/org/entitypedia/games/common/service/filter/FilterCriteriaParser.java:65-68 | A doubled dash after a valid first part without dashes, followed by some non-dash character, fails with an empty part that is too short. |
| OrderProperties.OrderSinglePart | src/main/java/org/entitypedia/games/common/service/filter/FilterCriteriaParser.java:59-77 | A valid dash-free part gives its one entry, with or without a trailing dash. |
| OrderProperties.OrderTwoParts | src/main/java/org/entitypedia/games/common/service/filter/FilterCriteriaParser.java:59-77 | Two valid dash-free parts joined by a dash give their two entries, in order. |
| OrderProperties.OrderSupplementaryPart | src/main/java/org/entitypedia/games/common/service/filter/FilterCriteriaParser.java:66-85 | A part made of one supplementary character is two code units long. It passes the length test and fails the prefix test with `BadPrefix`. |
| OrderProperties.OrderOfRender | src/main/java/org/entitypedia/games/common/service/filter/FilterCriteriaParser.java:55-88 | A non-empty list of entries with non-empty, dash-free properties is written out as an expression. Compiling it gives the list back. |
| OrderProperties.OrderEntriesExpressible | src/main/java/org/entitypedia/games/common/service/filter/FilterCriteriaParser.java:66-77 | Every property `order` produces is non-empty and contains no dash. |
| OrderProperties.OrderRenderNormalises | src/main/java/org/entitypedia/games/common/service/filter/FilterCriteriaParser.java:55-88 | Write out the entries of an accepted expression and compile again: the result is the same. |
| OrderProperties.OrderEmptyExample | src/main/java/org/entitypedia/games/common/service/filter/FilterCriteriaParser.java:56-61 | `null` gives no entries, while `""` fails with the empty-expression error. |
| OrderProperties.OrderTwoPartsExample | src/main/java/org/entitypedia/games/common/service/filter/FilterCriteriaParser.java:71-77 | `"Dtitle-AcolumnCount"` gives `[(Desc, "title"), (Asc, "columnCount")]`. |
| OrderProperties.OrderLoneDashExample | src/main/java/org/entitypedia/games/common/service/filter/FilterCriteriaParser.java:59-64 | `"-"` gives no entries and no error. |
| OrderProperties.OrderTrailingDashExample | src/main/java/org/entitypedia/games/common/service/filter/FilterCriteriaParser.java:59-64 | `"Atitle-"` gives the single entry `(Asc, "title")`. |
| OrderProperties.OrderShortPartExample | src/main/java/org/entitypedia/games/common/service/filter/FilterCriteriaParser.java:66-68 | `"X"` fails as too short; length is checked before the prefix. |
| OrderProperties.OrderLowerCasePrefixExample | src/main/java/org/entitypedia/games/common/service/filter/FilterCriteriaParser.java:83-85 | `"dtitle"` fails with a bad prefix: the check is case-sensitive. |
| OrderProperties.OrderDoubledDashExample | src/main/java/org/entitypedia/games/common/service/filter/FilterCriteriaParser.java:65-68 | `"Aa--Db"` fails because its empty middle part is too short. |
| OrderProperties.OrderLeadingDashExample | src/main/java/org/entitypedia/games/common/service/filter/FilterCriteriaParser.java:65-68 | `"-Aa"` fails because its empty first part is too short. |
| OrderProperties.OrderEmojiExample | src/main/java/org/entitypedia/games/common/service/filter/FilterCriteriaParser.java:66-85 | `"\U{1F600}"` is one character but two code units. It fails with a bad prefix, not as too short. |

## Left out

- `parse` (lines 41-53) is not modelled. It feeds the unescaped filter to ANTLR-generated lexer and parser classes and a visitor, and most of those are not shown.
- The two generated `FilterLexer` classes are not modelled. Their behaviour lives in serialized automata run by the ANTLR runtime.
- Hibernate is not modelled. `Order.asc` and `Order.desc` become the `OrderEntry` datatype. `OrderParsingException` becomes the `OrderError` value, and `Message` gives its texts.
- Order: the method allocates and fills an array as the source does, but returns the array's contents as a sequence. The identity of the array is not modelled, and neither is the `EMPTY_ORDER` object shared by all `null` calls (line 39).
- Unescape: a `null` filter, which makes Java throw a `NullPointerException`, is not modelled. Only `parse` calls `unescape`, and `parse` is left out.
- JavaStrings.ReplaceAllPairs: models `replaceAll` only for a pattern of one character twice. Only that pattern occurs, and no general regular-expression engine is modelled.
- Java strings are modelled as sequences of Unicode characters. The length tests at lines 60 and 66 use `Utf16Length`, which counts UTF-16 code units as Java does. `charAt(0)` and `substring(1)` are applied only after `charAt(0)` has been found to be `D` or `A`, which are single code units, so they agree with `p[0]` and `p[1..]`. When `charAt(0)` is a high surrogate, the prefix test fails just as a `p[0]` outside `D` and `A` does. The dash, the space and the tab are single code units and are never part of a surrogate pair, so the three passes and the split act the same on code units as on characters. Unpaired surrogates are not modelled, because a Dafny `char` is a Unicode scalar value.
- The empty-expression check at line 60 is reachable. `"".split("-")` returns one empty part, so the part count is never zero, but the check tests the input's length, so `""` fails. The model follows the code (`OrderEmptyExample`).
- UnescapeKeepsOtherCharacters: spaces are erased along with dashes and tabs, because `unescape` also writes spaces where the input had dashes. Position by position, `UnescapeIsOnePass` gives the exact result.
- Escape: the escaping the class comment describes (line 18) appears only in that comment, not in the code. The model defines it just so that `UnescapeInvertsEscape` and `EscapeAmbiguity` can state how `Unescape` undoes it.
