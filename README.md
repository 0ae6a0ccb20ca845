# NumberParser — a verified model of the block recognizer

NumberParser reads a text file in which digits are drawn as ASCII art, four rows
high. It prints one line of recognized characters for each group of four content
lines. This project models its core in Dafny:

- **`StringCleaner`** (`StringCleaner.dfy`): tab expansion. Each tab becomes the
  1 to 4 spaces that reach the next multiple of 4 in the output written so far.
  Every other character is copied unchanged.
- **`FileParser`** (`FileParser.dfy`), the block recognizer. It works in five steps:
  1. Lines are tab-expanded and empty lines are dropped.
  2. The line count must be a multiple of the configured glyph height; otherwise
     the result is the line-count error.
  3. The lines are cut into blocks of that height, and each block is right-padded
     to its longest row.
  4. In each block, the columns holding a non-space character are found. Their
     maximal runs become glyph boxes.
  5. Each box's sub-image goes to the configured detection function. When that
     function recognizes nothing, the configured fallback character is used; when
     there is no fallback, nothing is written for that box. The characters of one
     block form one output line.
- **`FourLinesCharacters`** (`FourLinesCharacters.dfy`): the glyph catalog for the
  digits 1 to 5. An image is recognized as the first catalog key whose shape equals
  the image's rows joined by `'\n'`. A blank catalog value is an error.
- **`Text`** (`Text.dfy`): the .NET string operations the core relies on —
  `PadRight`, `string.Join`, `char.IsWhiteSpace` and `string.IsNullOrWhiteSpace`.
  It also holds a `Split` partner that inverts `Join`.
- **`Scenarios`** (`Scenarios.dfy`): end-to-end results under the configuration
  that the command-line tool and the tests use. That configuration is height 4,
  the digit catalog, and `'X'` for an unknown glyph.

## How the model is built

The members of the source that loop are methods with loops:

- `DropTabs`
- `FindChars`
- `FindDataColumns`
- the per-block loop, `RecognizeImageLine`
- the outer loop over the blocks, `RecognizeImageLines`, called by `ParseFile`

`FindImageBoxes` has no loop of its own: it composes `FindDataColumns` and
`FindChars`, as the source does.

Each method is proved equal to a specification function: `TabExpanded`,
`Segments`, `ColumnSignal`, `ImageBoxes`, `RecognizeBlock`, `RecognizeAll` and
`Parse`. The
properties the source relies on are proved as lemmas about those functions. The
C# sequences that are lazily evaluated become `seq` values built in full.

A tab becomes at least one space, so expansion never shortens a line. It does
not always lengthen one, though: `"abc\t"` expands to `"abc "`, which has the same
length (`StringCleaner.TabCanKeepLength`). `StringCleaner.TabExpandedPlacement`
proves the exact bounds:

- a tab becomes 1 to 4 spaces;
- it becomes exactly 4 spaces when it starts on a multiple of 4;
- the output after it always ends on a multiple of 4.

## Model

| member | source | states |
|---|---|---|
| StringCleaner.DropTabs | NumberParser/Infratructure/StringCleaner.cs:8-15 | The loop's result is the left-to-right tab expansion of the line. It contains no tab and is never shorter than the input. |
| StringCleaner.TabExpandedHasNoTab | NumberParser/Infratructure/StringCleaner.cs:11-12 | No tab survives expansion. |
| StringCleaner.TabExpandedLength | NumberParser/Infratructure/StringCleaner.cs:11-12 | Expansion never shortens a line, because each character contributes at least one character. |
| StringCleaner.TabCanKeepLength | NumberParser/Infratructure/StringCleaner.cs:12 | A tab after three characters becomes a single space, so a line with a tab can keep its length. |
| StringCleaner.TabFreeUnchanged | NumberParser/Infratructure/StringCleaner.cs:11-12 | A line without tabs is returned unchanged. |
| StringCleaner.TabExpandedPrefix | NumberParser/Infratructure/StringCleaner.cs:11-12 | The output grows by appending only: expanding a prefix gives a prefix of the output. |
| StringCleaner.TabExpandedPlacement | NumberParser/Infratructure/StringCleaner.cs:12 | A non-tab character is copied to the current output position. A tab becomes between 1 and 4 spaces (exactly 4 at a tab stop), and the output afterwards ends on a multiple of 4. |
| Text.Spaces | NumberParser/Infratructure/StringCleaner.cs:12 | `new string(' ', n)` has length n and holds only spaces. |
| Text.PadRight | NumberParser/FileParser.cs:21 | The result is as long as the row or the target width, whichever is larger. It starts with the row, and every character after the row is a space. |
| Text.JoinSplit | NumberParser/FourLinesCharacters.cs:42 | Cutting a string at its separators and joining the pieces gives the string back. |
| Text.SplitJoin | NumberParser/FourLinesCharacters.cs:42 | Joining one or more rows free of the separator, then cutting at the separator, gives the rows back. |
| FourLinesCharacters.KnownChars | NumberParser/FourLinesCharacters.cs:9-15 | The five catalog entries in insertion order; `KnownCharsWellFormed` states that none is blank and that shapes and keys are distinct. |
| FourLinesCharacters.IsMatch | NumberParser/FourLinesCharacters.cs:37-46 | A blank value is an error, otherwise exact equality with the rows joined by line breaks; `IsMatchRows` states when it holds in terms of the rows. |
| FourLinesCharacters.FirstMatch | NumberParser/FourLinesCharacters.cs:26 | The in-order scan that stops at the first match or the first error; `FirstMatchOutcome` characterises all three outcomes. |
| FourLinesCharacters.FirstMatchOutcome | NumberParser/FourLinesCharacters.cs:26 | The scan gives a key exactly when that key's entry is the first match and every earlier entry was rejected. It gives no character exactly when every entry is rejected. It fails exactly when a blank entry is reached before any match. |
| FourLinesCharacters.KnownCharsOutcome | NumberParser/FourLinesCharacters.cs:9-15 | Over the digit catalog the scan never fails. It finds a key exactly when some shape equals the joined image, and then it finds that shape's key. |
| FourLinesCharacters.KnownCharsWellFormed | NumberParser/FourLinesCharacters.cs:9-15 | No catalog value is blank, and both the shapes and the keys are pairwise distinct. |
| FourLinesCharacters.DetectChar | NumberParser/FourLinesCharacters.cs:23-28 | Detection gives a character exactly when some catalog shape equals the rows joined by line breaks, and then it is that shape's key, one of '1' to '5'. |
| FourLinesCharacters.IsMatchRows | NumberParser/FourLinesCharacters.cs:37-46 | For a non-blank value and rows without line breaks, a match holds exactly when the value, cut at its line breaks, is those rows. A mismatch holds exactly when it is not. |
| FourLinesCharacters.AtMostOneMatch | NumberParser/FourLinesCharacters.cs:9-15 | At most one catalog entry matches any image, so the order of the dictionary cannot change the answer. |
| FourLinesCharacters.ShapesClassifyAsOwnKey | NumberParser/FourLinesCharacters.cs:9-28 | Each catalog shape, cut into its rows, is detected as its own key. |
| FourLinesCharacters.DetectBarsAsOne | NumberParser/FourLinesCharacters.cs:10 | Four single bars are detected as '1'. |
| FileParser.TrueRun | NumberParser/FileParser.cs:74-82 | The length of the run of `true` starting at an index: every entry in it is true, and it ends at the array's end or at a false entry. |
| FileParser.FindChars | NumberParser/FileParser.cs:68-86 | The loop yields exactly the maximal runs of `true` in the signal, in order. |
| FileParser.RunsCover | NumberParser/FileParser.cs:68-86 | An entry from the scan position onwards is true exactly when one of the spans covers it. |
| FileParser.SegmentsBounds | NumberParser/FileParser.cs:70-85 | Every span has positive width and ends inside the array. An empty array gives no spans. |
| FileParser.SegmentsOrderedMaximal | NumberParser/FileParser.cs:74-85 | Spans are in increasing order with a gap between neighbours. Each span is bounded by a false entry or by the array's edge on both sides. |
| FileParser.SegmentsReconstruct | NumberParser/FileParser.cs:68-86 | Marking the columns the spans cover gives back the signal, so the spans are exactly the true entries. |
| FileParser.MaxLength | NumberParser/FileParser.cs:98-101 | The maximum of the row lengths: no row is longer, and some row has exactly that length. |
| FileParser.FindDataColumns | NumberParser/FileParser.cs:95-109 | There is one flag per column up to the longest row of the range. A flag is set exactly when some row in the range has a non-space character in that column. |
| FileParser.PadBlock | NumberParser/FileParser.cs:20-21 | Padding keeps the number of rows and makes every row the same width. |
| FileParser.PadBlockRows | NumberParser/FileParser.cs:20-21 | Each padded row is the original row followed by spaces up to the width of the chunk's longest row. |
| FileParser.PadBlockWidth | NumberParser/FileParser.cs:20-21 | The padded block is exactly as wide as the chunk's longest row. |
| FileParser.PaddedWidth | NumberParser/FileParser.cs:20-21 | In a block whose rows share one width, that width is the longest row's. |
| FileParser.PadBlockKeepsPadded | NumberParser/FileParser.cs:20-21 | A block whose rows already have equal width is unchanged by padding. |
| FileParser.Chunk | NumberParser/FileParser.cs:18 | Every chunk is non-empty and no taller than the glyph height. |
| FileParser.ChunkConcat | NumberParser/FileParser.cs:18 | Concatenating the chunks gives back the lines, so none is lost, duplicated or reordered. |
| FileParser.ChunkCount | NumberParser/FileParser.cs:15-18 | When the count check passes, there are count/height chunks of exactly the glyph height each. |
| FileParser.ChunkAppend | NumberParser/FileParser.cs:18 | Chunking a whole number of groups followed by more lines chunks each part separately. |
| FileParser.ImageLines | NumberParser/FileParser.cs:18-22 | There is one padded block per chunk, with as many rows as that chunk. |
| FileParser.Slice | NumberParser/FileParser.cs:31-34 | The box content has one row per block row. Each row is exactly the box's width long, and its j-th character is the block row's character at the box's start plus j. |
| FileParser.Resolve | NumberParser/FileParser.cs:36-38 | The box's detected character, or else the fallback character; `ClassifyStep` states what the loop then appends. |
| FileParser.BoxesFit | NumberParser/FileParser.cs:28-33 | In a padded block every box lies inside every row, so the `Substring` calls are in range. |
| FileParser.BlankColumnOutsideBoxes | NumberParser/FileParser.cs:55-61 | A column without ink in any row lies in no box, so blank columns separate glyphs. |
| FileParser.FindImageBoxes | NumberParser/FileParser.cs:55-61 | The boxes are the maximal ink-column runs of the whole block. |
| FileParser.Classify | NumberParser/FileParser.cs:29-42 | Each box contributes at most one character. With a fallback character, it contributes exactly one: the detected one, or else the fallback. |
| FileParser.ClassifyAppend | NumberParser/FileParser.cs:29-42 | The boxes are classified one after the other: the line for two lists of boxes is the concatenation of their lines. |
| FileParser.ClassifyStep | NumberParser/FileParser.cs:36-41 | Handling one more box appends that box's detected or fallback character, or nothing when both are absent. |
| FileParser.RecognizeImageLine | NumberParser/FileParser.cs:26-44 | The inner loop's string is the block's recognized line. |
| FileParser.RecognizeImageLines | NumberParser/FileParser.cs:24-45 | The outer loop produces one recognized line per block, in block order. |
| FileParser.Normalize | NumberParser/FileParser.cs:119-123 | The lines after tab expansion with the empty ones removed; `NormalizeClean`, `NormalizeKeepsCleanLines` and `NormalizeAppend` state its behaviour. |
| FileParser.NormalizeClean | NumberParser/FileParser.cs:117-126 | Every normalized line is non-empty and free of tabs. |
| FileParser.NormalizeKeepsCleanLines | NumberParser/FileParser.cs:119-123 | Non-empty lines without tabs pass through normalization unchanged. |
| FileParser.NormalizeAppend | NumberParser/FileParser.cs:119-123 | Normalization works line by line: it distributes over concatenation. |
| FileParser.ParserConfiguration | NumberParser/FileParser.cs:131-141 | The glyph height, the detection delegate from an image to an optional character, and the optional fallback character. |
| FileParser.ParseError.Message | NumberParser/FileParser.cs:16 | The line-count message; `MessageStart` and `NatToString` state its prefix and its rendering of the height. |
| FileParser.NatToString | NumberParser/FileParser.cs:16 | Rendering the height in the message gives a non-empty string of decimal digits whose value is the height. |
| FileParser.MessageStart | NumberParser/FileParser.cs:16 | The error message starts with "The number of lines with content". |
| FileParser.ParseLinePerBlock | NumberParser/FileParser.cs:14-45 | On success there is one output line per block, and count/height lines in total. The k-th line is the recognition of the k-th padded block. |
| FileParser.ParseIndependentGroups | NumberParser/FileParser.cs:14-45 | After a whole number of groups, the rest of a file is parsed independently: the output is the first part's lines followed by the rest's, or the rest's error. |
| FileParser.ParseAppendWhole | NumberParser/FileParser.cs:14-45 | Two files of whole groups each, parsed together, give the first file's lines followed by the second's. |
| FileParser.ParseAppendBroken | NumberParser/FileParser.cs:15-16 | When the second part of a file breaks the line count, the whole file gets the line-count error. |
| FileParser.ParseFile | NumberParser/FileParser.cs:11-46 | The method's result is the specification's. It fails exactly when the count of content lines is not a multiple of the height, and on success it has count/height lines. |
| Scenarios.ParseOne | NumberParserTests/Unit/FileParserTests.cs:13 | A file of four single bars parses to the one line "1". |
| Scenarios.ParseFourFiveUnknown | NumberParserTests/Unit/FileParserTests.cs:20 | A four, a five and an unrecognized glyph, separated by blank columns, parse to "45X". |
| Scenarios.ParseRepeated | NumberParser/FileParser.cs:24-45 | A file that parses, written twice, parses to its own lines twice. |
| Scenarios.ParseFourFiveOne | NumberParser/FileParser.cs:14-45 | One group of a four, a five and a one, separated by blank columns, parses to "451". It is the one-group building block of `ParseTwoGroups`. |
| Scenarios.ParseTwoGroups | NumberParserTests/Unit/FileParserTests.cs:19 | Two four-five-one groups of four lines give the two output lines "451" and "451", as the expectation "451\n451" requires. |
| Scenarios.ParseRejectsFiveLines | NumberParserTests/Unit/FileParserTests.cs:45-65 | Five content lines at height 4 give the line-count error. |

## Left out

- File reading (`File.ReadAllLines`) is not modelled. `FileParser.ParseFile` takes the lines of the file as its input.
- The program's entry point (`Program.Main`) and its console output are not modelled. Its configuration is `Scenarios.DigitConfig`.
- Lazy evaluation is not modelled. In the C# code, the line-count error surfaces only when the result sequence is first enumerated. The model returns the error directly, as a `Failure`.
- C# `null` strings and arrays are not modelled. Every string in the model is a value.
- An unset `DetectionAlgorithm` is not modelled. It is `null` by default (`FileParser.cs:135`), and C# then throws `NullReferenceException` at the first box. In the model the detection function is always present.
- A zero or negative `LineHeight` is excluded by a precondition. In C#, zero makes `%` throw `DivideByZeroException`. A negative height gives the line-count error when the count is not a multiple of it (`5 % -4 == 1`, so the message names -4). Otherwise, including an empty file, `Chunk` throws `ArgumentOutOfRangeException`.
- `MaxLength` and `FindDataColumns` require a non-empty range of rows. `Max` throws on an empty sequence, and the core never calls them with one.
- `DetectChar` treats a key of `'\0'` as "no match", because `FirstOrDefault` returns that on no match. This is not modelled, since no catalog key is `'\0'`.
- `Dictionary` enumeration order is taken to be insertion order. `FourLinesCharacters.AtMostOneMatch` shows the order cannot change the answer.
- The contents of the sample files used by the tests are not part of this model. The scenario images in `Scenarios.dfy` are glyphs drawn from the catalog shapes.
- Characters outside the Basic Multilingual Plane are not modelled as .NET counts them. A Dafny `char` is a Unicode scalar value, so such a character takes one position in the model. .NET `string.Length`, indexing, `Substring` and `StringBuilder.Length` count UTF-16 code units, so in the source it takes two. Positions, widths and tab stops after such a character differ. For example, `"\U{1F600}\t"` expands to the emoji and 3 spaces in the model, but to the emoji and 2 spaces in the source.
- The detection delegate is a total Dafny function. An exception thrown inside it is not modelled.
- Only the message's prefix and its rendering of the height are stated. The exception type is the `ParseError` datatype.
