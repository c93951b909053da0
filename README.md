# DataHelpers text preprocessing, modelled in Dafny

This project models the text preprocessing of the TensorFlow.NET text
classification examples, `DataHelpers` in
`src/TensorFlowNET.Examples/TextProcessing/DataHelpers.cs`. It covers
these routines:

- `clean_str` blanks every character outside `[A-Za-z0-9(),!?]`, and
  every comma (module `TextCleaning`).
- `build_word_dict` builds the word vocabulary (module `WordVocabulary`):
  - `<pad>` = 0, `<unk>` = 1, `<eos>` = 2;
  - then every cleaned word longer than one character, ordered by
    descending count;
  - words of equal count stay in the order of their first appearance.
- `build_word_dataset` builds a matrix of word indices with one row per
  line (module `WordDataset`):
  - each row holds the tokens of the cleaned line followed by `<eos>`,
    cut to the row width;
  - unknown words become `<unk>`;
  - cells past the last token are `<eos>`;
  - each line's label is the number before its first comma, minus one.
- `build_char_dataset` builds a matrix of character indices (modules
  `CharVocabulary` and `CharDataset`):
  - the dictionary holds `<pad>`, `<unk>` and a 68-character alphabet;
  - each row is the lowered third field of a DBpedia CSV line without its
    closing quote;
  - characters outside the alphabet become `<unk>`;
  - cells past the end are `<pad>`;
  - the label is the first field;
  - the model also includes the progress percentages the loop prints.
- The second step of `CalculateMD5Hash`: the digest bytes written as
  uppercase hexadecimal (module `HexDigest`).

The file system is replaced by parameters. Each routine takes the lines
of the file instead of its path, and MD5 takes the digest bytes.

A .NET exception is modelled as an `Err` of `Results.Result`, naming the
exception kind. When several steps could throw, the first one in program
order decides the exception:

- allocating an array with a negative dimension: `Overflow`;
- a missing dictionary key: `KeyNotFound`;
- `parts[2]` or `contents[i]` out of range: `IndexOutOfRange`;
- `Substring(0, -1)`: `ArgumentOutOfRange`;
- `int.Parse`: `Format` or `Overflow`;
- `% tenth` with `tenth == 0`: `DivideByZero`.

Two behaviours of `build_char_dataset` are modelled as written:

- With 1 to 9 rows, `tenth` is 0 and the first `(i + 1) % tenth` throws.
- The printed percentage goes past 100% exactly when the row count's
  remainder by ten is at least `tenth`. With 11 rows it reaches 110%, with
  19 rows 190%, while 21 rows stop at 100%.

Both are stated in the contracts (`CharDataset.EncodeRows`,
`CharDataset.PercentCountBounds`, `CharDataset.PercentCountPast100`).

The shared building blocks live in their own modules:

- `Results`: the exception model, the dictionary indexer, LINQ
  `Select(...).ToArray()` and counted loops that can throw.
- `Sequences`: first positions, and dictionaries filled by
  `d[k] = d.Count`.
- `Strings`: ordinal `Split`, `IndexOf` and ASCII `ToLower`.
- `Int32Text`: `Int32.Parse`, `ToString` and unchecked Int32 wrap-around.

## Model

Every source cell below is a range of `src/TensorFlowNET.Examples/TextProcessing/DataHelpers.cs`.

| member | source | states |
|---|---|---|
| Results.SelectAll | src/TensorFlowNET.Examples/TextProcessing/DataHelpers.cs:57 | `Select(f).ToArray()` succeeds exactly when `f` succeeds on every element; the result has one entry per element, each `f` of that element |
| Results.SelectAllFirstError | src/TensorFlowNET.Examples/TextProcessing/DataHelpers.cs:57 | when `Select(...).ToArray()` throws, the exception is the one of the first element that throws |
| Results.Tabulate | src/TensorFlowNET.Examples/TextProcessing/DataHelpers.cs:82-101 | a counted loop over 0 .. n - 1 that completes yields exactly n results |
| Results.TabulateAll | src/TensorFlowNET.Examples/TextProcessing/DataHelpers.cs:82-101 | the loop completes exactly when no step throws, and result i is then what step i computed |
| Results.TabulateStop | src/TensorFlowNET.Examples/TextProcessing/DataHelpers.cs:82-101 | a step that throws after successful steps ends the loop with its exception, however many steps follow |
| Sequences.ConcatMapMembers | src/TensorFlowNET.Examples/TextProcessing/DataHelpers.cs:20-22 | an item is in the list built by repeated AddRange exactly when one of the added parts holds it |
| Sequences.PositionMapIndices | src/TensorFlowNET.Examples/TextProcessing/DataHelpers.cs:28-33 | a dictionary numbered by insertion position over distinct keys has one entry per key, the key at position v is numbered v, all numbers lie in 0 .. Count - 1 and no two keys share one |
| Sequences.HoldsNext | src/TensorFlowNET.Examples/TextProcessing/DataHelpers.cs:32-33 | inserting the next key under `d.Count` keeps the dictionary equal to the numbering of the keys inserted so far |
| Sequences.HoldsAll | src/TensorFlowNET.Examples/TextProcessing/DataHelpers.cs:28-33 | once every key is in, the dictionary is the position numbering of the insertion order |
| Strings.Find | src/TensorFlowNET.Examples/TextProcessing/DataHelpers.cs:90 | the ordinal search returns the first position where the separator occurs, or none when it never occurs |
| Strings.FindFirst | src/TensorFlowNET.Examples/TextProcessing/DataHelpers.cs:90 | an occurrence with no earlier occurrence is the one the search reports |
| Strings.Split | src/TensorFlowNET.Examples/TextProcessing/DataHelpers.cs:44 | `String.Split` always returns at least one piece |
| Strings.SplitJoin | src/TensorFlowNET.Examples/TextProcessing/DataHelpers.cs:22 | joining the pieces of a split with the separator gives back the input |
| Strings.SplitPiecesFree | src/TensorFlowNET.Examples/TextProcessing/DataHelpers.cs:22 | no piece of a split contains the separator |
| Strings.SplitAround | src/TensorFlowNET.Examples/TextProcessing/DataHelpers.cs:44 | splitting `a + sep + b` on a one-character separator gives the pieces of `a` followed by the pieces of `b` |
| Strings.SplitFirstPiece | src/TensorFlowNET.Examples/TextProcessing/DataHelpers.cs:90 | text before the first separator is the first piece, and the rest is split on |
| Strings.SplitWhole | src/TensorFlowNET.Examples/TextProcessing/DataHelpers.cs:90 | text without the separator splits into itself alone |
| Strings.IndexOfChar | src/TensorFlowNET.Examples/TextProcessing/DataHelpers.cs:57 | `IndexOf(',')` is the first position holding a comma, and is absent (-1 in .NET) exactly when there is no comma |
| Strings.IndexOfCharAt | src/TensorFlowNET.Examples/TextProcessing/DataHelpers.cs:57 | a position holding a comma with none before it is the one `IndexOf` returns |
| Strings.ToLowerAppend | src/TensorFlowNET.Examples/TextProcessing/DataHelpers.cs:90 | lowering distributes over concatenation |
| TextCleaning.CleanStr | src/TensorFlowNET.Examples/TextProcessing/DataHelpers.cs:139-144 | `clean_str`, the two replacements of lines 141 and 142 in turn, keeps the length, keeps letters, digits and `()!?` in place and blanks every other character |
| TextCleaning.CleanStrOutput | src/TensorFlowNET.Examples/TextProcessing/DataHelpers.cs:139-144 | the cleaned text holds only word characters and spaces |
| TextCleaning.CleanStrIdempotent | src/TensorFlowNET.Examples/TextProcessing/DataHelpers.cs:139-144 | cleaning cleaned text changes nothing |
| Int32Text.Wrap32 | src/TensorFlowNET.Examples/TextProcessing/DataHelpers.cs:57 | unchecked Int32 arithmetic gives the Int32 congruent to the exact result modulo 2^32, and the exact result itself when it fits |
| Int32Text.SkipLeadingWhiteSpec | src/TensorFlowNET.Examples/TextProcessing/DataHelpers.cs:100 | the leading white space `int.Parse` skips is exactly the white prefix |
| Int32Text.SkipTrailingWhiteSpec | src/TensorFlowNET.Examples/TextProcessing/DataHelpers.cs:100 | the trailing white space `int.Parse` skips is exactly the white suffix |
| Int32Text.ParseWellFormed | src/TensorFlowNET.Examples/TextProcessing/DataHelpers.cs:100 | `int.Parse` of white space, an optional `+` or `-`, decimal digits (leading zeros allowed), white space and trailing `\0` characters returns the signed value of the digits when it is an Int32, and throws OverflowException otherwise |
| Int32Text.NatDigits | src/TensorFlowNET.Examples/TextProcessing/DataHelpers.cs:100 | the printed digits of a number are decimal digits whose value is that number |
| Int32Text.ParsePrinted | src/TensorFlowNET.Examples/TextProcessing/DataHelpers.cs:100 | `int.Parse` gives back every Int32 that `ToString` printed |
| Int32Text.ParseBlank | src/TensorFlowNET.Examples/TextProcessing/DataHelpers.cs:100 | empty or all-white text throws FormatException |
| WordVocabulary.LongTokensMembers | src/TensorFlowNET.Examples/TextProcessing/DataHelpers.cs:22 | `Where(x => x.Length > 1)` keeps exactly the tokens longer than one character |
| WordVocabulary.AllWordsMembers | src/TensorFlowNET.Examples/TextProcessing/DataHelpers.cs:20-22 | a word is in `words` exactly when some line contributes it |
| WordVocabulary.Distinct | src/TensorFlowNET.Examples/TextProcessing/DataHelpers.cs:23 | the GroupBy keys are distinct and are exactly the words of the list |
| WordVocabulary.DistinctOrder | src/TensorFlowNET.Examples/TextProcessing/DataHelpers.cs:23 | GroupBy lists one key before another exactly when its first occurrence in the words comes first |
| WordVocabulary.SortByCountSpec | src/TensorFlowNET.Examples/TextProcessing/DataHelpers.cs:25 | OrderByDescending returns a permutation of the groups, ordered by non-increasing count, with no repeats when the groups have none |
| WordVocabulary.SortByCountStable | src/TensorFlowNET.Examples/TextProcessing/DataHelpers.cs:25 | OrderByDescending is stable: groups of equal count keep their relative order |
| WordVocabulary.LineWordsShape | src/TensorFlowNET.Examples/TextProcessing/DataHelpers.cs:22 | every word a line contributes has more than one character and is not a reserved token |
| WordVocabulary.RankedMembers | src/TensorFlowNET.Examples/TextProcessing/DataHelpers.cs:23-26 | `word_counter` holds exactly the words of the list |
| WordVocabulary.RankedNotReserved | src/TensorFlowNET.Examples/TextProcessing/DataHelpers.cs:23-31 | no entry of `word_counter` is `<pad>`, `<unk>` or `<eos>`, so none overwrites a reserved entry |
| WordVocabulary.InsertionOrderNoDup | src/TensorFlowNET.Examples/TextProcessing/DataHelpers.cs:28-33 | the keys reach the dictionary without repeats, so each insertion adds a new entry |
| WordVocabulary.BuildWordDict | src/TensorFlowNET.Examples/TextProcessing/DataHelpers.cs:16-36 | the method's dictionary is the reserved tokens followed by the ranked words, each numbered by its insertion position |
| WordVocabulary.WordDictIndices | src/TensorFlowNET.Examples/TextProcessing/DataHelpers.cs:28-33 | `<pad>`, `<unk>` and `<eos>` are 0, 1 and 2; the dictionary has three entries more than there are distinct words; its values are exactly 0 .. Count - 1, each used once |
| WordVocabulary.WordDictKeys | src/TensorFlowNET.Examples/TextProcessing/DataHelpers.cs:16-36 | the keys are exactly the reserved tokens and the pieces longer than one character of some cleaned line |
| WordVocabulary.WordDictByCount | src/TensorFlowNET.Examples/TextProcessing/DataHelpers.cs:23-33 | a word with a strictly higher count gets a smaller index |
| WordVocabulary.WordDictTies | src/TensorFlowNET.Examples/TextProcessing/DataHelpers.cs:23-33 | of two words with equal counts, the smaller index goes to the one that occurs first in the text |
| WordDataset.TokensEndWithEos | src/TensorFlowNET.Examples/TextProcessing/DataHelpers.cs:44 | the tokens of a row are the pieces of the cleaned line followed by `<eos>` |
| WordDataset.WordLabel | src/TensorFlowNET.Examples/TextProcessing/DataHelpers.cs:57 | a line without a comma throws ArgumentOutOfRangeException, and a label is always an Int32 |
| WordDataset.WordLabelOfPrinted | src/TensorFlowNET.Examples/TextProcessing/DataHelpers.cs:57 | a line starting with a printed class number n and a comma is labelled n - 1, wrapped to Int32 |
| WordDataset.FillRow | src/TensorFlowNET.Examples/TextProcessing/DataHelpers.cs:44-54 | the row is filled exactly when every lookup it needs succeeds; each cell is then the index of its token (or of `<unk>`), and `<eos>` past the tokens; other rows are unchanged |
| WordDataset.BuildWordDataset | src/TensorFlowNET.Examples/TextProcessing/DataHelpers.cs:38-60 | a negative width throws OverflowException; a failed lookup throws KeyNotFoundException before any label is parsed; otherwise the result is x of size lines × width holding every cell, with y the labels, or the first label's exception |
| WordDataset.CellsWithWordDict | src/TensorFlowNET.Examples/TextProcessing/DataHelpers.cs:44-54 | with a dictionary built by `build_word_dict`, every cell is defined and a valid index; cells past the words are `<eos>` = 2; the others hold the word's own index when it is a key, else `<unk>` = 1 |
| WordDataset.RowsDefinedWithWordDict | src/TensorFlowNET.Examples/TextProcessing/DataHelpers.cs:38-55 | with a dictionary built by `build_word_dict`, no row of any file throws KeyNotFoundException |
| CharVocabulary.AlphabetNoDup | src/TensorFlowNET.Examples/TextProcessing/DataHelpers.cs:64 | the alphabet has 68 characters, none repeated |
| CharVocabulary.CharKeysNoDup | src/TensorFlowNET.Examples/TextProcessing/DataHelpers.cs:67-71 | the keys reach `char_dict` without repeats |
| CharVocabulary.BuildCharDict | src/TensorFlowNET.Examples/TextProcessing/DataHelpers.cs:67-71 | the loop's dictionary is `<pad>`, `<unk>` and then each alphabet character, numbered by insertion position |
| CharVocabulary.ReservedCodes | src/TensorFlowNET.Examples/TextProcessing/DataHelpers.cs:68-69 | `<pad>` is 0 and `<unk>` is 1 |
| CharVocabulary.CharCode | src/TensorFlowNET.Examples/TextProcessing/DataHelpers.cs:70-71 | a one-character key is present exactly when its character is in the alphabet, and is then numbered by its alphabet position plus two |
| CharVocabulary.CharDictFacts | src/TensorFlowNET.Examples/TextProcessing/DataHelpers.cs:67-71 | `char_dict` has `alphabet.Length + 2` entries numbered 0 .. alphabet.Length + 1 without repeats, the k-th character numbered k + 2 |
| CharVocabulary.CodeRange | src/TensorFlowNET.Examples/TextProcessing/DataHelpers.cs:93-99 | every cell value is a valid index into a vocabulary of `alphabet.Length + 2` entries |
| CharVocabulary.CharDictCodes | src/TensorFlowNET.Examples/TextProcessing/DataHelpers.cs:93-99 | looking a character up in `char_dict`, with `<unk>` for a missing key, gives its alphabet position plus two, or 1 |
| CharDataset.SepAfterLowering | src/TensorFlowNET.Examples/TextProcessing/DataHelpers.cs:90 | lowering a line never creates a `,"` separator |
| CharDataset.CsvLineFields | src/TensorFlowNET.Examples/TextProcessing/DataHelpers.cs:90 | a DBpedia line `n,"title","text"` whose fields contain no `,"` splits into the number, the lowered title and quote, and the lowered text and quote |
| CharDataset.CsvLineRoundTrip | src/TensorFlowNET.Examples/TextProcessing/DataHelpers.cs:90-100 | the row of such a line holds exactly the lowered text and the class number |
| CharDataset.EmptyTextRow | src/TensorFlowNET.Examples/TextProcessing/DataHelpers.cs:90-100 | a line whose third field is empty throws ArgumentOutOfRangeException from `Substring(0, -1)` whatever its first field holds, because the content is taken before the label is parsed |
| CharDataset.NoSeparatorRow | src/TensorFlowNET.Examples/TextProcessing/DataHelpers.cs:90-91 | a line without `,"` makes `parts[2]` throw IndexOutOfRangeException |
| CharDataset.CharRowsFirstError | src/TensorFlowNET.Examples/TextProcessing/DataHelpers.cs:82-101 | the rows throw the exception of the first row that throws, `contents[i]` past the last line included |
| CharDataset.PercentCountBounds | src/TensorFlowNET.Examples/TextProcessing/DataHelpers.cs:80-88 | with at least ten rows, a full run prints between 10 and 19 percentages, that is up to 190% |
| CharDataset.PercentCountPast100 | src/TensorFlowNET.Examples/TextProcessing/DataHelpers.cs:80-88 | with at least ten rows, a full run prints more than 100% exactly when `size % 10 >= size / 10` |
| CharDataset.TicksQuotient | src/TensorFlowNET.Examples/TextProcessing/DataHelpers.cs:84-88 | after i rows the loop has printed i / tenth percentages |
| CharDataset.FillCharRow | src/TensorFlowNET.Examples/TextProcessing/DataHelpers.cs:93-99 | cell j of the row is the index of content character j, or `<pad>` = 0 past the end; other rows are unchanged |
| CharDataset.Tick | src/TensorFlowNET.Examples/TextProcessing/DataHelpers.cs:84-88 | after the progress step of row i, the printed percentages are those of rows 0 .. i (one more ten each time `tenth` divides the row number plus one) and `percent` is the last of them |
| CharDataset.StoreRow | src/TensorFlowNET.Examples/TextProcessing/DataHelpers.cs:93-100 | writing a sample into row i extends the encoded prefix of x and y by that sample |
| CharDataset.EncodeRow | src/TensorFlowNET.Examples/TextProcessing/DataHelpers.cs:90-100 | one pass either throws the exception the whole loop ends with, or extends the encoded rows by row i |
| CharDataset.EncodeRows | src/TensorFlowNET.Examples/TextProcessing/DataHelpers.cs:80-101 | the loop throws DivideByZeroException for 1 to 9 rows, else the first row's exception; a complete run prints `size / tenth` percentages and leaves every row encoded with its content codes and label |
| CharDataset.BuildCharDataset | src/TensorFlowNET.Examples/TextProcessing/DataHelpers.cs:62-104 | throws exactly the exception of the first failing step; on success x is size × width with every cell the code of its row's character (or `<pad>`), y holds the labels, and the vocabulary size is 70, the number of `char_dict` entries |
| HexDigest.DigitValues | src/TensorFlowNET.Examples/TextProcessing/DataHelpers.cs:157 | the k-th digit of the uppercase hexadecimal alphabet has value k |
| HexDigest.Hex | src/TensorFlowNET.Examples/TextProcessing/DataHelpers.cs:154-159 | the text has two characters per byte |
| HexDigest.HexString | src/TensorFlowNET.Examples/TextProcessing/DataHelpers.cs:154-159 | the StringBuilder loop appends `ToString("X2")` of every byte in turn |
| HexDigest.ByteHexRoundTrip | src/TensorFlowNET.Examples/TextProcessing/DataHelpers.cs:157 | the two digits `ToString("X2")` writes read back as the byte |
| HexDigest.HexRoundTrip | src/TensorFlowNET.Examples/TextProcessing/DataHelpers.cs:154-159 | the hexadecimal text reads back as the digest, so different digests never print alike |
| HexDigest.HexDigitsOnly | src/TensorFlowNET.Examples/TextProcessing/DataHelpers.cs:154-159 | the text uses only the sixteen uppercase hexadecimal digits |

## Left out

- File access (`File.ReadAllLines`): each routine takes the lines of the file instead of a path.
- The shuffle of `build_char_dataset` (`new Random(17).Shuffle`): the model is the `shuffle: false` case, because .NET's pseudo-random sequence is outside the model.
- The `model` parameter of `build_char_dataset`: it is never read.
- `Console.WriteLine` of the percentages: the model returns the printed values as `progress` instead.
- The first step of `CalculateMD5Hash`, ASCII encoding and MD5 itself: the digest is an input.
- `load_data_and_labels`: it downloads files and builds an NDArray, both outside the model.
- `src/TensorFlowNET.Examples/BasicModels/NearestNeighbor.cs` is not part of this model.
- The anonymous `{ Word, Count }` records of `word_counter`: the model keeps the ordered words and computes their counts on demand.
- Strings.ToLower: lowers only `A`-`Z`. .NET's culture-sensitive `ToLower` also lowers other letters, and it lowers `I` to a dotless ı under a Turkish culture. A character whose .NET lowering differs from the model's can therefore get a different code. One example is the Kelvin sign U+212A, which .NET lowers to `k`. No lowering produces `,` or `"`, so the fields are unaffected.
- Int32Text.ParseInt32: reads the signs `-` and `+`. The sign strings of other cultures are not modelled.
- Int32Text.IsWhite: the white space accepted around a number is U+0009 to U+000D and U+0020.
- TextCleaning.CleanStr, WordDataset.Tokens, CharDataset.CharContent and CharVocabulary.Code: text is modelled as a sequence of Unicode scalar values, whereas .NET strings are UTF-16 code units. A character outside the Basic Multilingual Plane is one element here and two `char`s in .NET. For text holding such a character, the rows differ from .NET's: `clean_str` blanks it into two spaces (an extra empty word and `<unk>` cell), a character row gets two `<unk>` cells, and `Substring` at line 92 removes one code unit.
- CharDataset.CharRow: when `parts[0]` is not a number, .NET has already written row i of `x` before `int.Parse` throws. The model evaluates the whole row before writing it, so a failed run's partly written `x` is not described. The exception is the same.
- WordDataset.FillRow: when `<eos>` is missing from the dictionary, the row is left partly written, as in .NET. BuildWordDataset states only the exception thrown, not the contents of the discarded matrix.
- CharVocabulary.CharDictFacts: stated for any alphabet without repeated characters. AlphabetNoDup discharges that condition for the routine's own alphabet.
