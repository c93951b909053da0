/** build_word_dataset: each line becomes a fixed-width row of word
    indices, and the number before its first comma, minus one, its label. */
module WordDataset {
  import opened Results
  import opened Sequences
  import opened Strings
  import opened TextCleaning
  import opened Int32Text
  import opened WordVocabulary

  /** The tokens of a line: its cleaned text followed by " <eos>", split on
      single spaces (repeated spaces give empty tokens). */
  function Tokens(line: string): seq<string>
  {
    Split(CleanStr(line) + " " + Eos, " ")
  }

  /** The tokens are the words of the cleaned text, then the <eos> marker. */
  lemma TokensEndWithEos(line: string)
    ensures Tokens(line) == Split(CleanStr(line), " ") + [Eos]
  {
    SplitAround(CleanStr(line), " ", Eos);
    assert forall k: nat :: !OccursAt(Eos, " ", k) by {
      forall k: nat ensures !OccursAt(Eos, " ", k) {
        OccursAtChar(Eos, " ", k);
      }
    }
    assert Find(Eos, " ").None?;
  }

  /** The index the Select gives a token: its own, or that of <unk>. */
  function TokenIndex(wordDict: map<string, int>, w: string): Result<int>
  {
    if w in wordDict then Ok(wordDict[w]) else Lookup(wordDict, Unk)
  }

  /** What cell `col` of a row receives: the index of token `col`, or of
      <unk> when the token is unknown, or of <eos> past the last token;
      KeyNotFound where the source looks up a key the dictionary lacks. */
  function Cell(wordDict: map<string, int>, tokens: seq<string>, col: nat): Result<int>
  {
    if col < |tokens| then TokenIndex(wordDict, tokens[col]) else Lookup(wordDict, Eos)
  }

  predicate RowDefined(wordDict: map<string, int>, tokens: seq<string>, width: nat) {
    forall col :: 0 <= col < width ==> Cell(wordDict, tokens, col).Ok?
  }

  predicate AllRowsDefined(wordDict: map<string, int>, lines: seq<string>, width: nat) {
    forall row :: 0 <= row < |lines| ==> RowDefined(wordDict, Tokens(lines[row]), width)
  }

  /** The label of a line: int.Parse of the text before its first comma,
      minus one in unchecked Int32 arithmetic.  A line without a comma makes
      Substring(0, -1) throw. */
  function WordLabel(line: string): (r: Result<int>)
    ensures ',' !in line ==> r == Err(ArgumentOutOfRange)
    ensures r.Ok? ==> InInt32(r.value)
  {
    match IndexOfChar(line, ',')
    case None => Err(ArgumentOutOfRange)
    case Some(i) =>
      match ParseInt32(line[..i])
      case Err(e) => Err(e)
      case Ok(v) => Ok(Wrap32(v - 1))
  }

  /** A line that starts with a printed Int32 and a comma is labelled with
      that number minus one. */
  lemma WordLabelOfPrinted(n: int, rest: string)
    requires InInt32(n)
    ensures WordLabel(Int32ToString(n) + "," + rest) == Ok(Wrap32(n - 1))
  {
    PrintedComma(n, rest);
    ParsePrinted(n);
  }

  /** The first comma of such a line is the one after the number. */
  lemma PrintedComma(n: int, rest: string)
    ensures var line := Int32ToString(n) + "," + rest;
      IndexOfChar(line, ',') == Some(|Int32ToString(n)|) && line[..|Int32ToString(n)|] == Int32ToString(n)
  {
    var printed := Int32ToString(n);
    var line := printed + "," + rest;
    assert line[..|printed|] == printed;
    PrintedChars(n);
    IndexOfCharAt(line, ',', |printed|);
  }

  /** The labels of all lines, Select(...).ToArray(). */
  function WordLabels(lines: seq<string>): Result<seq<int>>
  {
    SelectAll(WordLabel, lines)
  }

  /** The matrix x and the labels y. */
  datatype WordData = WordData(x: array2<int>, y: seq<int>)

  /** One row of build_word_dataset: the tokens cut to the row width are
      looked up, then the row is filled, with <eos> past the last token.
      Fails, leaving the row partly written, where a lookup would throw. */
  method FillRow(x: array2<int>, row: nat, wordDict: map<string, int>, line: string)
    returns (ok: bool)
    requires row < x.Length0
    modifies x
    ensures ok <==> RowDefined(wordDict, Tokens(line), x.Length1)
    ensures ok ==> forall c :: 0 <= c < x.Length1 ==> Cell(wordDict, Tokens(line), c) == Ok(x[row, c])
    ensures forall i, c :: 0 <= i < x.Length0 && i != row && 0 <= c < x.Length1 ==>
      x[i, c] == old(x[i, c])
  {
    ghost var all := Tokens(line);
    var tokens := Tokens(line);
    if |tokens| > x.Length1 {
      tokens := tokens[..x.Length1];
    }
    var indices := SelectAll(w => TokenIndex(wordDict, w), tokens);
    if indices.Err? {
      var j :| 0 <= j < |tokens| && TokenIndex(wordDict, tokens[j]).Err?;
      assert Cell(wordDict, all, j).Err?;
      return false;
    }
    var col := 0;
    while col < x.Length1
      invariant 0 <= col <= x.Length1
      invariant forall c :: 0 <= c < col ==> Cell(wordDict, all, c) == Ok(x[row, c])
      invariant forall i, c :: 0 <= i < x.Length0 && i != row && 0 <= c < x.Length1 ==>
        x[i, c] == old(x[i, c])
    {
      if col >= |indices.value| {
        if Eos !in wordDict {
          assert Cell(wordDict, all, col).Err?;
          return false;
        }
        x[row, col] := wordDict[Eos];
      } else {
        x[row, col] := indices.value[col];
      }
      col := col + 1;
    }
    return true;
  }

  /** build_word_dataset, with the lines of the file given in place of its path. */
  method BuildWordDataset(lines: seq<string>, wordDict: map<string, int>, documentMaxLen: int)
    returns (r: Result<WordData>)
    ensures documentMaxLen < 0 ==> r == Err(Overflow)
    ensures documentMaxLen >= 0 && !AllRowsDefined(wordDict, lines, documentMaxLen) ==>
      r == Err(KeyNotFound)
    ensures documentMaxLen >= 0 && AllRowsDefined(wordDict, lines, documentMaxLen) ==>
      && (WordLabels(lines).Err? ==> r == Err(WordLabels(lines).error))
      && (WordLabels(lines).Ok? ==> r.Ok?)
    ensures r.Ok? ==>
      && WordLabels(lines) == Ok(r.value.y)
      && r.value.x.Length0 == |lines|
      && r.value.x.Length1 == documentMaxLen
      && forall row, col :: 0 <= row < |lines| && 0 <= col < documentMaxLen ==>
           Cell(wordDict, Tokens(lines[row]), col) == Ok(r.value.x[row, col])
  {
    if documentMaxLen < 0 {
      return Err(Overflow);
    }
    var x := new int[|lines|, documentMaxLen];
    var row := 0;
    while row < |lines|
      invariant 0 <= row <= |lines|
      invariant forall i :: 0 <= i < row ==> RowDefined(wordDict, Tokens(lines[i]), documentMaxLen)
      invariant forall i, col :: 0 <= i < row && 0 <= col < documentMaxLen ==>
        Cell(wordDict, Tokens(lines[i]), col) == Ok(x[i, col])
    {
      var ok := FillRow(x, row, wordDict, lines[row]);
      if !ok {
        return Err(KeyNotFound);
      }
      row := row + 1;
    }
    var y := WordLabels(lines);
    if y.Err? {
      return Err(y.error);
    }
    return Ok(WordData(x, y.value));
  }

  /** With a dictionary built by BuildWordDict no lookup fails, every cell
      is a valid index, and every cell at or past the line's word count
      holds the index of <eos>, 2: first the <eos> token itself, then the
      padding. */
  lemma CellsWithWordDict(trainLines: seq<string>, line: string, col: nat)
    ensures Cell(WordDict(trainLines), Tokens(line), col).Ok?
    ensures 0 <= Cell(WordDict(trainLines), Tokens(line), col).value < |WordDict(trainLines)|
    ensures col >= |Split(CleanStr(line), " ")| ==> Cell(WordDict(trainLines), Tokens(line), col) == Ok(2)
    ensures col < |Split(CleanStr(line), " ")| ==>
      var w := Split(CleanStr(line), " ")[col];
      Cell(WordDict(trainLines), Tokens(line), col) == Ok(if w in WordDict(trainLines) then WordDict(trainLines)[w] else 1)
  {
    WordDictIndices(trainLines);
    TokensEndWithEos(line);
  }

  /** Hence a dictionary built by BuildWordDict never makes the dataset
      throw KeyNotFound. */
  lemma RowsDefinedWithWordDict(trainLines: seq<string>, lines: seq<string>, width: nat)
    ensures AllRowsDefined(WordDict(trainLines), lines, width)
  {
    forall row, col | 0 <= row < |lines| && 0 <= col < width
      ensures Cell(WordDict(trainLines), Tokens(lines[row]), col).Ok?
    {
      CellsWithWordDict(trainLines, lines[row], col);
    }
  }
}
