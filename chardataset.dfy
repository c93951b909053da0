/** build_char_dataset: each line of a DBpedia-style CSV file becomes a
    fixed-width row of character indices and the class number in front of
    it its label. */
module CharDataset {
  import opened Results
  import opened Sequences
  import opened Strings
  import opened Int32Text
  import opened CharVocabulary

  // ---------------------------------------------------------------------
  // One line

  /** The field separator: a comma followed by a double quote. */
  const Sep: string := ",\""

  /** The fields of a line: lowered, then split on `,"`. */
  function Fields(line: string): (parts: seq<string>)
    ensures |parts| >= 1
  {
    Split(ToLower(line), Sep)
  }

  /** parts[2] without its last character, the closing quote.  Fewer than
      three fields make parts[2] throw; an empty third field makes
      Substring(0, -1) throw. */
  function CharContent(line: string): Result<string>
  {
    var parts := Fields(line);
    if |parts| < 3 then Err(IndexOutOfRange)
    else if |parts[2]| == 0 then Err(ArgumentOutOfRange)
    else Ok(parts[2][..|parts[2]| - 1])
  }

  /** int.Parse(parts[0]), kept as it is. */
  function CharLabel(line: string): Result<int>
  {
    ParseInt32(Fields(line)[0])
  }

  datatype CharSample = CharSample(content: string, category: int)

  /** What row i makes of its line: the content first, then the label,
      which is parsed only after the row has been filled. */
  function CharRow(line: string): (r: Result<CharSample>)
    ensures r.Ok? ==> Ok(r.value.content) == CharContent(line) && Ok(r.value.category) == CharLabel(line)
    ensures CharContent(line).Err? ==> r == Err(CharContent(line).error)
    ensures CharContent(line).Ok? && CharLabel(line).Err? ==> r == Err(CharLabel(line).error)
  {
    match CharContent(line)
    case Err(e) => Err(e)
    case Ok(content) =>
      match CharLabel(line)
      case Err(e) => Err(e)
      case Ok(category) => Ok(CharSample(content, category))
  }

  // ---------------------------------------------------------------------
  // The lines a CSV file is made of

  /** A DBpedia CSV line: the class number, then the title and the text,
      each in double quotes. */
  function CsvLine(classNo: int, title: string, text: string): string
  {
    Int32ToString(classNo) + Sep + title + "\"" + Sep + text + "\""
  }

  /** Lowering never creates a separator. */
  lemma SepAfterLowering(t: string)
    ensures Contains(ToLower(t), Sep) ==> Contains(t, Sep)
  {
    if Contains(ToLower(t), Sep) {
      var k: nat :| k <= |ToLower(t)| && OccursAt(ToLower(t), Sep, k);
      assert ToLower(t)[k] == ToLower(t)[k..k + 2][0] == ',';
      assert ToLower(t)[k + 1] == ToLower(t)[k..k + 2][1] == '"';
      assert t[k..k + 2] == Sep;
      assert OccursAt(t, Sep, k);
    }
  }

  /** A field free of the separator is followed by the first separator. */
  lemma SepFirst(a: string, b: string)
    requires !Contains(a, Sep)
    ensures forall k: nat :: k < |a| ==> !OccursAt(a + Sep + b, Sep, k)
  {
    assert a + Sep + b == a + (Sep + b);
    forall k: nat | k < |a| ensures !OccursAt(a + Sep + b, Sep, k) {
      if k + 2 <= |a| {
        OccursInPrefix(a, Sep + b, Sep, k);
      } else {
        assert (a + Sep + b)[k + 1] == ',';
      }
    }
  }

  /** Lowering leaves a printed number alone. */
  lemma LowerPrinted(n: int)
    ensures ToLower(Int32ToString(n)) == Int32ToString(n)
    ensures !Contains(Int32ToString(n), Sep)
  {
    var p := Int32ToString(n);
    PrintedChars(n);
    forall k: nat | k <= |p| ensures !OccursAt(p, Sep, k) {
      if k + 2 <= |p| {
        assert p[k..k + 2][0] == p[k];
      }
    }
  }

  /** A well-formed CSV line has three fields: the printed class number
      and the lowered title and text, each with its closing quote. */
  lemma CsvLineFields(classNo: int, title: string, text: string)
    requires !Contains(title + "\"", Sep) && !Contains(text + "\"", Sep)
    ensures Fields(CsvLine(classNo, title, text)) ==
      [Int32ToString(classNo), ToLower(title + "\""), ToLower(text + "\"")]
  {
    var p := Int32ToString(classNo);
    var second, third := title + "\"", text + "\"";
    var low2, low3 := ToLower(second), ToLower(third);
    assert ToLower(CsvLine(classNo, title, text)) == p + Sep + (low2 + Sep + low3) by {
      assert CsvLine(classNo, title, text) == p + Sep + second + Sep + third;
      ToLowerAppend(p + Sep + second + Sep, third);
      ToLowerAppend(p + Sep + second, Sep);
      ToLowerAppend(p + Sep, second);
      ToLowerAppend(p, Sep);
      LowerPrinted(classNo);
      assert ToLower(Sep) == Sep;
      assert p + Sep + low2 + Sep + low3 == p + Sep + (low2 + Sep + low3);
    }
    assert Split(p + Sep + (low2 + Sep + low3), Sep) == [p] + Split(low2 + Sep + low3, Sep) by {
      LowerPrinted(classNo);
      SepFirst(p, low2 + Sep + low3);
      SplitFirstPiece(p, Sep, low2 + Sep + low3);
    }
    assert Split(low2 + Sep + low3, Sep) == [low2, low3] by {
      SepAfterLowering(second);
      SepAfterLowering(third);
      SepFirst(low2, low3);
      SplitFirstPiece(low2, Sep, low3);
      SplitWhole(low3, Sep);
    }
  }

  /** The row of a well-formed CSV line holds its lowered text and its
      class number: the fields come back as they were written. */
  lemma CsvLineRoundTrip(classNo: int, title: string, text: string)
    requires InInt32(classNo)
    requires !Contains(title + "\"", Sep) && !Contains(text + "\"", Sep)
    ensures CharRow(CsvLine(classNo, title, text)) == Ok(CharSample(ToLower(text), classNo))
  {
    CsvLineFields(classNo, title, text);
    var low3 := ToLower(text + "\"");
    assert low3[..|low3| - 1] == ToLower(text) by {
      ToLowerAppend(text, "\"");
    }
    ParsePrinted(classNo);
  }

  /** A line without a `,"` has a single field, so parts[2] throws. */
  lemma NoSeparatorRow(line: string)
    requires !Contains(line, Sep)
    ensures CharRow(line) == Err(IndexOutOfRange)
  {
    SepAfterLowering(line);
    SplitWhole(ToLower(line), Sep);
  }

  /** A line whose third field is empty makes Substring(0, -1) throw,
      whatever its first field holds: the content fails before the label
      is parsed. */
  lemma EmptyTextRow(first: string, second: string)
    requires !Contains(first, Sep) && !Contains(second, Sep)
    ensures CharRow(first + Sep + second + Sep) == Err(ArgumentOutOfRange)
  {
    var low1, low2 := ToLower(first), ToLower(second);
    assert ToLower(first + Sep + second + Sep) == low1 + Sep + (low2 + Sep + "") by {
      ToLowerAppend(first + Sep + second, Sep);
      ToLowerAppend(first + Sep, second);
      ToLowerAppend(first, Sep);
      assert ToLower(Sep) == Sep;
      assert low1 + Sep + low2 + Sep == low1 + Sep + (low2 + Sep + "");
    }
    assert Split(low1 + Sep + (low2 + Sep + ""), Sep) == [low1] + Split(low2 + Sep + "", Sep) by {
      SepAfterLowering(first);
      SepFirst(low1, low2 + Sep + "");
      SplitFirstPiece(low1, Sep, low2 + Sep + "");
    }
    assert Split(low2 + Sep + "", Sep) == [low2, ""] by {
      SepAfterLowering(second);
      SepFirst(low2, "");
      SplitFirstPiece(low2, Sep, "");
      assert !Contains("", Sep);
      SplitWhole("", Sep);
    }
  }

  // ---------------------------------------------------------------------
  // The dataset

  /** The number of rows: the limit when one is given, else every line. */
  function Size(lines: seq<string>, limit: Option<int>): int
  {
    if limit.Some? then limit.value else |lines|
  }

  /** Row i of the dataset; contents[i] past the last line throws. */
  function RowAt(lines: seq<string>, i: int): Result<CharSample>
  {
    if 0 <= i < |lines| then CharRow(lines[i]) else Err(IndexOutOfRange)
  }

  /** Rows 0 .. size - 1 in turn; the first that throws decides the exception. */
  function CharRows(lines: seq<string>, size: nat): Result<seq<CharSample>>
  {
    Tabulate(i => RowAt(lines, i), size)
  }

  /** The exception of the rows is that of the first row that throws. */
  lemma CharRowsFirstError(lines: seq<string>, size: nat, i: nat)
    requires i < size && RowAt(lines, i).Err?
    requires forall k :: 0 <= k < i ==> RowAt(lines, k).Ok?
    ensures CharRows(lines, size) == Err(RowAt(lines, i).error)
  {
    TabulateAll(k => RowAt(lines, k), i);
    TabulateStop(k => RowAt(lines, k), i, size);
  }

  /** The exception build_char_dataset throws, if any: a negative dimension
      on allocation, then `% tenth` with tenth zero when there are 1 to 9
      rows, then the first row that throws. */
  function DatasetError(lines: seq<string>, documentMaxLen: int, limit: Option<int>): Option<Error>
  {
    var size := Size(lines, limit);
    if size < 0 || documentMaxLen < 0 then Some(Overflow)
    else if 0 < size < 10 then Some(DivideByZero)
    else match CharRows(lines, size)
      case Err(e) => Some(e)
      case Ok(_) => None
  }

  /** The percentages printed while the rows are encoded: one more ten
      every `tenth` rows. */
  function Percents(count: nat): (r: seq<int>)
    ensures |r| == count && forall k :: 0 <= k < count ==> r[k] == 10 * (k + 1)
  {
    seq(count, k => 10 * (k + 1))
  }

  /** How many percentages a successful run prints. */
  function PercentCount(size: nat): nat
  {
    if size < 10 then 0 else size / (size / 10)
  }

  /** With at least ten rows the count reaches 100%, and it can run on up
      to 190%. */
  lemma PercentCountBounds(size: nat)
    requires size >= 10
    ensures 10 <= PercentCount(size) <= 19
  {
    var t := size / 10;
    var q := size / t;
    assert size == 10 * t + size % 10;
    assert q * t <= size < q * t + t;
  }

  /** The count passes 100% exactly when the remainder of `size` by ten
      is at least `tenth`: 11 rows print up to 110%, 21 rows stop at 100%. */
  lemma PercentCountPast100(size: nat)
    requires size >= 10
    ensures PercentCount(size) > 10 <==> size % 10 >= size / 10
  {
    var t, r := size / 10, size % 10;
    assert size == 10 * t + r && t > 0;
    var q, rq := size / t, size % t;
    assert size == q * t + rq && 0 <= rq < t;
    if r >= t {
      if q <= 10 {
        MulMono(q + 1, 11, t);
      }
    } else {
      DivUnique(size, t, 10, r);
    }
  }

  lemma MulMono(a: int, b: int, t: int)
    requires a <= b && t >= 0
    ensures a * t <= b * t
  {
    assert b * t - a * t == (b - a) * t;
  }

  /** The quotient is the only q with n = q * t + r and 0 <= r < t. */
  lemma DivUnique(n: int, t: int, q: int, r: int)
    requires t > 0 && 0 <= r < t && n == q * t + r
    ensures n / t == q
  {
    var q', r' := n / t, n % t;
    assert n == q' * t + r' && 0 <= r' < t;
    if q > q' {
      MulMono(q' + 1, q, t);
    } else if q < q' {
      MulMono(q + 1, q', t);
    }
  }

  /** (i + 1) / t steps up exactly when t divides i + 1. */
  lemma DivStep(i: nat, t: nat)
    requires t > 0
    ensures (i + 1) / t == i / t + (if (i + 1) % t == 0 then 1 else 0)
  {
    var q, r := i / t, i % t;
    assert i == q * t + r;
    if r + 1 < t {
      DivUnique(i + 1, t, q, r + 1);
      assert (i + 1) % t == r + 1;
    } else {
      DivUnique(i + 1, t, q + 1, 0);
      assert (i + 1) % t == 0;
    }
  }

  /** How many of 1 .. i the loop finds divisible by `tenth`: the
      percentages printed after i rows. */
  function Ticks(i: nat, tenth: nat): nat
  {
    if i == 0 || tenth == 0 then 0
    else Ticks(i - 1, tenth) + (if i % tenth == 0 then 1 else 0)
  }

  /** The count is the quotient i / tenth. */
  lemma {:induction false} TicksQuotient(i: nat, tenth: nat)
    requires tenth > 0
    ensures Ticks(i, tenth) == i / tenth
  {
    if i > 0 {
      TicksQuotient(i - 1, tenth);
      DivStep(i - 1, tenth);
    }
  }

  datatype CharData = CharData(x: array2<int>, y: array<int>, vocabularySize: int)

  /** Encodes one row: the content's character indices, padded with 0. */
  method FillCharRow(x: array2<int>, row: nat, content: string, charDict: map<string, int>,
                     ghost alphabet: string)
    requires row < x.Length0 && Codes(alphabet, charDict)
    modifies x
    ensures forall j :: 0 <= j < x.Length1 ==> x[row, j] == Code(alphabet, content, j)
    ensures forall i, j :: 0 <= i < x.Length0 && i != row && 0 <= j < x.Length1 ==>
      x[i, j] == old(x[i, j])
  {
    for j := 0 to x.Length1
      invariant forall c :: 0 <= c < j ==> x[row, c] == Code(alphabet, content, c)
      invariant forall i, c :: 0 <= i < x.Length0 && i != row && 0 <= c < x.Length1 ==>
        x[i, c] == old(x[i, c])
    {
      if j >= |content| {
        x[row, j] := charDict[Pad];
      } else if [content[j]] in charDict {
        x[row, j] := charDict[[content[j]]];
      } else {
        x[row, j] := charDict[Unk];
      }
    }
  }

  /** The progress step at the top of the row loop: every `tenth` rows
      another ten percent is printed. */
  method Tick(i: nat, tenth: nat, percent: int, progress: seq<int>)
    returns (percent': int, progress': seq<int>)
    requires tenth > 0 && progress == Percents(Ticks(i, tenth)) && percent == 10 * |progress|
    ensures progress' == Percents(Ticks(i + 1, tenth)) && percent' == 10 * |progress'|
  {
    percent', progress' := percent, progress;
    if (i + 1) % tenth == 0 {
      percent' := percent + 10;
      progress' := progress + [percent'];
    }
  }

  /** Rows 0 .. |rows| - 1 of `x` and `y` hold the given samples: the
      character codes of each content and each label. */
  ghost predicate Encoded(x: array2<int>, y: array<int>, rows: seq<CharSample>, alphabet: string)
    reads x, y
  {
    && |rows| <= x.Length0 && |rows| <= y.Length
    && (forall k :: 0 <= k < |rows| ==> y[k] == rows[k].category)
    && (forall k, j :: 0 <= k < |rows| && 0 <= j < x.Length1 ==> x[k, j] == Code(alphabet, rows[k].content, j))
  }

  /** One pass of the row loop after the progress step: reads line i,
      fills row i of `x` and sets y[i], or stops with the exception the row
      throws, which is then the exception of the whole loop. */
  method EncodeRow(lines: seq<string>, i: nat, x: array2<int>, y: array<int>, charDict: map<string, int>,
                   ghost alphabet: string, ghost done: seq<CharSample>)
    returns (failure: Option<Error>, ghost done': seq<CharSample>)
    requires i < x.Length0 == y.Length && Codes(alphabet, charDict)
    requires |done| == i && CharRows(lines, i) == Ok(done) && Encoded(x, y, done, alphabet)
    modifies x, y
    ensures failure.Some? ==> CharRows(lines, x.Length0) == Err(failure.value)
    ensures failure.None? ==> CharRows(lines, i + 1) == Ok(done') && |done'| == i + 1 && Encoded(x, y, done', alphabet)
  {
    done' := done;
    var row := RowAt(lines, i);
    if row.Err? {
      TabulateStop(k => RowAt(lines, k), i, x.Length0);
      return Some(row.error), done';
    }
    StoreRow(x, y, i, row.value, charDict, alphabet, done);
    return None, done + [row.value];
  }

  /** Writes a sample into row i: its codes into x, its label into y. */
  method StoreRow(x: array2<int>, y: array<int>, i: nat, sample: CharSample, charDict: map<string, int>,
                  ghost alphabet: string, ghost done: seq<CharSample>)
    requires i < x.Length0 == y.Length && Codes(alphabet, charDict)
    requires |done| == i && Encoded(x, y, done, alphabet)
    modifies x, y
    ensures Encoded(x, y, done + [sample], alphabet)
  {
    FillCharRow(x, i, sample.content, charDict, alphabet);
    y[i] := sample.category;
  }

  /** The row loop: encodes rows 0 .. size - 1 into `x` and `y`, printing
      the progress as it goes, until a row throws. */
  method EncodeRows(lines: seq<string>, size: nat, x: array2<int>, y: array<int>, charDict: map<string, int>,
                    ghost alphabet: string)
    returns (failure: Option<Error>, progress: seq<int>)
    requires x.Length0 == size && y.Length == size && Codes(alphabet, charDict)
    modifies x, y
    ensures failure.Some? <==> 0 < size < 10 || CharRows(lines, size).Err?
    ensures failure.Some? ==>
      failure.value == if 0 < size < 10 then DivideByZero else CharRows(lines, size).error
    ensures failure.None? ==>
      && progress == Percents(PercentCount(size))
      && CharRows(lines, size).Ok? && Encoded(x, y, CharRows(lines, size).value, alphabet)
  {
    progress := [];
    var tenth := size / 10;
    var percent := 0;
    ghost var done: seq<CharSample> := [];
    for i := 0 to size
      invariant tenth == size / 10 && (tenth == 0 ==> i == 0)
      invariant progress == Percents(Ticks(i, tenth)) && percent == 10 * |progress|
      invariant CharRows(lines, i) == Ok(done) && |done| == i && Encoded(x, y, done, alphabet)
    {
      if tenth == 0 {
        return Some(DivideByZero), progress;
      }
      percent, progress := Tick(i, tenth, percent, progress);
      failure, done := EncodeRow(lines, i, x, y, charDict, alphabet, done);
      if failure.Some? {
        return;
      }
    }
    if size > 0 {
      TicksQuotient(size, tenth);
    }
    return None, progress;
  }

  /** build_char_dataset with the lines of the file given in place of its
      path and shuffling off; `progress` is what the loop prints. */
  method BuildCharDataset(lines: seq<string>, documentMaxLen: int, limit: Option<int>)
    returns (r: Result<CharData>, progress: seq<int>)
    ensures r.Err? <==> DatasetError(lines, documentMaxLen, limit).Some?
    ensures r.Err? ==> r.error == DatasetError(lines, documentMaxLen, limit).value
    ensures r.Ok? ==>
      var size := Size(lines, limit);
      && size >= 0
      && CharRows(lines, size).Ok?
      && r.value.vocabularySize == |CharDict(Alphabet)| == 70
      && r.value.x.Length0 == size && r.value.x.Length1 == documentMaxLen
      && r.value.y.Length == size
      && progress == Percents(PercentCount(size))
      && (forall i :: 0 <= i < size ==> r.value.y[i] == CharRows(lines, size).value[i].category)
      && (forall i, j :: 0 <= i < size && 0 <= j < documentMaxLen ==>
            r.value.x[i, j] == Code(Alphabet, CharRows(lines, size).value[i].content, j))
  {
    progress := [];
    var alphabet := Alphabet;
    AlphabetNoDup();
    var charDict := BuildCharDict(alphabet);
    CharDictCodes(alphabet);
    var size := if limit.Some? then limit.value else |lines|;
    if size < 0 || documentMaxLen < 0 {
      return Err(Overflow), progress;
    }
    var x := new int[size, documentMaxLen];
    var y := new int[size];
    var failure;
    failure, progress := EncodeRows(lines, size, x, y, charDict, alphabet);
    if failure.Some? {
      return Err(failure.value), progress;
    }
    CharDictFacts(alphabet);
    return Ok(CharData(x, y, |alphabet| + 2)), progress;
  }
}
