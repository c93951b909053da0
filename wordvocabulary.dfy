/** build_word_dict: the word vocabulary.  Every cleaned word longer than
    one character is counted; the distinct words, in order of first
    appearance (GroupBy), are ordered by descending count with ties kept in
    that order (a stable OrderByDescending); and each is given the next
    free index after the reserved tokens <pad>, <unk> and <eos>. */
module WordVocabulary {
  import opened Sequences
  import opened Strings
  import opened TextCleaning

  const Pad: string := "<pad>"
  const Unk: string := "<unk>"
  const Eos: string := "<eos>"

  /** The reserved tokens, in the order they enter the dictionary. */
  const Reserved: seq<string> := [Pad, Unk, Eos]

  /** The tokens longer than one character, in order (Where(x => x.Length > 1)). */
  function LongTokens(tokens: seq<string>): seq<string>
  {
    if tokens == [] then []
    else (if |tokens[0]| > 1 then [tokens[0]] else []) + LongTokens(tokens[1..])
  }

  /** The filter keeps exactly the tokens longer than one character. */
  lemma {:induction false} LongTokensMembers(tokens: seq<string>, w: string)
    ensures w in LongTokens(tokens) <==> w in tokens && |w| > 1
  {
    if tokens != [] {
      LongTokensMembers(tokens[1..], w);
      assert tokens == [tokens[0]] + tokens[1..];
    }
  }

  /** The words one line contributes: its cleaned text split on single spaces. */
  function LineWords(line: string): seq<string>
  {
    LongTokens(Split(CleanStr(line), " "))
  }

  /** The `words` list: the words of every line, line after line. */
  function AllWords(lines: seq<string>): seq<string>
  {
    ConcatMap(LineWords, lines)
  }

  /** A word is in the list exactly when some line contributes it. */
  lemma AllWordsMembers(lines: seq<string>, w: string)
    ensures w in AllWords(lines) <==> exists i :: 0 <= i < |lines| && w in LineWords(lines[i])
  {
    ConcatMapMembers(LineWords, lines, w);
  }

  /** The Count of a word's group. */
  function Count(words: seq<string>, w: string): nat
  {
    multiset(words)[w]
  }

  /** The keys of words.GroupBy(x => x): each distinct word once, in order
      of first appearance. */
  function Distinct(words: seq<string>): (keys: seq<string>)
    ensures NoDup(keys)
    ensures forall w :: w in keys <==> w in words
  {
    if words == [] then []
    else
      var keys := Distinct(words[..|words| - 1]);
      var last := words[|words| - 1];
      assert words == words[..|words| - 1] + [last];
      if last in keys then keys else keys + [last]
  }

  /** Places `w` before the first word whose count is not larger, so that
      among equal counts `w` comes first. */
  function InsertByCount(words: seq<string>, w: string, sorted: seq<string>): seq<string>
  {
    if sorted == [] || Count(words, w) >= Count(words, sorted[0]) then [w] + sorted
    else [sorted[0]] + InsertByCount(words, w, sorted[1..])
  }

  /** OrderByDescending(x => x.Count) on the groups: a stable sort. */
  function SortByCount(words: seq<string>, groups: seq<string>): seq<string>
  {
    if groups == [] then []
    else InsertByCount(words, groups[0], SortByCount(words, groups[1..]))
  }

  predicate SortedByCount(words: seq<string>, s: seq<string>) {
    forall i, j :: 0 <= i < j < |s| ==> Count(words, s[i]) >= Count(words, s[j])
  }

  /** word_counter: the distinct words ordered by descending count. */
  function Ranked(lines: seq<string>): seq<string>
  {
    var words := AllWords(lines);
    SortByCount(words, Distinct(words))
  }

  /** The keys of word_dict in the order they are inserted. */
  function InsertionOrder(lines: seq<string>): seq<string>
  {
    Reserved + Ranked(lines)
  }

  /** The dictionary build_word_dict returns: each key is mapped to the
      number of keys inserted before it. */
  function WordDict(lines: seq<string>): map<string, int>
  {
    PositionMap(InsertionOrder(lines))
  }

  // ---------------------------------------------------------------------
  // The sort

  lemma {:induction false} InsertByCountElements(words: seq<string>, w: string, sorted: seq<string>)
    ensures multiset(InsertByCount(words, w, sorted)) == multiset(sorted) + multiset{w}
    ensures |InsertByCount(words, w, sorted)| == |sorted| + 1
    decreases |sorted|
  {
    if sorted != [] && Count(words, w) < Count(words, sorted[0]) {
      InsertByCountElements(words, w, sorted[1..]);
      assert sorted == [sorted[0]] + sorted[1..];
    }
  }

  lemma {:induction false} InsertByCountSorted(words: seq<string>, w: string, sorted: seq<string>)
    requires SortedByCount(words, sorted)
    ensures SortedByCount(words, InsertByCount(words, w, sorted))
    decreases |sorted|
  {
    if sorted != [] && Count(words, w) < Count(words, sorted[0]) {
      var rest := InsertByCount(words, w, sorted[1..]);
      InsertByCountSorted(words, w, sorted[1..]);
      InsertByCountElements(words, w, sorted[1..]);
      var r := [sorted[0]] + rest;
      forall j | 0 < j < |r| ensures Count(words, sorted[0]) >= Count(words, r[j]) {
        assert r[j] in multiset(rest);
        assert r[j] == w || r[j] in multiset(sorted[1..]);
        if r[j] != w {
          var k :| 0 <= k < |sorted[1..]| && sorted[1..][k] == r[j];
          assert sorted[k + 1] == r[j];
        }
      }
    }
  }

  lemma {:induction false} InsertByCountNoDup(words: seq<string>, w: string, sorted: seq<string>)
    requires NoDup(sorted) && w !in sorted
    ensures NoDup(InsertByCount(words, w, sorted))
    decreases |sorted|
  {
    if sorted != [] && Count(words, w) < Count(words, sorted[0]) {
      InsertByCountNoDup(words, w, sorted[1..]);
      InsertByCountElements(words, w, sorted[1..]);
      var rest := InsertByCount(words, w, sorted[1..]);
      assert sorted[0] !in multiset(rest);
    }
  }

  /** The sort returns a permutation of the groups, in descending count order,
      and keeps them free of repetitions. */
  lemma SortByCountSpec(words: seq<string>, groups: seq<string>)
    ensures multiset(SortByCount(words, groups)) == multiset(groups)
    ensures SortedByCount(words, SortByCount(words, groups))
    ensures NoDup(groups) ==> NoDup(SortByCount(words, groups))
  {
    SortByCountPermutes(words, groups);
    SortByCountSorted(words, groups);
    if NoDup(groups) {
      SortByCountNoDup(words, groups);
    }
  }

  lemma {:induction false} SortByCountPermutes(words: seq<string>, groups: seq<string>)
    ensures multiset(SortByCount(words, groups)) == multiset(groups)
    decreases |groups|
  {
    if groups != [] {
      SortByCountPermutes(words, groups[1..]);
      InsertByCountElements(words, groups[0], SortByCount(words, groups[1..]));
      assert groups == [groups[0]] + groups[1..];
    }
  }

  lemma {:induction false} SortByCountSorted(words: seq<string>, groups: seq<string>)
    ensures SortedByCount(words, SortByCount(words, groups))
    decreases |groups|
  {
    if groups != [] {
      SortByCountSorted(words, groups[1..]);
      InsertByCountSorted(words, groups[0], SortByCount(words, groups[1..]));
    }
  }

  lemma {:induction false} SortByCountNoDup(words: seq<string>, groups: seq<string>)
    requires NoDup(groups)
    ensures NoDup(SortByCount(words, groups))
    decreases |groups|
  {
    if groups != [] {
      var rest := SortByCount(words, groups[1..]);
      assert NoDup(groups[1..]);
      SortByCountNoDup(words, groups[1..]);
      SortByCountPermutes(words, groups[1..]);
      assert groups[0] !in groups[1..];
      assert groups[0] !in multiset(rest);
      InsertByCountNoDup(words, groups[0], rest);
    }
  }

  /** Inserting a word whose count is at least that of `b` puts it before `b`. */
  lemma {:induction false} InsertByCountAhead(words: seq<string>, a: string, b: string, sorted: seq<string>)
    requires b in sorted && a !in sorted
    requires Count(words, a) >= Count(words, b)
    ensures Before(InsertByCount(words, a, sorted), a, b)
    decreases |sorted|
  {
    InsertByCountElements(words, a, sorted);
    var r := InsertByCount(words, a, sorted);
    assert a in multiset(r) && b in multiset(r);
    if Count(words, a) >= Count(words, sorted[0]) {
      IndexOfCons(a, sorted, b);
    } else {
      var rest := InsertByCount(words, a, sorted[1..]);
      assert sorted[0] != b;
      InsertByCountAhead(words, a, b, sorted[1..]);
      IndexOfCons(sorted[0], rest, a);
      IndexOfCons(sorted[0], rest, b);
    }
  }

  /** Inserting a third word keeps the relative order of two others. */
  lemma {:induction false} InsertByCountKeepsOrder(words: seq<string>, x: string, a: string, b: string, sorted: seq<string>)
    requires Before(sorted, a, b) && x != a && x != b
    ensures Before(InsertByCount(words, x, sorted), a, b)
    decreases |sorted|
  {
    InsertByCountElements(words, x, sorted);
    var r := InsertByCount(words, x, sorted);
    assert a in multiset(r) && b in multiset(r);
    if Count(words, x) >= Count(words, sorted[0]) {
      IndexOfCons(x, sorted, a);
      IndexOfCons(x, sorted, b);
    } else {
      var rest := InsertByCount(words, x, sorted[1..]);
      InsertByCountElements(words, x, sorted[1..]);
      if sorted[0] == a {
        assert b in multiset(rest);
        IndexOfCons(sorted[0], rest, b);
      } else {
        assert sorted[0] != b;
        IndexOfCons(sorted[0], sorted[1..], a);
        IndexOfCons(sorted[0], sorted[1..], b);
        InsertByCountKeepsOrder(words, x, a, b, sorted[1..]);
        IndexOfCons(sorted[0], rest, a);
        IndexOfCons(sorted[0], rest, b);
      }
    }
  }

  /** The sort is stable: words of equal count keep their relative order. */
  lemma {:induction false} SortByCountStable(words: seq<string>, groups: seq<string>, a: string, b: string)
    requires NoDup(groups)
    requires Before(groups, a, b) && Count(words, a) == Count(words, b)
    ensures Before(SortByCount(words, groups), a, b)
    decreases |groups|
  {
    var rest := SortByCount(words, groups[1..]);
    assert groups == [groups[0]] + groups[1..];
    assert NoDup(groups[1..]);
    if groups[0] == a {
      assert b in rest && a !in rest by {
        SortByCountPermutes(words, groups[1..]);
        assert b in multiset(groups[1..]) && a !in multiset(groups[1..]);
      }
      InsertByCountAhead(words, a, b, rest);
    } else {
      assert groups[0] != b;
      IndexOfCons(groups[0], groups[1..], a);
      IndexOfCons(groups[0], groups[1..], b);
      SortByCountStable(words, groups[1..], a, b);
      InsertByCountKeepsOrder(words, groups[0], a, b, rest);
    }
  }

  // ---------------------------------------------------------------------
  // GroupBy order

  /** GroupBy lists the keys in the order of their first appearance. */
  lemma {:induction false} DistinctOrder(words: seq<string>, a: string, b: string)
    requires a in words && b in words
    ensures Before(Distinct(words), a, b) <==> IndexOf(words, a) < IndexOf(words, b)
    decreases |words|
  {
    var init, last := words[..|words| - 1], words[|words| - 1];
    var keys := Distinct(init);
    assert words == init + [last];
    IndexOfSnoc(init, last, a);
    IndexOfSnoc(init, last, b);
    if last !in keys {
      IndexOfSnoc(keys, last, a);
      IndexOfSnoc(keys, last, b);
    }
    if a in init && b in init {
      DistinctOrder(init, a, b);
    }
  }

  // ---------------------------------------------------------------------
  // The dictionary

  /** No word of a line is a reserved token, and every word has more than one character. */
  lemma LineWordsShape(line: string, w: string)
    requires w in LineWords(line)
    ensures |w| > 1 && w !in Reserved
  {
    var cleaned := CleanStr(line);
    LongTokensMembers(Split(cleaned, " "), w);
    SplitPiecesChars(cleaned, " ", w);
    assert w[0] in cleaned;
    assert w[0] != '<';
  }

  /** Every character of a piece of a split is a character of the input. */
  lemma {:induction false} SplitPiecesChars(s: string, sep: string, p: string)
    requires |sep| > 0 && p in Split(s, sep)
    ensures forall c :: c in p ==> c in s
    decreases |s|
  {
    match Find(s, sep)
    case None =>
    case Some(i) =>
      var rest := s[i + |sep|..];
      assert Split(s, sep) == [s[..i]] + Split(rest, sep);
      if p != s[..i] {
        SplitPiecesChars(rest, sep, p);
      }
  }

  lemma RankedMembers(lines: seq<string>, w: string)
    ensures w in Ranked(lines) <==> w in AllWords(lines)
  {
    var words := AllWords(lines);
    SortByCountSpec(words, Distinct(words));
    assert w in Ranked(lines) <==> w in multiset(Ranked(lines));
    assert w in Distinct(words) <==> w in multiset(Distinct(words));
  }

  /** A ranked word is a long cleaned word, never a reserved token. */
  lemma RankedNotReserved(lines: seq<string>, w: string)
    requires w in Ranked(lines)
    ensures |w| > 1 && w !in Reserved
  {
    RankedMembers(lines, w);
    AllWordsMembers(lines, w);
    var i :| 0 <= i < |lines| && w in LineWords(lines[i]);
    LineWordsShape(lines[i], w);
  }

  lemma InsertionOrderNoDup(lines: seq<string>)
    ensures NoDup(InsertionOrder(lines))
  {
    var words := AllWords(lines);
    var ranked := Ranked(lines);
    SortByCountNoDup(words, Distinct(words));
    forall w | w in ranked ensures w !in Reserved {
      RankedNotReserved(lines, w);
    }
    NoDupAppend(Reserved, ranked);
  }

  /** build_word_dict, with the lines of the file given in place of its path. */
  method BuildWordDict(lines: seq<string>) returns (wordDict: map<string, int>)
    ensures wordDict == WordDict(lines)
  {
    var words: seq<string> := [];
    for i := 0 to |lines|
      invariant words == AllWords(lines[..i])
    {
      assert lines[..i + 1][..i] == lines[..i];
      words := words + LineWords(lines[i]);
    }
    assert lines[..|lines|] == lines;
    var wordCounter := SortByCount(words, Distinct(words));
    ghost var order := InsertionOrder(lines);
    assert order == Reserved + wordCounter;
    InsertionOrderNoDup(lines);

    wordDict := map[];
    HoldsNext(order, wordDict, 0);
    wordDict := wordDict[Pad := 0];
    HoldsNext(order, wordDict, 1);
    wordDict := wordDict[Unk := 1];
    HoldsNext(order, wordDict, 2);
    wordDict := wordDict[Eos := 2];
    var k := 0;
    while k < |wordCounter|
      invariant 0 <= k <= |wordCounter|
      invariant HoldsFirst(order, wordDict, k + 3)
    {
      var w := wordCounter[k];
      assert w == order[k + 3];
      HoldsNext(order, wordDict, k + 3);
      wordDict := wordDict[w := |wordDict|];
      k := k + 1;
    }
    HoldsAll(order, wordDict);
  }

  /** The reserved tokens get 0, 1 and 2, and every other key the next
      index after them, so the values are exactly 0 .. Count - 1, each once. */
  lemma WordDictIndices(lines: seq<string>)
    ensures Pad in WordDict(lines) && WordDict(lines)[Pad] == 0
    ensures Unk in WordDict(lines) && WordDict(lines)[Unk] == 1
    ensures Eos in WordDict(lines) && WordDict(lines)[Eos] == 2
    ensures |WordDict(lines)| == |Ranked(lines)| + 3
    ensures forall w :: w in WordDict(lines) ==> 0 <= WordDict(lines)[w] < |WordDict(lines)|
    ensures forall v :: 0 <= v < |WordDict(lines)| ==>
      InsertionOrder(lines)[v] in WordDict(lines) && WordDict(lines)[InsertionOrder(lines)[v]] == v
    ensures forall u, w :: u in WordDict(lines) && w in WordDict(lines) && u != w ==>
      WordDict(lines)[u] != WordDict(lines)[w]
  {
    var order := InsertionOrder(lines);
    InsertionOrderNoDup(lines);
    PositionMapIndices(order);
    assert order[0] == Pad && order[1] == Unk && order[2] == Eos;
  }

  /** The keys are the reserved tokens and the cleaned words longer than one character. */
  lemma WordDictKeys(lines: seq<string>, w: string)
    ensures w in WordDict(lines) <==>
      w in Reserved || exists i :: 0 <= i < |lines| && w in Split(CleanStr(lines[i]), " ") && |w| > 1
  {
    RankedMembers(lines, w);
    AllWordsMembers(lines, w);
    forall i | 0 <= i < |lines| ensures w in LineWords(lines[i]) <==> w in Split(CleanStr(lines[i]), " ") && |w| > 1 {
      LongTokensMembers(Split(CleanStr(lines[i]), " "), w);
    }
  }

  /** A word with a strictly higher count gets a smaller index. */
  lemma WordDictByCount(lines: seq<string>, a: string, b: string)
    requires a in WordDict(lines) && b in WordDict(lines)
    requires a !in Reserved && b !in Reserved
    requires Count(AllWords(lines), a) > Count(AllWords(lines), b)
    ensures WordDict(lines)[a] < WordDict(lines)[b]
  {
    var words := AllWords(lines);
    var ranked := Ranked(lines);
    InsertionOrderNoDup(lines);
    SortByCountSpec(words, Distinct(words));
    IndexOfAppend(Reserved, ranked, a);
    IndexOfAppend(Reserved, ranked, b);
  }

  /** Words of equal count are indexed in the order they first appear in the text. */
  lemma WordDictTies(lines: seq<string>, a: string, b: string)
    requires a in WordDict(lines) && b in WordDict(lines)
    requires a !in Reserved && b !in Reserved
    requires Count(AllWords(lines), a) == Count(AllWords(lines), b)
    ensures a in AllWords(lines) && b in AllWords(lines)
    ensures WordDict(lines)[a] < WordDict(lines)[b] <==>
      IndexOf(AllWords(lines), a) < IndexOf(AllWords(lines), b)
  {
    var words := AllWords(lines);
    var groups := Distinct(words);
    var ranked := Ranked(lines);
    InsertionOrderNoDup(lines);
    SortByCountSpec(words, groups);
    RankedMembers(lines, a);
    RankedMembers(lines, b);
    IndexOfAppend(Reserved, ranked, a);
    IndexOfAppend(Reserved, ranked, b);
    DistinctOrder(words, a, b);
    if Before(groups, a, b) {
      SortByCountStable(words, groups, a, b);
    } else if a != b {
      DistinctOrder(words, b, a);
      assert IndexOf(groups, a) != IndexOf(groups, b);
      SortByCountStable(words, groups, b, a);
    }
  }
}
