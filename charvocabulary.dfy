/** The character vocabulary of build_char_dataset: the 68-character
    alphabet and the dictionary that numbers <pad>, <unk> and then every
    alphabet character in turn.  The dictionary is described for any
    alphabet without repeated characters; `Alphabet` is the one the
    routine uses. */
module CharVocabulary {
  import opened Sequences
  import WordVocabulary

  const Letters: string := "abcdefghijklmnopqrstuvwxyz"
  const Numerals: string := "0123456789"
  const MarksA: string := "-,;.!?:\U{2019}'\"/|_#$%\U{02C6}"
  const MarksB: string := "&*\U{02DC}\U{2018}+=<>()[]{} "

  /** The 68 characters of the alphabet, in dictionary order. */
  const Alphabet: string := Letters + Numerals + MarksA + MarksB

  const Pad: string := WordVocabulary.Pad
  const Unk: string := WordVocabulary.Unk

  predicate IsMark(c: char) {
    !('a' <= c <= 'z') && !('0' <= c <= '9')
  }

  /** The letters are the 26 consecutive code points from 'a'. */
  lemma LettersCodes()
    ensures |Letters| == 26 && forall i :: 0 <= i < |Letters| ==> Letters[i] as int == 'a' as int + i
  {
  }

  lemma LettersFacts()
    ensures NoDup(Letters) && forall i :: 0 <= i < |Letters| ==> 'a' <= Letters[i] <= 'z'
  {
    LettersCodes();
  }

  lemma NumeralsFacts()
    ensures NoDup(Numerals) && forall i :: 0 <= i < |Numerals| ==> '0' <= Numerals[i] <= '9'
  {
  }

  lemma MarksAFacts()
    ensures NoDup(MarksA) && forall i :: 0 <= i < |MarksA| ==> IsMark(MarksA[i])
  {
  }

  lemma MarksBFacts()
    ensures NoDup(MarksB) && forall i :: 0 <= i < |MarksB| ==> IsMark(MarksB[i])
  {
  }

  lemma MarksApart()
    ensures forall i, j :: 0 <= i < |MarksA| && 0 <= j < |MarksB| ==> MarksA[i] != MarksB[j]
  {
  }

  /** Letters, digits and two disjoint sets of marks, each without
      repetitions, make a sequence without repetitions. */
  lemma ClassesNoDup(l: string, n: string, ma: string, mb: string)
    requires NoDup(l) && forall i :: 0 <= i < |l| ==> 'a' <= l[i] <= 'z'
    requires NoDup(n) && forall i :: 0 <= i < |n| ==> '0' <= n[i] <= '9'
    requires NoDup(ma) && forall i :: 0 <= i < |ma| ==> IsMark(ma[i])
    requires NoDup(mb) && forall i :: 0 <= i < |mb| ==> IsMark(mb[i])
    requires forall i, j :: 0 <= i < |ma| && 0 <= j < |mb| ==> ma[i] != mb[j]
    ensures NoDup(l + n + ma + mb)
  {
    NoDupAppend(l, n);
    var ln := l + n;
    assert forall i :: 0 <= i < |ln| ==> !IsMark(ln[i]) by {
      forall i | 0 <= i < |ln| ensures !IsMark(ln[i]) {
        if i < |l| {
          assert ln[i] == l[i];
        } else {
          assert ln[i] == n[i - |l|];
        }
      }
    }
    NoDupAppend(ln, ma);
    var lnm := ln + ma;
    forall c | c in mb ensures c !in lnm {
      var j :| 0 <= j < |mb| && mb[j] == c;
      forall i | 0 <= i < |lnm| ensures lnm[i] != c {
        if i < |ln| {
          assert lnm[i] == ln[i];
        } else {
          assert lnm[i] == ma[i - |ln|];
        }
      }
    }
    NoDupAppend(lnm, mb);
  }

  /** No character occurs twice in the alphabet. */
  lemma AlphabetNoDup()
    ensures NoDup(Alphabet) && |Alphabet| == 68
  {
    LettersFacts();
    NumeralsFacts();
    MarksAFacts();
    MarksBFacts();
    MarksApart();
    ClassesNoDup(Letters, Numerals, MarksA, MarksB);
  }

  /** Each character as a one-character string, as c.ToString() gives it. */
  function Singletons(s: string): (r: seq<string>)
    ensures |r| == |s| && forall i :: 0 <= i < |s| ==> r[i] == [s[i]]
  {
    seq(|s|, i requires 0 <= i < |s| => [s[i]])
  }

  /** The keys of char_dict in the order they are inserted. */
  function CharKeys(alphabet: string): seq<string>
  {
    [Pad, Unk] + Singletons(alphabet)
  }

  lemma CharKeysNoDup(alphabet: string)
    requires NoDup(alphabet)
    ensures NoDup(CharKeys(alphabet))
  {
    var singles := Singletons(alphabet);
    forall i, j | 0 <= i < j < |singles| ensures singles[i] != singles[j] {
      assert singles[i][0] == alphabet[i] && singles[j][0] == alphabet[j];
    }
    NoDupAppend([Pad, Unk], singles);
  }

  /** The dictionary the alphabet loop builds: <pad>, <unk>, then every
      alphabet character, each numbered by the Count before its insertion. */
  function CharDict(alphabet: string): map<string, int>
  {
    PositionMap(CharKeys(alphabet))
  }

  /** The char_dict loop, with the dictionary as a map reassigned per insertion. */
  method BuildCharDict(alphabet: string) returns (charDict: map<string, int>)
    requires NoDup(alphabet)
    ensures charDict == CharDict(alphabet)
  {
    var order := CharKeys(alphabet);
    CharKeysNoDup(alphabet);
    charDict := map[];
    HoldsNext(order, charDict, 0);
    charDict := charDict[Pad := 0];
    HoldsNext(order, charDict, 1);
    charDict := charDict[Unk := 1];
    for k := 0 to |alphabet|
      invariant HoldsFirst(order, charDict, k + 2)
    {
      assert order[k + 2] == [alphabet[k]];
      HoldsNext(order, charDict, k + 2);
      charDict := charDict[[alphabet[k]] := |charDict|];
    }
    HoldsAll(order, charDict);
  }

  /** <pad> is 0 and <unk> is 1. */
  lemma ReservedCodes(alphabet: string)
    requires NoDup(alphabet)
    ensures Pad in CharDict(alphabet) && CharDict(alphabet)[Pad] == 0
    ensures Unk in CharDict(alphabet) && CharDict(alphabet)[Unk] == 1
  {
    CharKeysNoDup(alphabet);
    IndexOfNoDup(CharKeys(alphabet), 0);
    IndexOfNoDup(CharKeys(alphabet), 1);
  }

  /** A one-character string is a key exactly when its character is in
      the alphabet, and then its value is the character's position plus two. */
  lemma CharCode(alphabet: string, c: char)
    requires NoDup(alphabet)
    ensures [c] in CharDict(alphabet) <==> c in alphabet
    ensures c in alphabet ==> CharDict(alphabet)[[c]] == IndexOf(alphabet, c) + 2
  {
    var order := CharKeys(alphabet);
    if c in alphabet {
      var k := IndexOf(alphabet, c);
      assert order[k + 2] == [c];
      CharKeysNoDup(alphabet);
      IndexOfNoDup(order, k + 2);
    }
    if [c] in CharDict(alphabet) {
      var i := IndexOf(order, [c]);
      assert order[i] == [alphabet[i - 2]];
    }
  }

  /** The dictionary has |alphabet| + 2 keys, numbered 0 .. |alphabet| + 1
      without gaps or repeats, the k-th alphabet character k + 2. */
  lemma CharDictFacts(alphabet: string)
    requires NoDup(alphabet)
    ensures |CharDict(alphabet)| == |alphabet| + 2
    ensures forall k :: 0 <= k < |alphabet| ==>
      [alphabet[k]] in CharDict(alphabet) && CharDict(alphabet)[[alphabet[k]]] == k + 2
    ensures forall w :: w in CharDict(alphabet) ==> 0 <= CharDict(alphabet)[w] < |alphabet| + 2
    ensures forall u, w :: u in CharDict(alphabet) && w in CharDict(alphabet) && u != w ==>
      CharDict(alphabet)[u] != CharDict(alphabet)[w]
  {
    var order := CharKeys(alphabet);
    CharKeysNoDup(alphabet);
    PositionMapIndices(order);
    forall k | 0 <= k < |alphabet|
      ensures [alphabet[k]] in CharDict(alphabet) && CharDict(alphabet)[[alphabet[k]]] == k + 2
    {
      assert order[k + 2] == [alphabet[k]];
    }
  }

  /** The index the row loop gives a character: its alphabet position
      plus two, or 1, the index of <unk>, for a character outside the
      alphabet. */
  function CharIndex(alphabet: string, c: char): int
  {
    if c in alphabet then IndexOf(alphabet, c) + 2 else 1
  }

  /** The cell value of position `j` of a row holding `content`: the index
      of its character, or 0, the index of <pad>, past the end. */
  function Code(alphabet: string, content: string, j: nat): int
  {
    if j < |content| then CharIndex(alphabet, content[j]) else 0
  }

  /** The codes are valid indices into the vocabulary of |alphabet| + 2 entries. */
  lemma CodeRange(alphabet: string, content: string, j: nat)
    ensures 0 <= Code(alphabet, content, j) < |alphabet| + 2
  {
  }

  /** What the row loop needs of its dictionary: <pad> is 0, <unk> is 1,
      and looking a character up, with <unk> for a missing key, gives its
      index. */
  ghost predicate Codes(alphabet: string, charDict: map<string, int>) {
    && Pad in charDict && charDict[Pad] == 0
    && Unk in charDict && charDict[Unk] == 1
    && forall c: char {:trigger CharIndex(alphabet, c)} ::
         CharIndex(alphabet, c) == if [c] in charDict then charDict[[c]] else charDict[Unk]
  }

  /** The dictionary of the alphabet loop has those codes. */
  lemma CharDictCodes(alphabet: string)
    requires NoDup(alphabet)
    ensures Codes(alphabet, CharDict(alphabet))
  {
    ReservedCodes(alphabet);
    forall c: char ensures CharIndex(alphabet, c) ==
      if [c] in CharDict(alphabet) then CharDict(alphabet)[[c]] else CharDict(alphabet)[Unk]
    {
      CharCode(alphabet, c);
    }
  }
}
