/** clean_str: the text normalisation shared by the word-level routines.
    Its two regular-expression replacements are single-character
    substitutions, so each is a map over the characters of the string. */
module TextCleaning {

  /** The class [A-Za-z0-9(),!?] of the first replacement. */
  predicate InPatternClass(c: char) {
    'A' <= c <= 'Z' || 'a' <= c <= 'z' || '0' <= c <= '9'
    || c == '(' || c == ')' || c == ',' || c == '!' || c == '?'
  }

  /** The characters that survive both replacements. */
  predicate IsWordChar(c: char) {
    InPatternClass(c) && c != ','
  }

  /** Regex.Replace(str, "[^A-Za-z0-9(),!?]", " "). */
  function BlankOutsideClass(s: string): (r: string)
    ensures |r| == |s|
    ensures forall i :: 0 <= i < |s| ==> r[i] == if InPatternClass(s[i]) then s[i] else ' '
  {
    seq(|s|, i requires 0 <= i < |s| => if InPatternClass(s[i]) then s[i] else ' ')
  }

  /** Regex.Replace(str, ",", " "). */
  function BlankCommas(s: string): (r: string)
    ensures |r| == |s|
    ensures forall i :: 0 <= i < |s| ==> r[i] == if s[i] == ',' then ' ' else s[i]
  {
    seq(|s|, i requires 0 <= i < |s| => if s[i] == ',' then ' ' else s[i])
  }

  /** clean_str: the two replacements in turn.  Together they keep exactly
      the letters, digits, parentheses, '!' and '?' in place and turn every
      other character, commas included, into a space. */
  function CleanStr(s: string): (r: string)
    ensures |r| == |s|
    ensures forall i :: 0 <= i < |s| ==> r[i] == if IsWordChar(s[i]) then s[i] else ' '
  {
    BlankCommas(BlankOutsideClass(s))
  }

  /** Cleaning leaves only word characters and spaces. */
  lemma CleanStrOutput(s: string)
    ensures forall i :: 0 <= i < |s| ==> CleanStr(s)[i] == ' ' || IsWordChar(CleanStr(s)[i])
  {
  }

  /** Cleaning a cleaned string changes nothing. */
  lemma CleanStrIdempotent(s: string)
    ensures CleanStr(CleanStr(s)) == CleanStr(s)
  {
    var once := CleanStr(s);
    assert forall i :: 0 <= i < |once| ==> CleanStr(once)[i] == once[i];
  }
}
