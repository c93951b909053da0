/** The .NET string operations that the preprocessing code relies on:
    ordinal search, String.Split on a separator, and lower-casing. */
module Strings {
  import opened Results

  /** `sep` occurs in `s` starting at position `k`. */
  predicate OccursAt(s: string, sep: string, k: nat) {
    k + |sep| <= |s| && s[k..k + |sep|] == sep
  }

  predicate Contains(s: string, sep: string) {
    exists k: nat | k <= |s| :: OccursAt(s, sep, k)
  }

  /** Ordinal left-to-right search for `sep` from position `from`
      (String.IndexOf with an ordinal comparison). */
  function FindFrom(s: string, sep: string, from: nat): (r: Option<nat>)
    requires |sep| > 0
    ensures r.Some? ==> from <= r.value && OccursAt(s, sep, r.value)
    ensures r.Some? ==> forall k: nat :: from <= k < r.value ==> !OccursAt(s, sep, k)
    ensures r.None? ==> forall k: nat :: from <= k ==> !OccursAt(s, sep, k)
    decreases |s| - from
  {
    if from + |sep| > |s| then None
    else if s[from..from + |sep|] == sep then Some(from)
    else FindFrom(s, sep, from + 1)
  }

  /** The first position at which `sep` occurs in `s`. */
  function Find(s: string, sep: string): (r: Option<nat>)
    requires |sep| > 0
    ensures r.Some? ==> OccursAt(s, sep, r.value)
    ensures r.Some? ==> forall k: nat :: k < r.value ==> !OccursAt(s, sep, k)
    ensures r.None? ==> forall k: nat :: !OccursAt(s, sep, k)
  {
    FindFrom(s, sep, 0)
  }

  /** The search result is determined by the first occurrence. */
  lemma FindFirst(s: string, sep: string, i: nat)
    requires |sep| > 0
    requires OccursAt(s, sep, i)
    requires forall k: nat :: k < i ==> !OccursAt(s, sep, k)
    ensures Find(s, sep) == Some(i)
  {
  }

  /** String.Split(sep) with StringSplitOptions.None: the pieces between
      non-overlapping occurrences of `sep`, found left to right; empty
      pieces are kept. */
  function Split(s: string, sep: string): (parts: seq<string>)
    requires |sep| > 0
    ensures |parts| >= 1
    decreases |s|
  {
    match Find(s, sep)
    case None => [s]
    case Some(i) => [s[..i]] + Split(s[i + |sep|..], sep)
  }

  /** String.Join(sep, parts), the inverse of Split. */
  function Join(parts: seq<string>, sep: string): string
  {
    if |parts| == 0 then ""
    else if |parts| == 1 then parts[0]
    else parts[0] + sep + Join(parts[1..], sep)
  }

  /** Splitting loses nothing: joining the pieces back gives the input. */
  lemma {:induction false} SplitJoin(s: string, sep: string)
    requires |sep| > 0
    ensures Join(Split(s, sep), sep) == s
    decreases |s|
  {
    var found := Find(s, sep);
    if found.Some? {
      var i := found.value;
      var head, rest := s[..i], s[i + |sep|..];
      var tail := Split(rest, sep);
      assert Split(s, sep) == [head] + tail;
      SplitJoin(rest, sep);
      JoinCons(head, tail, sep);
      assert s == head + sep + rest;
    }
  }

  lemma JoinCons(head: string, tail: seq<string>, sep: string)
    requires |tail| >= 1
    ensures Join([head] + tail, sep) == head + sep + Join(tail, sep)
  {
    assert ([head] + tail)[1..] == tail;
  }

  /** No piece of a split contains the separator. */
  lemma {:induction false} SplitPiecesFree(s: string, sep: string)
    requires |sep| > 0
    ensures forall p :: p in Split(s, sep) ==> !Contains(p, sep)
    decreases |s|
  {
    match Find(s, sep)
    case None =>
      assert Split(s, sep) == [s];
    case Some(i) =>
      var rest := s[i + |sep|..];
      SplitPiecesFree(rest, sep);
      assert Split(s, sep) == [s[..i]] + Split(rest, sep);
      var head := s[..i];
      assert s == head + s[i..];
      forall k: nat | k + |sep| <= |head| ensures OccursAt(s, sep, k) == OccursAt(head, sep, k) {
        OccursInPrefix(head, s[i..], sep, k);
      }
  }

  /** An occurrence that ends inside `a` does not see what follows `a`. */
  lemma OccursInPrefix(a: string, b: string, sep: string, k: nat)
    requires k + |sep| <= |a|
    ensures OccursAt(a + b, sep, k) == OccursAt(a, sep, k)
  {
    assert (a + b)[k..k + |sep|] == a[k..k + |sep|];
  }

  /** A one-character separator occurs where that character stands. */
  lemma OccursAtChar(s: string, sep: string, k: nat)
    requires |sep| == 1
    ensures OccursAt(s, sep, k) <==> k < |s| && s[k] == sep[0]
  {
    if k < |s| {
      assert s[k..k + 1] == [s[k]];
    }
  }

  /** A one-character separator occurs exactly where that character does. */
  lemma ContainsChar(s: string, c: char)
    ensures Contains(s, [c]) <==> c in s
  {
    if c in s {
      var k :| 0 <= k < |s| && s[k] == c;
      assert OccursAt(s, [c], k);
    }
    if Contains(s, [c]) {
      var k: nat :| k <= |s| && OccursAt(s, [c], k);
      assert s[k] == s[k..k + 1][0];
    }
  }

  /** Splitting on a one-character separator distributes over a
      separator placed between two strings. */
  lemma {:induction false} SplitAround(a: string, sep: string, b: string)
    requires |sep| == 1
    ensures Split(a + sep + b, sep) == Split(a, sep) + Split(b, sep)
    decreases |a|
  {
    var found := Find(a, sep);
    if found.None? {
      SplitAroundLast(a, sep, b);
    } else {
      var i := found.value;
      var x, rest := a[..i], a[i + 1..];
      var p, q := Split(rest, sep), Split(b, sep);
      assert Split(a + sep + b, sep) == [x] + Split(rest + sep + b, sep) && Split(a, sep) == [x] + p by {
        SplitAroundFirst(a, sep, b, i);
      }
      assert Split(rest + sep + b, sep) == p + q by {
        SplitAround(rest, sep, b);
      }
      assert [x] + (p + q) == ([x] + p) + q;
    }
  }

  lemma SplitAroundLast(a: string, sep: string, b: string)
    requires |sep| == 1 && Find(a, sep).None?
    ensures Split(a + sep + b, sep) == [a] + Split(b, sep)
  {
    var s := a + sep + b;
    assert s == a + (sep + b);
    forall k: nat | k < |a| ensures !OccursAt(s, sep, k) {
      OccursInPrefix(a, sep + b, sep, k);
    }
    OccursAtChar(s, sep, |a|);
    FindFirst(s, sep, |a|);
    assert s[|a| + 1..] == b;
    assert s[..|a|] == a;
  }

  lemma SplitAroundFirst(a: string, sep: string, b: string, i: nat)
    requires |sep| == 1 && Find(a, sep) == Some(i)
    ensures Split(a + sep + b, sep) == [a[..i]] + Split(a[i + 1..] + sep + b, sep)
    ensures Split(a, sep) == [a[..i]] + Split(a[i + 1..], sep)
  {
    var s := a + sep + b;
    assert s == a + (sep + b);
    forall k: nat | k <= i ensures OccursAt(s, sep, k) == OccursAt(a, sep, k) {
      OccursInPrefix(a, sep + b, sep, k);
    }
    FindFirst(s, sep, i);
    assert s[i + 1..] == a[i + 1..] + sep + b;
    assert s[..i] == a[..i];
  }

  /** A piece followed by the separator, with no earlier occurrence, is
      the first piece of the split. */
  lemma SplitFirstPiece(a: string, sep: string, b: string)
    requires |sep| > 0
    requires forall k: nat :: k < |a| ==> !OccursAt(a + sep + b, sep, k)
    ensures Split(a + sep + b, sep) == [a] + Split(b, sep)
  {
    var s := a + sep + b;
    assert s[|a|..|a| + |sep|] == sep;
    FindFirst(s, sep, |a|);
    assert s[|a| + |sep|..] == b;
    assert s[..|a|] == a;
  }

  /** Text without the separator is a single piece. */
  lemma SplitWhole(s: string, sep: string)
    requires |sep| > 0 && !Contains(s, sep)
    ensures Split(s, sep) == [s]
  {
  }

  /** Index of the first occurrence of character `c` (String.IndexOf(char)). */
  function IndexOfChar(s: string, c: char): (r: Option<nat>)
    ensures r.Some? ==> r.value < |s| && s[r.value] == c && c !in s[..r.value]
    ensures r.None? <==> c !in s
  {
    if |s| == 0 then None
    else if s[0] == c then Some(0)
    else match IndexOfChar(s[1..], c)
      case None => None
      case Some(i) =>
        assert s[..i + 1] == [s[0]] + s[1..][..i];
        Some(i + 1)
  }

  /** The first position holding `c` is the one IndexOf reports. */
  lemma IndexOfCharAt(s: string, c: char, k: nat)
    requires k < |s| && s[k] == c && c !in s[..k]
    ensures IndexOfChar(s, c) == Some(k)
  {
  }

  /** Char.ToLower restricted to the ASCII letters. */
  function ToLowerChar(c: char): char
  {
    if 'A' <= c <= 'Z' then (c as int - 'A' as int + 'a' as int) as char else c
  }

  /** String.ToLower, character by character. */
  function ToLower(s: string): (r: string)
    ensures |r| == |s|
    ensures forall i :: 0 <= i < |s| ==> r[i] == ToLowerChar(s[i])
  {
    seq(|s|, i requires 0 <= i < |s| => ToLowerChar(s[i]))
  }

  /** Lowering works character by character, so it distributes over concatenation. */
  lemma ToLowerAppend(a: string, b: string)
    ensures ToLower(a + b) == ToLower(a) + ToLower(b)
  {
    assert forall i :: 0 <= i < |a + b| ==> ToLower(a + b)[i] == (ToLower(a) + ToLower(b))[i];
  }
}
