/**
 * The few Python string operations the core relies on: `str.split()` with no
 * argument, `' '.join`, `str.replace` of a single character, `str.endswith`
 * and the emptiness test of `str.strip()`.
 */
module Strings {

  /** The characters Python's `str.isspace` (and hence `str.split()`) treats as whitespace. */
  predicate IsSpace(c: char) {
    c == ' ' || c == '\t' || c == '\n' || c == '\r' || c == '\U{000B}' || c == '\U{000C}'
    || ('\U{001C}' <= c <= '\U{001F}') || c == '\U{0085}' || c == '\U{00A0}' || c == '\U{1680}'
    || ('\U{2000}' <= c <= '\U{200A}') || c == '\U{2028}' || c == '\U{2029}'
    || c == '\U{202F}' || c == '\U{205F}' || c == '\U{3000}'
  }

  /** A word as `str.split()` produces it: non-empty, without whitespace. */
  predicate IsWord(w: string) {
    |w| > 0 && forall i :: 0 <= i < |w| ==> !IsSpace(w[i])
  }

  /** True when `s.strip()` would be the empty string. */
  predicate IsBlank(s: string) {
    forall i :: 0 <= i < |s| ==> IsSpace(s[i])
  }

  /** The suffix of `s` after its leading whitespace. */
  function SkipSpaces(s: string): (r: string)
    ensures |r| <= |s|
    ensures r == [] || !IsSpace(r[0])
  {
    if s != [] && IsSpace(s[0]) then SkipSpaces(s[1..]) else s
  }

  /** The longest prefix of `s` that holds no whitespace. */
  function WordPrefix(s: string): (w: string)
    ensures |w| <= |s| && w == s[..|w|]
    ensures forall i :: 0 <= i < |w| ==> !IsSpace(w[i])
  {
    if s != [] && !IsSpace(s[0]) then [s[0]] + WordPrefix(s[1..]) else []
  }

  /** Python's `s.split()`: the maximal runs of non-whitespace characters, in order. */
  function Split(s: string): (ws: seq<string>)
    ensures forall i :: 0 <= i < |ws| ==> IsWord(ws[i])
    decreases |s|
  {
    var t := SkipSpaces(s);
    if t == [] then []
    else
      var w := WordPrefix(t);
      [w] + Split(t[|w|..])
  }

  /** Python's `' '.join(ws)`. */
  function JoinWords(ws: seq<string>): string {
    JoinWith(" ", ws)
  }

  /** Python's `sep.join(xs)`. */
  function JoinWith(sep: string, xs: seq<string>): string {
    if |xs| == 0 then "" else if |xs| == 1 then xs[0] else xs[0] + sep + JoinWith(sep, xs[1..])
  }

  /** Python's `s.replace(c, by)` where the pattern is the single character `c`. */
  function ReplaceChar(s: string, c: char, repl: string): string {
    if s == [] then [] else (if s[0] == c then repl else [s[0]]) + ReplaceChar(s[1..], c, repl)
  }

  /** Python's `s.endswith(suffix)`. */
  predicate EndsWith(s: string, suffix: string) {
    |suffix| <= |s| && s[|s| - |suffix|..] == suffix
  }

  /** The number of elements of `xs` that end with `suffix`. */
  function CountEndingWith(xs: seq<string>, suffix: string): (n: nat)
    ensures n <= |xs|
  {
    if xs == [] then 0
    else CountEndingWith(xs[..|xs| - 1], suffix) + (if EndsWith(xs[|xs| - 1], suffix) then 1 else 0)
  }

  /** Concatenation of a sequence of sequences. */
  function Flatten<T>(xss: seq<seq<T>>): seq<T> {
    if xss == [] then [] else xss[0] + Flatten(xss[1..])
  }

  // ---------------------------------------------------------------------------------------------
  // Splitting and joining

  /** `s.split()` is empty exactly when `s.strip()` is. */
  lemma SplitBlank(s: string)
    ensures Split(s) == [] <==> IsBlank(s)
  {
    SkipSpacesBlank(s);
  }

  lemma {:induction false} SkipSpacesBlank(s: string)
    ensures SkipSpaces(s) == [] <==> IsBlank(s)
  {
    if s != [] && IsSpace(s[0]) {
      SkipSpacesBlank(s[1..]);
      assert IsBlank(s) <==> IsBlank(s[1..]) by {
        assert forall i :: 0 < i < |s| ==> s[i] == s[1..][i - 1];
      }
    }
  }

  /** A leading word followed by a space (or nothing) is exactly the word `WordPrefix` finds. */
  lemma {:induction false} WordPrefixOf(w: string, rest: string)
    requires forall i :: 0 <= i < |w| ==> !IsSpace(w[i])
    requires rest == [] || IsSpace(rest[0])
    ensures WordPrefix(w + rest) == w
  {
    if w != [] {
      assert (w + rest)[1..] == w[1..] + rest;
      WordPrefixOf(w[1..], rest);
    }
  }

  /** Leading whitespace does not change the split. */
  lemma SplitAfterSpace(c: char, s: string)
    requires IsSpace(c)
    ensures Split([c] + s) == Split(s)
  {
    assert ([c] + s)[1..] == s;
    assert SkipSpaces([c] + s) == SkipSpaces(s);
  }

  /** A word followed by whitespace (or nothing) is the first element of the split. */
  lemma SplitWordThen(w: string, rest: string)
    requires IsWord(w) && (rest == [] || IsSpace(rest[0]))
    ensures Split(w + rest) == [w] + Split(rest)
  {
    var j := w + rest;
    assert j[0] == w[0];
    assert SkipSpaces(j) == j;
    WordPrefixOf(w, rest);
    assert j[|w|..] == rest;
  }

  /** Splitting a space-joined list of words gives back the words. */
  lemma {:induction false} SplitJoin(ws: seq<string>)
    requires forall i :: 0 <= i < |ws| ==> IsWord(ws[i])
    ensures Split(JoinWords(ws)) == ws
  {
    if |ws| == 1 {
      SplitJoinSingle(ws);
    } else if |ws| > 1 {
      SplitJoin(ws[1..]);
      SplitJoinCons(ws);
    }
  }

  lemma SplitSingleWord(w: string)
    requires IsWord(w)
    ensures Split(w) == [w]
  {
    SplitWordThen(w, "");
    assert w + "" == w;
    assert Split("") == [];
  }

  lemma SplitJoinSingle(ws: seq<string>)
    requires |ws| == 1 && IsWord(ws[0])
    ensures Split(JoinWords(ws)) == ws
  {
    SplitSingleWord(ws[0]);
    assert [ws[0]] == ws;
  }

  lemma SplitJoinCons(ws: seq<string>)
    requires |ws| > 1 && IsWord(ws[0]) && Split(JoinWords(ws[1..])) == ws[1..]
    ensures Split(JoinWords(ws)) == ws
  {
    var tail := JoinWords(ws[1..]);
    var rest := [' '] + tail;
    assert JoinWords(ws) == ws[0] + rest;
    SplitWordThen(ws[0], rest);
    SplitAfterSpace(' ', tail);
    assert [ws[0]] + ws[1..] == ws;
  }

  /** Joining two non-empty lists of words: the two joins, separated by one space. */
  lemma {:induction false} JoinWordsAppend(a: seq<string>, b: seq<string>)
    requires a != [] && b != []
    ensures JoinWords(a + b) == JoinWords(a) + " " + JoinWords(b)
  {
    if |a| == 1 {
      assert (a + b)[1..] == b;
    } else {
      assert (a + b)[1..] == a[1..] + b;
      JoinWordsAppend(a[1..], b);
    }
  }

  lemma {:induction false} FlattenAppend<T>(xss: seq<seq<T>>, xs: seq<T>)
    ensures Flatten(xss + [xs]) == Flatten(xss) + xs
  {
    if xss == [] {
      assert [xs][1..] == [];
    } else {
      assert (xss + [xs])[1..] == xss[1..] + [xs];
      FlattenAppend(xss[1..], xs);
    }
  }

  /** Every element of a group is an element of the flattening. */
  lemma {:induction false} FlattenMember<T>(xss: seq<seq<T>>, k: nat, x: T)
    requires k < |xss| && x in xss[k]
    ensures x in Flatten(xss)
  {
    if k > 0 {
      FlattenMember(xss[1..], k - 1, x);
    }
  }

  // ---------------------------------------------------------------------------------------------
  // Replacement

  lemma {:induction false} ReplaceCharAppend(a: string, b: string, c: char, repl: string)
    ensures ReplaceChar(a + b, c, repl) == ReplaceChar(a, c, repl) + ReplaceChar(b, c, repl)
  {
    if a == [] {
      assert a + b == b;
    } else {
      assert (a + b)[1..] == a[1..] + b;
      ReplaceCharAppend(a[1..], b, c, repl);
    }
  }

  /** Replacing a character that does not occur changes nothing. */
  lemma {:induction false} ReplaceCharAbsent(s: string, c: char, repl: string)
    requires c !in s
    ensures ReplaceChar(s, c, repl) == s
  {
    if s != [] {
      ReplaceCharAbsent(s[1..], c, repl);
    }
  }

  /** After replacing `c` by a text without `c`, no `c` is left. */
  lemma {:induction false} ReplaceCharRemoves(s: string, c: char, repl: string)
    requires c !in repl
    ensures c !in ReplaceChar(s, c, repl)
  {
    if s != [] {
      ReplaceCharRemoves(s[1..], c, repl);
    }
  }
}
