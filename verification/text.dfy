/**
 * The Python string operations that scholar_graph.py relies on, written out
 * on `seq<char>`: `str.isspace`, `str.startswith`, the `in` operator on
 * strings, `str.split(sep)[0]`, `str.strip()`, `str.split()`, the `<` order
 * of `sorted`, and `str(n)` for a natural number.  `Scholarnet.author_short`
 * is built from these.
 */
module Text {

  /** The characters for which Python's `str.isspace()` holds: the Unicode
      white space characters plus the ASCII separators U+001C..U+001F. */
  const Whitespace: set<char> := {
    '\U{0009}', '\U{000A}', '\U{000B}', '\U{000C}', '\U{000D}',
    '\U{001C}', '\U{001D}', '\U{001E}', '\U{001F}', '\U{0020}',
    '\U{0085}', '\U{00A0}', '\U{1680}',
    '\U{2000}', '\U{2001}', '\U{2002}', '\U{2003}', '\U{2004}', '\U{2005}',
    '\U{2006}', '\U{2007}', '\U{2008}', '\U{2009}', '\U{200A}',
    '\U{2028}', '\U{2029}', '\U{202F}', '\U{205F}', '\U{3000}'
  }

  /** `c.isspace()` */
  predicate IsSpace(c: char) {
    c in Whitespace
  }

  /** `s.startswith(p)` */
  predicate StartsWith(s: string, p: string) {
    |p| <= |s| && s[..|p|] == p
  }

  /** `sub in s` */
  predicate Contains(s: string, sub: string) {
    exists i {:trigger StartsWith(s[i..], sub)} :: 0 <= i <= |s| && StartsWith(s[i..], sub)
  }

  /** No leading and no trailing white space. */
  predicate IsStripped(s: string) {
    s == "" || (!IsSpace(s[0]) && !IsSpace(s[|s| - 1]))
  }

  /** `s.split(sep)[0]`: the text before the first occurrence of `sep`, or
      all of `s` when `sep` does not occur (Python refuses an empty `sep`). */
  function BeforeFirst(s: string, sep: string): (r: string)
    requires sep != ""
    ensures |r| <= |s| && r == s[..|r|]
    ensures forall i {:trigger StartsWith(s[i..], sep)} :: 0 <= i < |r| ==> !StartsWith(s[i..], sep)
    ensures |r| < |s| ==> StartsWith(s[|r|..], sep)
    ensures |r| == |s| ==> !Contains(s, sep)
  {
    if s == "" || StartsWith(s, sep) then ""
    else
      var r := [s[0]] + BeforeFirst(s[1..], sep);
      assert forall i :: 1 <= i <= |s| ==> s[i..] == s[1..][i - 1..];
      r
  }

  /** `s.lstrip()`: drops the white space at the front. */
  function TrimStart(s: string): (r: string)
    ensures |r| <= |s| && r == s[|s| - |r|..]
    ensures forall i :: 0 <= i < |s| - |r| ==> IsSpace(s[i])
    ensures r == "" || !IsSpace(r[0])
  {
    if s != "" && IsSpace(s[0]) then
      var r := TrimStart(s[1..]);
      assert s[1..][|s| - 1 - |r|..] == s[|s| - |r|..];
      assert forall i :: 1 <= i < |s| - |r| ==> s[i] == s[1..][i - 1];
      r
    else s
  }

  /** `s.rstrip()`: drops the white space at the back. */
  function TrimEnd(s: string): (r: string)
    ensures |r| <= |s| && r == s[..|r|]
    ensures forall i :: |r| <= i < |s| ==> IsSpace(s[i])
    ensures r == "" || !IsSpace(r[|r| - 1])
  {
    if s != "" && IsSpace(s[|s| - 1]) then
      var r := TrimEnd(s[..|s| - 1]);
      assert s[..|s| - 1][..|r|] == s[..|r|];
      r
    else s
  }

  /** `r` sits at `lead` in `s`, with only white space before and after it. */
  predicate Surrounded(s: string, lead: nat, r: string) {
    lead + |r| <= |s| && (forall i :: 0 <= i < |r| ==> r[i] == s[lead + i]) &&
    (forall k :: 0 <= k < lead ==> IsSpace(s[k])) &&
    (forall k :: lead + |r| <= k < |s| ==> IsSpace(s[k]))
  }

  /** `s.strip()`: the longest infix of `s` that neither starts nor ends with
      white space, everything around it being white space. */
  function Strip(s: string): (r: string)
    ensures IsStripped(r)
    ensures Surrounded(s, |s| - |TrimStart(s)|, r)
  {
    TrimmedIsStripped(s);
    TrimmedIsSurrounded(s);
    TrimEnd(TrimStart(s))
  }

  /** The text kept by `Strip` neither starts nor ends with white space. */
  lemma TrimmedIsStripped(s: string)
    ensures IsStripped(TrimEnd(TrimStart(s)))
  {
    var t := TrimStart(s);
    var r := TrimEnd(t);
    if r != "" {
      assert r[0] == t[0];
    }
  }

  /** The text kept by `Strip` is surrounded by the white space dropped. */
  lemma TrimmedIsSurrounded(s: string)
    ensures Surrounded(s, |s| - |TrimStart(s)|, TrimEnd(TrimStart(s)))
  {
    var t := TrimStart(s);
    var r := TrimEnd(t);
    SuffixAt(s, t);
    PrefixAt(t, r);
    InfixOfInfix(s, t, r);
  }

  lemma SuffixAt<T>(s: seq<T>, t: seq<T>)
    requires |t| <= |s| && t == s[|s| - |t|..]
    ensures forall i :: 0 <= i < |t| ==> t[i] == s[|s| - |t| + i]
  {
  }

  lemma PrefixAt<T>(t: seq<T>, r: seq<T>)
    requires |r| <= |t| && r == t[..|r|]
    ensures forall i :: 0 <= i < |r| ==> r[i] == t[i]
  {
  }

  /** A prefix `r` of a suffix `t` of `s`, with white space before `t` and
      after `r`, is surrounded by white space in `s`. */
  lemma InfixOfInfix(s: string, t: string, r: string)
    requires |t| <= |s| && forall i :: 0 <= i < |t| ==> t[i] == s[|s| - |t| + i]
    requires forall k :: 0 <= k < |s| - |t| ==> IsSpace(s[k])
    requires |r| <= |t| && forall i :: 0 <= i < |r| ==> r[i] == t[i]
    requires forall i :: |r| <= i < |t| ==> IsSpace(t[i])
    ensures Surrounded(s, |s| - |t|, r)
  {
    var lead := |s| - |t|;
    forall k | lead + |r| <= k < |s| ensures IsSpace(s[k]) {
      assert s[k] == t[k - lead];
    }
  }

  /** The maximal run of non-white-space characters at the front of `s`. */
  function TakeWord(s: string): (w: string)
    ensures |w| <= |s| && w == s[..|w|]
    ensures forall i :: 0 <= i < |w| ==> !IsSpace(w[i])
    ensures |w| == |s| || IsSpace(s[|w|])
  {
    if s == "" || IsSpace(s[0]) then "" else [s[0]] + TakeWord(s[1..])
  }

  /** A non-empty string without white space. */
  predicate IsWord(w: string) {
    |w| > 0 && forall i :: 0 <= i < |w| ==> !IsSpace(w[i])
  }

  /** `s.split()`: the maximal runs of non-white-space characters, in order. */
  function Words(s: string): seq<string>
    decreases |s|
  {
    var t := TrimStart(s);
    if t == "" then []
    else
      var w := TakeWord(t);
      assert !IsSpace(t[0]);
      [w] + Words(t[|w|..])
  }

  /** `split()` never yields an empty word, nor one holding white space. */
  lemma {:induction false} WordsAreWords(s: string)
    ensures forall k :: 0 <= k < |Words(s)| ==> IsWord(Words(s)[k])
    decreases |s|
  {
    var t := TrimStart(s);
    if t != "" {
      var w := TakeWord(t);
      assert !IsSpace(t[0]);
      var rest := t[|w|..];
      WordsAreWords(rest);
      var ws := Words(s);
      assert ws == [w] + Words(rest);
      forall k | 0 <= k < |ws| ensures IsWord(ws[k]) {
        if k > 0 {
          assert ws[k] == Words(rest)[k - 1];
        }
      }
    }
  }

  /** `"".join(w[0] for w in words if w)` */
  function FirstLetters(words: seq<string>): string {
    if words == [] then ""
    else (if words[0] == "" then "" else [words[0][0]]) + FirstLetters(words[1..])
  }

  /** `Scholarnet.author_short`: the first letter of every word of a name. */
  function AuthorShort(fullName: string): string {
    FirstLetters(Words(fullName))
  }

  lemma {:induction false} FirstLettersOfWords(words: seq<string>)
    requires forall k :: 0 <= k < |words| ==> IsWord(words[k])
    ensures |FirstLetters(words)| == |words|
    ensures forall i :: 0 <= i < |words| ==>
              IsWord(words[i]) && FirstLetters(words)[i] == words[i][0] && !IsSpace(FirstLetters(words)[i])
  {
    if words != [] {
      FirstLettersOfWords(words[1..]);
      assert FirstLetters(words) == [words[0][0]] + FirstLetters(words[1..]);
    }
  }

  /** The short label has one character per word of the name, the word's
      first character, and holds no white space. */
  lemma AuthorShortPerWord(fullName: string)
    ensures |AuthorShort(fullName)| == |Words(fullName)|
    ensures forall i :: 0 <= i < |Words(fullName)| ==>
              IsWord(Words(fullName)[i]) &&
              AuthorShort(fullName)[i] == Words(fullName)[i][0] &&
              !IsSpace(AuthorShort(fullName)[i])
  {
    var ws := Words(fullName);
    WordsAreWords(fullName);
    FirstLettersOfWords(ws);
  }

  /** Reference definition of the initials, independent of `split`: the
      characters of `s` that are not white space and follow white space or
      the start of the string (`afterSpace` says what precedes `s`). */
  function WordStarts(s: string, afterSpace: bool): (r: string)
    ensures |r| <= |s|
  {
    if s == "" then ""
    else (if afterSpace && !IsSpace(s[0]) then [s[0]] else "") + WordStarts(s[1..], IsSpace(s[0]))
  }

  lemma {:induction false} WordStartsSkipsSpaces(s: string)
    ensures WordStarts(s, true) == WordStarts(TrimStart(s), true)
    decreases |s|
  {
    if s != "" && IsSpace(s[0]) {
      WordStartsSkipsSpaces(s[1..]);
    }
  }

  lemma {:induction false} WordStartsSkipsWord(s: string, k: nat)
    requires k <= |s|
    requires forall i :: 0 <= i < k ==> !IsSpace(s[i])
    ensures WordStarts(s, false) == WordStarts(s[k..], false)
  {
    if k > 0 {
      assert s[1..][k - 1..] == s[k..];
      WordStartsSkipsWord(s[1..], k - 1);
    }
  }

  /** A word at the front contributes its first character, and the scan
      resumes after it as if at the start of a string. */
  lemma WordStartsOverWord(t: string)
    requires t != "" && !IsSpace(t[0])
    ensures WordStarts(t, true) == [t[0]] + WordStarts(t[|TakeWord(t)|..], true)
  {
    var w := TakeWord(t);
    var rest := t[|w|..];
    assert WordStarts(t, true) == [t[0]] + WordStarts(t[1..], false);
    forall i | 0 <= i < |w| - 1 ensures !IsSpace(t[1..][i]) {
      assert t[1..][i] == w[i + 1];
    }
    WordStartsSkipsWord(t[1..], |w| - 1);
    assert t[1..][|w| - 1..] == rest;
    if rest != "" {
      assert WordStarts(rest, false) == WordStarts(rest[1..], true);
    }
  }

  /** `author_short` takes the first character of the first word, then
      carries on after that word. */
  lemma AuthorShortStep(s: string)
    requires TrimStart(s) != ""
    ensures var t := TrimStart(s);
      |TakeWord(t)| > 0 &&
      AuthorShort(s) == [t[0]] + AuthorShort(t[|TakeWord(t)|..])
  {
    var t := TrimStart(s);
    var w := TakeWord(t);
    assert !IsSpace(t[0]);
    assert Words(s) == [w] + Words(t[|w|..]);
  }

  /** The initials of a name are exactly the characters that start a word:
      one per word, the word's first character; "" for the empty string. */
  lemma {:induction false} AuthorShortIsWordStarts(s: string)
    ensures AuthorShort(s) == WordStarts(s, true)
    decreases |s|
  {
    WordStartsSkipsSpaces(s);
    var t := TrimStart(s);
    if t != "" {
      AuthorShortStep(s);
      WordStartsOverWord(t);
      AuthorShortIsWordStarts(t[|TakeWord(t)|..]);
    }
  }

  /** Python's `<` on `str`: lexicographic on code points. */
  predicate Less(x: string, y: string) {
    if x == "" then y != ""
    else if y == "" then false
    else x[0] < y[0] || (x[0] == y[0] && Less(x[1..], y[1..]))
  }

  /** The order is strict and total: exactly one of x == y, x < y, y < x. */
  lemma {:induction false} LessTrichotomy(x: string, y: string)
    ensures x == y ==> !Less(x, y)
    ensures Less(x, y) ==> !Less(y, x)
    ensures x != y ==> Less(x, y) || Less(y, x)
  {
    if x != "" && y != "" {
      LessTrichotomy(x[1..], y[1..]);
      assert x == [x[0]] + x[1..] && y == [y[0]] + y[1..];
    }
  }

  /** The decimal digit for `d`. */
  function Digit(d: nat): (c: char)
    requires d < 10
    ensures '0' <= c <= '9' && c as int - '0' as int == d
  {
    (d + '0' as int) as char
  }

  /** The number a string of decimal digits denotes (reading `int(s)`). */
  function DigitsValue(s: string): nat
    requires forall i :: 0 <= i < |s| ==> '0' <= s[i] <= '9'
  {
    if s == [] then 0
    else 10 * DigitsValue(s[..|s| - 1]) + (s[|s| - 1] as int - '0' as int)
  }

  /** `str(n)` for a natural number: its decimal digits. */
  function NatToString(n: nat): (r: string)
    ensures r != ""
    ensures forall i :: 0 <= i < |r| ==> '0' <= r[i] <= '9'
  {
    if n < 10 then [Digit(n)] else NatToString(n / 10) + [Digit(n % 10)]
  }

  /** `str(n)` denotes `n` again and has no leading zero. */
  lemma {:induction false} NatToStringValue(n: nat)
    ensures DigitsValue(NatToString(n)) == n
    ensures NatToString(n)[0] == '0' ==> n == 0
  {
    if n >= 10 {
      var r := NatToString(n);
      var prefix := NatToString(n / 10);
      NatToStringValue(n / 10);
      assert r[..|r| - 1] == prefix;
    }
  }
}
