/**
  Tokenisation and case folding used by the log processor.

  A log line is split into words the way Go's `strings.Fields` does it: a word
  is a maximal run of characters that are not white space. Lower-casing folds
  the ASCII letters only. Both library routines are approximations here, on
  Unicode scalar values rather than on UTF-8 bytes.
 */
module Text {

  /** The characters Go's `unicode.IsSpace` classifies as white space. */
  predicate IsSpace(c: char) {
    || c == ' ' || c == '\t' || c == '\n' || c == '\U{B}' || c == '\U{C}' || c == '\r'
    || c == '\U{85}' || c == '\U{A0}' || c == '\U{1680}'
    || ('\U{2000}' <= c <= '\U{200A}')
    || c == '\U{2028}' || c == '\U{2029}' || c == '\U{202F}' || c == '\U{205F}' || c == '\U{3000}'
  }

  /** A word is a non-empty run of non-space characters. */
  predicate IsWord(w: string) {
    w != [] && forall i :: 0 <= i < |w| ==> !IsSpace(w[i])
  }

  /** The characters of `s` that are not white space, in order. */
  function NonSpace(s: string): string {
    if s == [] then [] else (if IsSpace(s[0]) then [] else [s[0]]) + NonSpace(s[1..])
  }

  /** The words written one after the other. */
  function Concat(words: seq<string>): string {
    if words == [] then [] else words[0] + Concat(words[1..])
  }

  /** The words separated by single blanks. */
  function Join(words: seq<string>): string {
    if words == [] then []
    else if |words| == 1 then words[0]
    else words[0] + " " + Join(words[1..])
  }

  /** `s` without its leading white space. */
  function SkipSpaces(s: string): (r: string)
    ensures |r| <= |s| && r == s[|s| - |r|..]
    ensures r == [] || !IsSpace(r[0])
    ensures forall i :: 0 <= i < |s| - |r| ==> IsSpace(s[i])
  {
    if s != [] && IsSpace(s[0]) then SkipSpaces(s[1..]) else s
  }

  /** The length of the run of non-space characters that `s` starts with. */
  function WordLength(s: string): (n: nat)
    ensures n <= |s|
    ensures forall i :: 0 <= i < n ==> !IsSpace(s[i])
    ensures n == |s| || IsSpace(s[n])
  {
    if s == [] || IsSpace(s[0]) then 0 else 1 + WordLength(s[1..])
  }

  /** The white-space separated words of `s`, in order (Go's `strings.Fields`). */
  function Fields(s: string): (words: seq<string>)
    ensures forall i :: 0 <= i < |words| ==> IsWord(words[i])
    decreases |s|
  {
    var t := SkipSpaces(s);
    if t == [] then []
    else
      var n := WordLength(t);
      var rest := Fields(t[n..]);
      assert IsWord(t[..n]);
      [t[..n]] + rest
  }

  /** ASCII case folding of one character. */
  function ToLowerChar(c: char): char {
    if 'A' <= c <= 'Z' then (c as int + 32) as char else c
  }

  /** Lower-cases the ASCII letters of `s` (an approximation of Go's `strings.ToLower`). */
  function ToLower(s: string): (r: string)
    ensures |r| == |s|
    ensures forall i :: 0 <= i < |r| ==> !('A' <= r[i] <= 'Z')
    ensures forall i :: 0 <= i < |r| ==> r[i] == s[i] || ('A' <= s[i] <= 'Z' && r[i] as int == s[i] as int + 32)
  {
    seq(|s|, i requires 0 <= i < |s| => ToLowerChar(s[i]))
  }

  /** Lower-casing twice is lower-casing once. */
  lemma ToLowerIdempotent(s: string)
    ensures ToLower(ToLower(s)) == ToLower(s)
  {
  }

  lemma {:induction false} NonSpaceAppend(a: string, b: string)
    ensures NonSpace(a + b) == NonSpace(a) + NonSpace(b)
  {
    if a == [] {
      assert a + b == b;
    } else {
      assert (a + b)[0] == a[0];
      assert (a + b)[1..] == a[1..] + b;
      NonSpaceAppend(a[1..], b);
    }
  }

  lemma {:induction false} NonSpaceOfSpaces(s: string)
    requires forall i :: 0 <= i < |s| ==> IsSpace(s[i])
    ensures NonSpace(s) == []
  {
    if s != [] {
      NonSpaceOfSpaces(s[1..]);
    }
  }

  lemma {:induction false} NonSpaceOfWord(w: string)
    requires forall i :: 0 <= i < |w| ==> !IsSpace(w[i])
    ensures NonSpace(w) == w
  {
    if w != [] {
      NonSpaceOfWord(w[1..]);
    }
  }

  /** Leading white space contributes nothing to `NonSpace`. */
  lemma {:induction false} NonSpaceSkip(s: string)
    ensures NonSpace(s) == NonSpace(SkipSpaces(s))
  {
    if s != [] && IsSpace(s[0]) {
      NonSpaceSkip(s[1..]);
    }
  }

  lemma ConcatCons(w: string, words: seq<string>)
    ensures Concat([w] + words) == w + Concat(words)
  {
    assert ([w] + words)[1..] == words;
  }

  /** A word and what follows it: the non-space characters are the word's and then the rest's. */
  lemma NonSpaceSplitWord(t: string, n: nat)
    requires n <= |t|
    requires forall i :: 0 <= i < n ==> !IsSpace(t[i])
    ensures NonSpace(t) == t[..n] + NonSpace(t[n..])
  {
    assert t == t[..n] + t[n..];
    NonSpaceOfWord(t[..n]);
    NonSpaceAppend(t[..n], t[n..]);
  }

  /** Splitting into fields loses no non-space character and invents none. */
  lemma {:induction false} FieldsKeepNonSpace(s: string)
    ensures Concat(Fields(s)) == NonSpace(s)
    decreases |s|
  {
    var t := SkipSpaces(s);
    NonSpaceSkip(s);
    if t != [] {
      var n := WordLength(t);
      assert Fields(s) == [t[..n]] + Fields(t[n..]);
      ConcatCons(t[..n], Fields(t[n..]));
      NonSpaceSplitWord(t, n);
      FieldsKeepNonSpace(t[n..]);
    }
  }

  lemma {:induction false} WordLengthOfWord(w: string, rest: string)
    requires forall i :: 0 <= i < |w| ==> !IsSpace(w[i])
    requires rest == [] || IsSpace(rest[0])
    ensures WordLength(w + rest) == |w|
  {
    if w != [] {
      assert (w + rest)[1..] == w[1..] + rest;
      WordLengthOfWord(w[1..], rest);
    }
  }

  /** A word followed by nothing or by white space is the first field. */
  lemma FieldsOfWordThen(w: string, rest: string)
    requires IsWord(w)
    requires rest == [] || IsSpace(rest[0])
    ensures Fields(w + rest) == [w] + Fields(rest)
  {
    var s := w + rest;
    assert s[0] == w[0];
    assert SkipSpaces(s) == s;
    WordLengthOfWord(w, rest);
    assert s[..|w|] == w;
    assert s[|w|..] == rest;
  }

  /** A leading blank does not change the fields. */
  lemma FieldsAfterBlank(rest: string)
    ensures Fields(" " + rest) == Fields(rest)
  {
    assert (" " + rest)[1..] == rest;
    assert SkipSpaces(" " + rest) == SkipSpaces(rest);
  }

  /** Splitting words joined with blanks gives back the words. */
  lemma {:induction false} FieldsOfJoin(words: seq<string>)
    requires forall i :: 0 <= i < |words| ==> IsWord(words[i])
    ensures Fields(Join(words)) == words
  {
    if words == [] {
    } else if |words| == 1 {
      assert words[0] + [] == words[0];
      FieldsOfWordThen(words[0], []);
    } else {
      var w, rest := words[0], Join(words[1..]);
      assert Join(words) == w + (" " + rest);
      FieldsOfWordThen(w, " " + rest);
      FieldsAfterBlank(rest);
      FieldsOfJoin(words[1..]);
    }
  }
}
