/**
  Character classes, case mapping, prefix tests and the whitespace tokenizer
  shared by every part of the autocomplete model.

  The source delegates tokenization to an external word tokenizer and case
  mapping to the host language's Unicode tables; here both are fixed, total
  functions over ASCII so that the model is the same at build time and at
  query time.
 */
module Text {

  predicate IsSpace(c: char) {
    c == ' ' || c == '\t' || c == '\n' || c == '\r'
  }

  predicate IsUpper(c: char) {
    'A' <= c <= 'Z'
  }

  predicate IsLowerLetter(c: char) {
    'a' <= c <= 'z'
  }

  predicate IsLetter(c: char) {
    IsUpper(c) || IsLowerLetter(c)
  }

  function LowerChar(c: char): char {
    if IsUpper(c) then (c as int + 32) as char else c
  }

  function UpperChar(c: char): char {
    if IsLowerLetter(c) then (c as int - 32) as char else c
  }

  /** `str.lower()` restricted to ASCII letters. */
  function Lower(s: string): string {
    seq(|s|, i requires 0 <= i < |s| => LowerChar(s[i]))
  }

  /** `str.title()`: a letter is upper-cased when it starts a run of letters
      and lower-cased otherwise. */
  function TitleCase(s: string): string {
    seq(|s|, i requires 0 <= i < |s| =>
      if i == 0 || !IsLetter(s[i - 1]) then UpperChar(s[i]) else LowerChar(s[i]))
  }

  predicate IsLowercase(s: string) {
    forall i :: 0 <= i < |s| ==> !IsUpper(s[i])
  }

  /** `str.startswith(p)`. */
  predicate StartsWith(w: string, p: string) {
    |p| <= |w| && w[..|p|] == p
  }

  /** A token as the tokenizer produces it: non-empty, no whitespace. */
  predicate WordToken(w: string) {
    |w| > 0 && forall i :: 0 <= i < |w| ==> !IsSpace(w[i])
  }

  /** A token of a lower-cased text: what every table of the model stores. */
  predicate Lexical(w: string) {
    WordToken(w) && IsLowercase(w)
  }

  predicate EndsWithSpace(s: string) {
    |s| > 0 && s[|s| - 1] == ' '
  }

  lemma LowerIsLowercase(s: string)
    ensures IsLowercase(Lower(s))
    ensures IsLowercase(s) ==> Lower(s) == s
  {
  }

  lemma LowerKeepsWordToken(w: string)
    requires WordToken(w)
    ensures Lexical(Lower(w))
  {
  }

  /** Start of the maximal run of non-whitespace characters that ends at `j`. */
  function WordStart(s: string, j: nat): (k: nat)
    requires j <= |s|
    ensures k <= j
    ensures k == 0 || IsSpace(s[k - 1])
    ensures forall i :: k <= i < j ==> !IsSpace(s[i])
    decreases j
  {
    if j == 0 || IsSpace(s[j - 1]) then j else WordStart(s, j - 1)
  }

  /** Whitespace tokenizer: the maximal runs of non-whitespace characters, in
      order. Built from the right, so the last token is the run ending the
      text when the text does not end in whitespace. */
  function Tokenize(s: string): seq<string>
    decreases |s|
  {
    if |s| == 0 then []
    else if IsSpace(s[|s| - 1]) then Tokenize(s[..|s| - 1])
    else
      var k := WordStart(s, |s|);
      Tokenize(s[..k]) + [s[k..]]
  }

  /** Every token is non-empty and free of whitespace. */
  lemma {:induction false} TokensAreWords(s: string)
    ensures forall i :: 0 <= i < |Tokenize(s)| ==> WordToken(Tokenize(s)[i])
    decreases |s|
  {
    if |s| == 0 {
    } else if IsSpace(s[|s| - 1]) {
      TokensAreWords(s[..|s| - 1]);
    } else {
      var k := WordStart(s, |s|);
      TokensAreWords(s[..k]);
      var w := s[k..];
      assert WordToken(w) by {
        forall i | 0 <= i < |w|
          ensures !IsSpace(w[i])
        {
          assert w[i] == s[k + i];
        }
      }
    }
  }

  /** Appending a word after whitespace (or to the empty text) appends exactly
      one token. */
  lemma {:induction false} TokenizeAppendWord(s: string, w: string)
    requires |s| == 0 || IsSpace(s[|s| - 1])
    requires WordToken(w)
    ensures Tokenize(s + w) == Tokenize(s) + [w]
  {
    var t := s + w;
    var k := WordStart(t, |t|);
    assert t[|t| - 1] == w[|w| - 1];
    assert forall i :: |s| <= i < |t| ==> !IsSpace(t[i]) by {
      forall i | |s| <= i < |t| ensures !IsSpace(t[i]) {
        assert t[i] == w[i - |s|];
      }
    }
    assert k <= |s|;
    assert k >= |s| by {
      if |s| > 0 {
        assert t[|s| - 1] == s[|s| - 1];
      }
    }
    assert t[..k] == s;
    assert t[k..] == w;
  }

  /** `sentence + " " + word` tokenizes to the sentence's tokens followed by
      the word. */
  lemma SpaceThenWord(s: string, w: string)
    requires WordToken(w)
    ensures Tokenize(s + " " + w) == Tokenize(s) + [w]
  {
    var t := s + " ";
    assert t[..|t| - 1] == s;
    assert Tokenize(t) == Tokenize(s);
    assert s + " " + w == t + w;
    TokenizeAppendWord(t, w);
  }

  /** When a text does not end in whitespace its last token is a suffix of
      it, and replacing that suffix by another word replaces the last token. */
  lemma LastTokenIsSuffix(s: string, c: string)
    requires |s| > 0 && !IsSpace(s[|s| - 1])
    requires WordToken(c)
    ensures var toks := Tokenize(s);
      && |toks| > 0
      && |toks[|toks| - 1]| <= |s|
      && s[|s| - |toks[|toks| - 1]|..] == toks[|toks| - 1]
      && Tokenize(s[..|s| - |toks[|toks| - 1]|] + c) == toks[..|toks| - 1] + [c]
  {
    var k := WordStart(s, |s|);
    LastTokenShape(s);
    assert |s| - |s[k..]| == k;
    TokenizeAppendWord(s[..k], c);
  }

  /** The last token of a text not ending in whitespace is its final run
      of non-whitespace characters. */
  lemma LastTokenShape(s: string)
    requires |s| > 0 && !IsSpace(s[|s| - 1])
    ensures var toks := Tokenize(s);
      var k := WordStart(s, |s|);
      && |toks| > 0
      && toks[|toks| - 1] == s[k..]
      && toks[..|toks| - 1] == Tokenize(s[..k])
  {
    var k := WordStart(s, |s|);
    var toks := Tokenize(s);
    assert toks == Tokenize(s[..k]) + [s[k..]];
  }

  /** Every token of a lower-case text is lower-case. */
  lemma {:induction false} TokensOfLowercase(s: string)
    requires IsLowercase(s)
    ensures forall i :: 0 <= i < |Tokenize(s)| ==> Lexical(Tokenize(s)[i])
    decreases |s|
  {
    if |s| == 0 {
    } else if IsSpace(s[|s| - 1]) {
      TokensOfLowercase(s[..|s| - 1]);
    } else {
      var k := WordStart(s, |s|);
      TokensOfLowercase(s[..k]);
      assert IsLowercase(s[k..]);
    }
  }

  /** `[w for w in words if w.startswith(p)]`. */
  function FilterPrefix(words: seq<string>, p: string): (r: seq<string>)
    ensures |r| <= |words|
  {
    if words == [] then []
    else (if StartsWith(words[0], p) then [words[0]] else []) + FilterPrefix(words[1..], p)
  }

  /** The filter keeps exactly the words that start with `p`. */
  lemma {:induction false} FilterPrefixMembers(words: seq<string>, p: string)
    ensures forall w :: w in FilterPrefix(words, p) <==> w in words && StartsWith(w, p)
  {
    if words != [] {
      FilterPrefixMembers(words[1..], p);
      assert words == [words[0]] + words[1..];
    }
  }

  /** The filter keeps the order of its input: it distributes over
      concatenation. */
  lemma {:induction false} FilterPrefixAppend(a: seq<string>, b: seq<string>, p: string)
    ensures FilterPrefix(a + b, p) == FilterPrefix(a, p) + FilterPrefix(b, p)
  {
    if a == [] {
      assert a + b == b;
    } else {
      var head := if StartsWith(a[0], p) then [a[0]] else [];
      assert (a + b)[0] == a[0];
      assert (a + b)[1..] == a[1..] + b;
      FilterPrefixAppend(a[1..], b, p);
      assert FilterPrefix(a + b, p) == head + FilterPrefix(a[1..] + b, p);
    }
  }

  /** Python's `xs[:n]` for `n >= 0`. */
  function Take<T>(xs: seq<T>, n: nat): (r: seq<T>)
    ensures |r| <= n && |r| <= |xs|
    ensures |r| == n || |r| == |xs|
    ensures r == xs[..|r|]
  {
    if n <= |xs| then xs[..n] else xs
  }
}
