/**
  The vocabulary: occurrence counts of recognized words in the training
  sentences, keyed by their lower-case form, and the prefix completer that
  ranks vocabulary words by frequency.
 */
module Vocabulary {
  import opened Text
  import opened Counters

  /** A token is recognized when its title-case or its lower-case form is in
      the set of known English words. */
  predicate Recognized(t: string, english: set<string>) {
    TitleCase(t) in english || Lower(t) in english
  }

  /** Reference count: how many tokens of `toks` are recognized and have
      lower-case form `w`. */
  function RecognizedIn(toks: seq<string>, english: set<string>, w: string): nat {
    if toks == [] then 0
    else
      var here := if Recognized(toks[0], english) && Lower(toks[0]) == w then 1 else 0;
      here + RecognizedIn(toks[1..], english, w)
  }

  /** Reference count over the whole corpus. */
  function RecognizedInCorpus(sents: seq<string>, english: set<string>, w: string): nat {
    if sents == [] then 0
    else RecognizedIn(Tokenize(sents[0]), english, w) + RecognizedInCorpus(sents[1..], english, w)
  }

  /** The inner loop of the builder: each recognized token bumps the count of
      its lower-case form. */
  function AddTokens(vocab: Counter, toks: seq<string>, english: set<string>): (r: Counter)
    requires vocab.Valid() && AllLexical(vocab)
    requires forall i :: 0 <= i < |toks| ==> WordToken(toks[i])
    ensures r.Valid() && AllLexical(r)
    ensures forall w :: r.Count(w) == vocab.Count(w) + RecognizedIn(toks, english, w)
    decreases |toks|
  {
    if toks == [] then vocab
    else
      var t := toks[0];
      var next := if Recognized(t, english) then vocab.Add(Lower(t)) else vocab;
      LowerKeepsWordToken(t);
      AddTokens(next, toks[1..], english)
  }

  /** The outer loop of the builder, over the sentences in order. */
  function AddSentences(vocab: Counter, sents: seq<string>, english: set<string>): (r: Counter)
    requires vocab.Valid() && AllLexical(vocab)
    ensures r.Valid() && AllLexical(r)
    ensures forall w :: r.Count(w) == vocab.Count(w) + RecognizedInCorpus(sents, english, w)
    decreases |sents|
  {
    if sents == [] then vocab
    else
      TokensAreWords(sents[0]);
      AddSentences(AddTokens(vocab, Tokenize(sents[0]), english), sents[1..], english)
  }

  /** `create_wrd_dist`: every key is a lower-case token, and its count is
      the number of recognized tokens of the corpus that lower-case to it;
      words with no such token are absent. */
  function BuildVocabulary(sents: seq<string>, english: set<string>): (v: Counter)
    ensures v.Valid()
    ensures forall w :: w in v.counts ==> Lexical(w)
    ensures forall w :: v.Count(w) == RecognizedInCorpus(sents, english, w)
  {
    AddSentences(Empty, sents, english)
  }

  /** Every vocabulary word is the lower-case form of a recognized token of
      some training sentence. */
  lemma {:induction false} VocabularyWordHasSource(sents: seq<string>, english: set<string>, w: string)
    returns (i: nat, j: nat)
    requires w in BuildVocabulary(sents, english).counts
    ensures i < |sents| && j < |Tokenize(sents[i])|
    ensures Recognized(Tokenize(sents[i])[j], english) && Lower(Tokenize(sents[i])[j]) == w
  {
    var v := BuildVocabulary(sents, english);
    assert v.Count(w) >= 1;
    i, j := CorpusSource(sents, english, w);
  }

  lemma {:induction false} CorpusSource(sents: seq<string>, english: set<string>, w: string)
    returns (i: nat, j: nat)
    requires RecognizedInCorpus(sents, english, w) > 0
    ensures i < |sents| && j < |Tokenize(sents[i])|
    ensures Recognized(Tokenize(sents[i])[j], english) && Lower(Tokenize(sents[i])[j]) == w
    decreases |sents|
  {
    if RecognizedIn(Tokenize(sents[0]), english, w) > 0 {
      i := 0;
      j := TokenSource(Tokenize(sents[0]), english, w);
    } else {
      var i', j' := CorpusSource(sents[1..], english, w);
      i, j := i' + 1, j';
    }
  }

  lemma {:induction false} TokenSource(toks: seq<string>, english: set<string>, w: string) returns (j: nat)
    requires RecognizedIn(toks, english, w) > 0
    ensures j < |toks| && Recognized(toks[j], english) && Lower(toks[j]) == w
    decreases |toks|
  {
    if Recognized(toks[0], english) && Lower(toks[0]) == w {
      j := 0;
    } else {
      var j' := TokenSource(toks[1..], english, w);
      j := j' + 1;
    }
  }

  /** The words of the vocabulary that start with `p`. */
  function Matching(vocab: Counter, p: string): set<string> {
    set w | w in vocab.counts && StartsWith(w, p)
  }

  /** `possible_words`: the vocabulary words starting with the lower-cased
      prefix, most frequent first; all of them when `returnAll`, otherwise
      the first `n`. */
  function PossibleWords(vocab: Counter, initials: string, n: nat, returnAll: bool): (r: seq<string>)
    requires vocab.Valid()
    ensures forall w :: w in r ==> w in Matching(vocab, Lower(initials))
    ensures NoDup(r)
    ensures NonIncreasing(r, vocab.counts)
    ensures !returnAll ==> |r| <= n
    ensures forall w :: w in Matching(vocab, Lower(initials)) && w !in r ==>
      && !returnAll
      && |r| == n
      && forall v :: v in r ==> vocab.Count(v) >= vocab.Count(w)
  {
    var ranked := SortByCount(FilterPrefix(vocab.order, Lower(initials)), vocab.counts);
    RankedMatching(vocab, Lower(initials));
    RankedSelection(ranked, vocab.counts, n, returnAll);
    if returnAll then ranked else Take(ranked, n)
  }

  /** The ranked candidates are exactly the matching words, each once. */
  lemma RankedMatching(vocab: Counter, p: string)
    requires vocab.Valid()
    ensures var ranked := SortByCount(FilterPrefix(vocab.order, p), vocab.counts);
      && NoDup(ranked)
      && NonIncreasing(ranked, vocab.counts)
      && forall w :: w in ranked <==> w in Matching(vocab, p)
  {
    var matches := FilterPrefix(vocab.order, p);
    FilterPrefixNoDup(vocab.order, p);
    FilterPrefixMembers(vocab.order, p);
    RankedMembers(matches, vocab.counts);
  }

  /** When the count is not exhausted the completer returns exactly
      `min(n, number of matching words)` words. */
  lemma PossibleWordsCount(vocab: Counter, initials: string, n: nat)
    requires vocab.Valid()
    ensures var m := |Matching(vocab, Lower(initials))|;
      |PossibleWords(vocab, initials, n, false)| == if n < m then n else m
  {
    var r := PossibleWords(vocab, initials, n, false);
    var ms := Matching(vocab, Lower(initials));
    var rs := set x | x in r;
    NoDupCardinality(r);
    assert rs <= ms;
    if |r| < n {
      assert rs == ms;
    } else {
      SubsetCardinality(rs, ms);
    }
  }

  lemma SubsetCardinality(a: set<string>, b: set<string>)
    requires a <= b
    ensures |a| <= |b|
  {
    assert b == a + (b - a);
  }

  /** With `return_all`, every matching word is returned; in particular the
      empty prefix returns the whole vocabulary. */
  lemma PossibleWordsAll(vocab: Counter, initials: string, n: nat)
    requires vocab.Valid()
    ensures forall w :: w in PossibleWords(vocab, initials, n, true) <==> w in Matching(vocab, Lower(initials))
    ensures initials == [] ==> forall w :: w in PossibleWords(vocab, initials, n, true) <==> w in vocab.counts
  {
    if initials == [] {
      assert Lower(initials) == [];
      forall w | w in vocab.counts
        ensures w in Matching(vocab, Lower(initials))
      {
        assert w[..0] == [];
      }
    }
  }
}
