/**
  The model (vocabulary plus the three n-gram tables) and the two backoff
  lookups that answer queries from it: the next-word predictor and the
  last-word completer.
 */
module Predictor {
  import opened Text
  import opened Counters
  import opened Vocabulary
  import opened NGrams

  datatype Option<T> = None | Some(value: T)

  /** The four tables `AutocompleteQuery` keeps. Bigram contexts are
      one-token sequences. */
  datatype Model = Model(vocab: Counter, bigrams: Table, trigrams: Table, quadgrams: Table)

  function TableOf(m: Model, k: nat): Table
    requires 2 <= k <= 4
  {
    if k == 2 then m.bigrams else if k == 3 then m.trigrams else m.quadgrams
  }

  /** A table as the builder leaves it: sorted successor lists of
      lower-case tokens. */
  predicate TableOk(t: Table, k: nat) {
    SortedTable(t, k) && TableLexical(t)
  }

  /** What a model built from a corpus satisfies. */
  predicate WellFormed(m: Model) {
    && m.vocab.Valid()
    && AllLexical(m.vocab)
    && TableOk(m.bigrams, 2)
    && TableOk(m.trigrams, 3)
    && TableOk(m.quadgrams, 4)
  }

  /** The constructor's build path: `create_wrd_dist` then
      `create_ngram_dict`. */
  function BuildModel(sents: seq<string>, english: set<string>): (m: Model)
    ensures WellFormed(m)
    ensures forall w :: m.vocab.Count(w) == RecognizedInCorpus(sents, english, w)
    ensures forall c, w :: Entry(m.bigrams, c).Count(w) == CorpusWindowCount(sents, 2, c, w)
    ensures forall c, w :: Entry(m.trigrams, c).Count(w) == CorpusWindowCount(sents, 3, c, w)
    ensures forall c, w :: Entry(m.quadgrams, c).Count(w) == CorpusWindowCount(sents, 4, c, w)
  {
    var vocab := BuildVocabulary(sents, english);
    var bi := BuildTable(sents, 2);
    var tri := BuildTable(sents, 3);
    var quad := BuildTable(sents, 4);
    BuildTableLexical(sents, 2);
    BuildTableLexical(sents, 3);
    BuildTableLexical(sents, 4);
    assert TableOk(bi, 2) && TableOk(tri, 3) && TableOk(quad, 4);
    Model(vocab, bi, tri, quad)
  }

  /** The successor list an order-`k` table holds for the last `k - 1`
      tokens, or `None` when there are fewer tokens or the context is absent. */
  function Successors(m: Model, toks: seq<string>, k: nat): Option<seq<string>>
    requires 2 <= k <= 4
  {
    if |toks| >= k - 1 && toks[|toks| - (k - 1)..] in TableOf(m, k) then
      Some(TableOf(m, k)[toks[|toks| - (k - 1)..]].order)
    else None
  }

  /** Order `k` is the highest order whose context is present. */
  predicate TopMatch(m: Model, toks: seq<string>, k: nat)
    requires 2 <= k <= 4
  {
    Successors(m, toks, k).Some? && forall j :: k < j <= 4 ==> Successors(m, toks, j).None?
  }

  predicate NoMatch(m: Model, toks: seq<string>) {
    forall k :: 2 <= k <= 4 ==> Successors(m, toks, k).None?
  }

  /** The backoff rule of `predict_next_word`: the first `n` entries of
      the highest order's answer that is present, however short; empty when
      none is. */
  function Backoff<T>(quad: Option<seq<T>>, tri: Option<seq<T>>, bi: Option<seq<T>>, n: nat): seq<T> {
    if quad.Some? then Take(quad.value, n)
    else if tri.Some? then Take(tri.value, n)
    else if bi.Some? then Take(bi.value, n)
    else []
  }

  /** The prediction for a token list. */
  function PredictTokens(m: Model, toks: seq<string>, n: nat): (r: seq<string>)
    ensures |r| <= n
    ensures NoMatch(m, toks) ==> r == []
  {
    Backoff(Successors(m, toks, 4), Successors(m, toks, 3), Successors(m, toks, 2), n)
  }

  /** `predict_next_word`: the first `n` successors of the highest-order
      context present in the model; lower orders are not looked at once a
      higher one matches, however few successors it has; empty when no
      order matches. */
  function PredictNext(m: Model, context: string, n: nat): (r: seq<string>)
    ensures |r| <= n
    ensures NoMatch(m, Tokenize(context)) ==> r == []
  {
    PredictTokens(m, Tokenize(context), n)
  }

  /** The highest matching order decides: the prediction is the head of
      its successor list, whatever the lower orders hold. */
  lemma PredictNextTopMatch(m: Model, context: string, n: nat, k: nat)
    requires 2 <= k <= 4
    requires TopMatch(m, Tokenize(context), k)
    ensures PredictNext(m, context, n) == Take(Successors(m, Tokenize(context), k).value, n)
  {
    var toks := Tokenize(context);
    assert PredictNext(m, context, n) == PredictTokens(m, toks, n);
    if k == 4 {
    } else if k == 3 {
      assert Successors(m, toks, 4).None?;
    } else {
      assert Successors(m, toks, 4).None? && Successors(m, toks, 3).None?;
    }
  }

  /** Equal tables of one order give equal lookups. */
  lemma SameSuccessors(m: Model, m': Model, toks: seq<string>, j: nat)
    requires 2 <= j <= 4
    requires TableOf(m', j) == TableOf(m, j)
    ensures Successors(m', toks, j) == Successors(m, toks, j)
  {
  }

  /** Strict backoff: once the order-`k` context is present, the tables of
      lower order can be anything without changing the prediction. */
  lemma PredictNextIgnoresLowerOrders(m: Model, m': Model, context: string, n: nat, k: nat)
    requires 2 <= k <= 4
    requires Successors(m, Tokenize(context), k).Some?
    requires forall j :: k <= j <= 4 ==> TableOf(m', j) == TableOf(m, j)
    ensures PredictNext(m', context, n) == PredictNext(m, context, n)
  {
    var toks := Tokenize(context);
    assert TableOf(m', 4) == TableOf(m, 4);
    SameSuccessors(m, m', toks, 4);
    if k <= 3 {
      assert TableOf(m', 3) == TableOf(m, 3);
      SameSuccessors(m, m', toks, 3);
    }
    if k == 2 {
      assert TableOf(m', 2) == TableOf(m, 2);
      SameSuccessors(m, m', toks, 2);
    }
    assert PredictNext(m, context, n) == PredictTokens(m, toks, n);
    assert PredictNext(m', context, n) == PredictTokens(m', toks, n);
  }

  /** An order whose context is longer than the token list is skipped:
      its table can be anything. */
  lemma PredictNextSkipsShortContext(m: Model, m': Model, context: string, n: nat, k: nat)
    requires 2 <= k <= 4
    requires |Tokenize(context)| < k - 1
    requires forall j :: 2 <= j <= 4 && j != k ==> TableOf(m', j) == TableOf(m, j)
    ensures PredictNext(m', context, n) == PredictNext(m, context, n)
  {
    var toks := Tokenize(context);
    assert Successors(m, toks, k) == None == Successors(m', toks, k);
    if k != 2 {
      assert TableOf(m', 2) == TableOf(m, 2);
      SameSuccessors(m, m', toks, 2);
    }
    if k != 3 {
      assert TableOf(m', 3) == TableOf(m, 3);
      SameSuccessors(m, m', toks, 3);
    }
    if k != 4 {
      assert TableOf(m', 4) == TableOf(m, 4);
      SameSuccessors(m, m', toks, 4);
    }
    assert PredictNext(m, context, n) == PredictTokens(m, toks, n);
    assert PredictNext(m', context, n) == PredictTokens(m', toks, n);
  }

  /** In a well-formed model the predicted words are distinct tokens of
      lower-cased text. */
  lemma PredictNextWords(m: Model, context: string, n: nat)
    requires WellFormed(m)
    ensures var r := PredictNext(m, context, n);
      NoDup(r) && forall i :: 0 <= i < |r| ==> Lexical(r[i])
  {
    var toks := Tokenize(context);
    var k := if Successors(m, toks, 4).Some? then 4 else if Successors(m, toks, 3).Some? then 3 else 2;
    if Successors(m, toks, k).Some? {
      PredictNextTopMatch(m, context, n, k);
      SuccessorWords(m, toks, k);
      TakeWords(Successors(m, toks, k).value, n);
    }
  }

  lemma TakeWords(ws: seq<string>, n: nat)
    requires NoDup(ws) && forall i :: 0 <= i < |ws| ==> Lexical(ws[i])
    ensures var r := Take(ws, n);
      NoDup(r) && forall i :: 0 <= i < |r| ==> Lexical(r[i])
  {
    var r := Take(ws, n);
    assert forall i :: 0 <= i < |r| ==> r[i] == ws[i];
  }

  /** A successor list of a well-formed model holds distinct lower-case
      tokens. */
  lemma SuccessorWords(m: Model, toks: seq<string>, k: nat)
    requires WellFormed(m)
    requires 2 <= k <= 4
    ensures Successors(m, toks, k).Some? ==>
      var ws := Successors(m, toks, k).value;
      NoDup(ws) && forall i :: 0 <= i < |ws| ==> Lexical(ws[i])
  {
    if Successors(m, toks, k).Some? {
      var t := TableOf(m, k);
      assert TableOk(t, k);
      var e := t[toks[|toks| - (k - 1)..]];
      assert e.Valid() && AllLexical(e);
      forall i | 0 <= i < |e.order|
        ensures Lexical(e.order[i])
      {
        assert e.order[i] in e.counts;
      }
    }
  }

  /** The completions one order offers: its successors that start with the
      partial word, in table order, cut at `n`. */
  function LevelCompletions(m: Model, ctx: seq<string>, last: string, n: nat, k: nat): seq<string>
    requires 2 <= k <= 4
  {
    match Successors(m, ctx, k)
    case None => []
    case Some(ws) => Take(FilterPrefix(ws, last), n)
  }

  /** Order `k` is the highest order offering completions. */
  predicate FirstNonEmpty(m: Model, ctx: seq<string>, last: string, n: nat, k: nat)
    requires 2 <= k <= 4
  {
    LevelCompletions(m, ctx, last, n, k) != [] &&
    forall j :: k < j <= 4 ==> LevelCompletions(m, ctx, last, n, j) == []
  }

  /** The first non-empty of three answers, else `fallback`. */
  function Pick<T>(quad: seq<T>, tri: seq<T>, bi: seq<T>, fallback: seq<T>): seq<T> {
    if quad != [] then quad
    else if tri != [] then tri
    else if bi != [] then bi
    else fallback
  }

  /** The backoff cascade of `complete_last_word` over the tokens before
      the partial word: the first non-empty level from the highest, else
      `fallback`. */
  function Cascade(m: Model, ctx: seq<string>, last: string, n: nat, fallback: seq<string>): seq<string> {
    Pick(LevelCompletions(m, ctx, last, n, 4), LevelCompletions(m, ctx, last, n, 3),
         LevelCompletions(m, ctx, last, n, 2), fallback)
  }

  /** A word of the cascade comes from one level or from the fallback. */
  lemma CascadeMember(m: Model, ctx: seq<string>, last: string, n: nat, fallback: seq<string>, c: string)
    requires c in Cascade(m, ctx, last, n, fallback)
    ensures c in fallback || exists k :: 2 <= k <= 4 && c in LevelCompletions(m, ctx, last, n, k)
  {
    if c !in fallback {
      var k := if c in LevelCompletions(m, ctx, last, n, 4) then 4
        else if c in LevelCompletions(m, ctx, last, n, 3) then 3 else 2;
      assert c in LevelCompletions(m, ctx, last, n, k);
    }
  }

  /** `complete_last_word`: the first order, from the highest, whose
      context is present and which has successors starting with the partial
      last word provides the completions; when none does, the prefix
      completer ranks the vocabulary instead. */
  function CompleteLastWord(m: Model, sentence: string, n: nat): (r: seq<string>)
    requires |Tokenize(sentence)| > 0
    requires m.vocab.Valid()
    ensures |r| <= n
    ensures var toks := Tokenize(sentence);
      var last := toks[|toks| - 1];
      var ctx := toks[..|toks| - 1];
      (forall k :: 2 <= k <= 4 ==> LevelCompletions(m, ctx, last, n, k) == []) ==>
        r == PossibleWords(m.vocab, last, n, false)
  {
    var toks := Tokenize(sentence);
    var last := toks[|toks| - 1];
    var fallback := PossibleWords(m.vocab, last, n, false);
    CascadeShape(m, toks[..|toks| - 1], last, n, fallback);
    Cascade(m, toks[..|toks| - 1], last, n, fallback)
  }

  /** The cascade returns one level's completions or the fallback: at most
      `n` words when the fallback has at most `n`, and the fallback itself
      when every level is empty. */
  lemma CascadeShape(m: Model, ctx: seq<string>, last: string, n: nat, fallback: seq<string>)
    ensures |fallback| <= n ==> |Cascade(m, ctx, last, n, fallback)| <= n
    ensures (forall k :: 2 <= k <= 4 ==> LevelCompletions(m, ctx, last, n, k) == []) ==>
      Cascade(m, ctx, last, n, fallback) == fallback
  {
  }

  lemma CascadeFirstNonEmpty(m: Model, ctx: seq<string>, last: string, n: nat, fallback: seq<string>, k: nat)
    requires 2 <= k <= 4
    requires FirstNonEmpty(m, ctx, last, n, k)
    ensures Cascade(m, ctx, last, n, fallback) == LevelCompletions(m, ctx, last, n, k)
  {
    if k == 3 {
      assert LevelCompletions(m, ctx, last, n, 4) == [];
    } else if k == 2 {
      assert LevelCompletions(m, ctx, last, n, 4) == [] && LevelCompletions(m, ctx, last, n, 3) == [];
    }
  }

  /** The highest order offering completions provides them. */
  lemma CompleteLastWordFirstNonEmpty(m: Model, sentence: string, n: nat, k: nat)
    requires |Tokenize(sentence)| > 0
    requires m.vocab.Valid()
    requires 2 <= k <= 4
    requires var toks := Tokenize(sentence);
      FirstNonEmpty(m, toks[..|toks| - 1], toks[|toks| - 1], n, k)
    ensures var toks := Tokenize(sentence);
      CompleteLastWord(m, sentence, n) == LevelCompletions(m, toks[..|toks| - 1], toks[|toks| - 1], n, k)
  {
    var toks := Tokenize(sentence);
    var last := toks[|toks| - 1];
    CascadeFirstNonEmpty(m, toks[..|toks| - 1], last, n, PossibleWords(m.vocab, last, n, false), k);
  }

  /** Every completion starts with the partial last word (lower-cased when
      it comes from the vocabulary fallback); for a lower-case sentence the
      two coincide. */
  lemma CompletionsExtendLastWord(m: Model, sentence: string, n: nat)
    requires |Tokenize(sentence)| > 0
    requires m.vocab.Valid()
    ensures var toks := Tokenize(sentence);
      var last := toks[|toks| - 1];
      forall w :: w in CompleteLastWord(m, sentence, n) ==>
        StartsWith(w, last) || StartsWith(w, Lower(last))
    ensures IsLowercase(sentence) ==>
      var toks := Tokenize(sentence);
      forall w :: w in CompleteLastWord(m, sentence, n) ==> StartsWith(w, toks[|toks| - 1])
  {
    var toks := Tokenize(sentence);
    var last := toks[|toks| - 1];
    var ctx := toks[..|toks| - 1];
    var fallback := PossibleWords(m.vocab, last, n, false);
    assert CompleteLastWord(m, sentence, n) == Cascade(m, ctx, last, n, fallback);
    forall w | w in CompleteLastWord(m, sentence, n)
      ensures StartsWith(w, last) || StartsWith(w, Lower(last))
    {
      CascadeMember(m, ctx, last, n, fallback, w);
      if w !in fallback {
        var k :| 2 <= k <= 4 && w in LevelCompletions(m, ctx, last, n, k);
        LevelCompletionsFiltered(m, ctx, last, n, k);
      }
    }
    if IsLowercase(sentence) {
      TokensOfLowercase(sentence);
      LowerIsLowercase(last);
    }
  }

  /** A level's completions are the first `min(n, len)` entries of its
      successor list filtered by the partial word, in table order. */
  lemma LevelCompletionsFiltered(m: Model, ctx: seq<string>, last: string, n: nat, k: nat)
    requires 2 <= k <= 4
    ensures var r := LevelCompletions(m, ctx, last, n, k);
      && |r| <= n
      && (forall w :: w in r ==> StartsWith(w, last))
      && (Successors(m, ctx, k).Some? ==>
            var f := FilterPrefix(Successors(m, ctx, k).value, last);
            r == f[..|r|] && (|r| == n || |r| == |f|))
  {
    var r := LevelCompletions(m, ctx, last, n, k);
    if Successors(m, ctx, k).Some? {
      var f := FilterPrefix(Successors(m, ctx, k).value, last);
      FilterPrefixMembers(Successors(m, ctx, k).value, last);
      forall w | w in r
        ensures StartsWith(w, last)
      {
        var i :| 0 <= i < |r| && r[i] == w;
        assert f[i] == w;
      }
    }
  }

  /** First non-empty level wins: once order `k` yields completions, the
      tables of lower order can be anything without changing the result. */
  lemma CascadeIgnoresLowerOrders(m: Model, m': Model, ctx: seq<string>, last: string, n: nat, fallback: seq<string>, k: nat)
    requires 2 <= k <= 4
    requires LevelCompletions(m, ctx, last, n, k) != []
    requires forall j :: k <= j <= 4 ==> TableOf(m', j) == TableOf(m, j)
    ensures Cascade(m', ctx, last, n, fallback) == Cascade(m, ctx, last, n, fallback)
  {
    assert TableOf(m', 4) == TableOf(m, 4);
    SameLevel(m, m', ctx, last, n, 4);
    if k <= 3 {
      assert TableOf(m', 3) == TableOf(m, 3);
      SameLevel(m, m', ctx, last, n, 3);
    }
    if k == 2 {
      assert TableOf(m', 2) == TableOf(m, 2);
      SameLevel(m, m', ctx, last, n, 2);
    }
  }

  lemma SameLevel(m: Model, m': Model, ctx: seq<string>, last: string, n: nat, j: nat)
    requires 2 <= j <= 4
    requires TableOf(m', j) == TableOf(m, j)
    ensures LevelCompletions(m', ctx, last, n, j) == LevelCompletions(m, ctx, last, n, j)
  {
  }

  lemma CompleteLastWordIgnoresLowerOrders(m: Model, m': Model, sentence: string, n: nat, k: nat)
    requires |Tokenize(sentence)| > 0
    requires m.vocab.Valid() && m'.vocab == m.vocab
    requires 2 <= k <= 4
    requires var toks := Tokenize(sentence);
      LevelCompletions(m, toks[..|toks| - 1], toks[|toks| - 1], n, k) != []
    requires forall j :: k <= j <= 4 ==> TableOf(m', j) == TableOf(m, j)
    ensures CompleteLastWord(m', sentence, n) == CompleteLastWord(m, sentence, n)
  {
    var toks := Tokenize(sentence);
    var last := toks[|toks| - 1];
    CascadeIgnoresLowerOrders(m, m', toks[..|toks| - 1], last, n, PossibleWords(m.vocab, last, n, false), k);
  }
}
