/**
  The n-gram successor tables. For an order `k` (2, 3 or 4) a table maps
  each context of `k - 1` consecutive tokens to the words that followed it
  in the training sentences, with their counts, listed most frequent first.
 */
module NGrams {
  import opened Text
  import opened Counters

  type Table = map<seq<string>, Counter>

  function Entry(t: Table, ctx: seq<string>): Counter {
    if ctx in t then t[ctx] else Empty
  }

  /** What the builder keeps true of a table of order `k`: contexts of
      `k - 1` tokens, each with a non-empty, valid successor dictionary. */
  predicate TableValid(t: Table, k: nat) {
    forall ctx :: ctx in t ==>
      && |ctx| + 1 == k
      && t[ctx].Valid()
      && |t[ctx].order| > 0
  }

  /** Every context token and every successor is a token of lower-cased
      text. */
  predicate TableLexical(t: Table) {
    forall ctx :: ctx in t ==>
      && (forall i :: 0 <= i < |ctx| ==> Lexical(ctx[i]))
      && AllLexical(t[ctx])
  }

  /** A built table: valid, and every successor list sorted by descending
      count. */
  predicate SortedTable(t: Table, k: nat) {
    TableValid(t, k) && forall ctx :: ctx in t ==> NonIncreasing(t[ctx].order, t[ctx].counts)
  }

  /** Reference count: the windows of `k` consecutive tokens of `toks` whose
      first `k - 1` tokens are `ctx` and whose last token is `tgt`. */
  function WindowCount(toks: seq<string>, k: nat, ctx: seq<string>, tgt: string): nat
    requires k >= 2
    decreases |toks|
  {
    if |toks| < k then 0
    else
      var here := if toks[..k - 1] == ctx && toks[k - 1] == tgt then 1 else 0;
      here + WindowCount(toks[1..], k, ctx, tgt)
  }

  /** Reference count: the windows of `k` tokens whose context is `ctx`. */
  function ContextCount(toks: seq<string>, k: nat, ctx: seq<string>): nat
    requires k >= 2
    decreases |toks|
  {
    if |toks| < k then 0
    else (if toks[..k - 1] == ctx then 1 else 0) + ContextCount(toks[1..], k, ctx)
  }

  /** The token sequence the builder reads from one training sentence. */
  function SentenceTokens(sent: string): (toks: seq<string>)
    ensures forall i :: 0 <= i < |toks| ==> Lexical(toks[i])
  {
    LowerIsLowercase(sent);
    TokensOfLowercase(Lower(sent));
    Tokenize(Lower(sent))
  }

  function CorpusWindowCount(sents: seq<string>, k: nat, ctx: seq<string>, tgt: string): nat
    requires k >= 2
  {
    if sents == [] then 0
    else WindowCount(SentenceTokens(sents[0]), k, ctx, tgt) + CorpusWindowCount(sents[1..], k, ctx, tgt)
  }

  function CorpusContextCount(sents: seq<string>, k: nat, ctx: seq<string>): nat
    requires k >= 2
  {
    if sents == [] then 0
    else ContextCount(SentenceTokens(sents[0]), k, ctx) + CorpusContextCount(sents[1..], k, ctx)
  }

  /** `table[ctx][tgt] += 1`, creating the entry on first sight. */
  function AddWindow(t: Table, k: nat, ctx: seq<string>, tgt: string): (r: Table)
    requires TableValid(t, k)
    requires |ctx| + 1 == k
    ensures TableValid(r, k)
    ensures forall c, w :: Entry(r, c).Count(w) == Entry(t, c).Count(w) + (if c == ctx && w == tgt then 1 else 0)
    ensures forall c :: c in r <==> c in t || c == ctx
    ensures forall c :: c in t && c != ctx ==> r[c] == t[c]
    ensures tgt in Entry(t, ctx).counts ==> r[ctx].order == Entry(t, ctx).order
    ensures tgt !in Entry(t, ctx).counts ==> r[ctx].order == Entry(t, ctx).order + [tgt]
  {
    var e := Entry(t, ctx).Add(tgt);
    assert tgt in e.order;
    t[ctx := e]
  }

  /** The sliding window over one sentence, first window first. */
  function AddWindows(t: Table, toks: seq<string>, k: nat): (r: Table)
    requires k >= 2
    requires TableValid(t, k)
    ensures TableValid(r, k)
    ensures forall c, w :: Entry(r, c).Count(w) == Entry(t, c).Count(w) + WindowCount(toks, k, c, w)
    ensures forall c :: c in r <==> c in t || ContextCount(toks, k, c) > 0
    decreases |toks|
  {
    if |toks| < k then t
    else
      var t' := AddWindow(t, k, toks[..k - 1], toks[k - 1]);
      var r := AddWindows(t', toks[1..], k);
      WindowStep(t, t', r, toks, k);
      r
  }

  /** Counting the first window and then the rest counts every window. */
  lemma WindowStep(t: Table, t': Table, r: Table, toks: seq<string>, k: nat)
    requires 2 <= k <= |toks|
    requires forall c, w :: Entry(t', c).Count(w) == Entry(t, c).Count(w) + (if c == toks[..k - 1] && w == toks[k - 1] then 1 else 0)
    requires forall c :: c in t' <==> c in t || c == toks[..k - 1]
    requires forall c, w :: Entry(r, c).Count(w) == Entry(t', c).Count(w) + WindowCount(toks[1..], k, c, w)
    requires forall c :: c in r <==> c in t' || ContextCount(toks[1..], k, c) > 0
    ensures forall c, w :: Entry(r, c).Count(w) == Entry(t, c).Count(w) + WindowCount(toks, k, c, w)
    ensures forall c :: c in r <==> c in t || ContextCount(toks, k, c) > 0
  {
  }

  /** The counting loops of `create_ngram_dict` for one order, over the
      sentences in order. */
  function AddCorpus(t: Table, sents: seq<string>, k: nat): (r: Table)
    requires k >= 2
    requires TableValid(t, k)
    ensures TableValid(r, k)
    ensures forall c, w :: Entry(r, c).Count(w) == Entry(t, c).Count(w) + CorpusWindowCount(sents, k, c, w)
    ensures forall c :: c in r <==> c in t || CorpusContextCount(sents, k, c) > 0
    decreases |sents|
  {
    if sents == [] then t
    else AddCorpus(AddWindows(t, SentenceTokens(sents[0]), k), sents[1..], k)
  }

  /** The unsorted counts of one order. */
  function CountTable(sents: seq<string>, k: nat): (t: Table)
    requires k >= 2
    ensures TableValid(t, k)
  {
    AddCorpus(map[], sents, k)
  }

  /** `sort_ngram_dict`: every successor dictionary re-ordered by descending
      count, nothing else changed. */
  function SortTable(t: Table, k: nat): (r: Table)
    requires TableValid(t, k)
    ensures SortedTable(r, k)
    ensures r.Keys == t.Keys
    ensures forall c :: c in r ==> r[c].counts == t[c].counts && multiset(r[c].order) == multiset(t[c].order)
  {
    var r := map c | c in t :: SortCounter(t[c]);
    forall c | c in r
      ensures |c| + 1 == k && r[c].Valid() && |r[c].order| > 0
      ensures NonIncreasing(r[c].order, r[c].counts)
    {
      assert |multiset(r[c].order)| == |multiset(t[c].order)|;
    }
    r
  }

  /** One order of `create_ngram_dict`: `table[ctx][tgt]` is the number of
      `k`-token windows of the corpus with context `ctx` and last token
      `tgt`, the contexts present are exactly those some window has, and
      each successor list is a permutation of the counted successors in
      non-increasing count order. */
  function BuildTable(sents: seq<string>, k: nat): (t: Table)
    requires k >= 2
    ensures SortedTable(t, k)
    ensures forall c, w :: Entry(t, c).Count(w) == CorpusWindowCount(sents, k, c, w)
    ensures forall c :: c in t <==> CorpusContextCount(sents, k, c) > 0
    ensures forall c :: c in t ==> multiset(t[c].order) == multiset(CountTable(sents, k)[c].order)
  {
    var raw := CountTable(sents, k);
    SortTableEntries(raw, k);
    SortTable(raw, k)
  }

  /** Sorting changes no count. */
  lemma SortTableEntries(t: Table, k: nat)
    requires TableValid(t, k)
    ensures forall c, w :: Entry(SortTable(t, k), c).Count(w) == Entry(t, c).Count(w)
  {
  }

  /** A counted window consists of tokens of lower-cased text. */
  lemma {:induction false} WindowLexical(toks: seq<string>, k: nat, ctx: seq<string>, tgt: string)
    requires k >= 2
    requires forall i :: 0 <= i < |toks| ==> Lexical(toks[i])
    requires WindowCount(toks, k, ctx, tgt) > 0
    ensures |ctx| + 1 == k && Lexical(tgt) && forall i :: 0 <= i < |ctx| ==> Lexical(ctx[i])
    decreases |toks|
  {
    if !(toks[..k - 1] == ctx && toks[k - 1] == tgt) {
      WindowLexical(toks[1..], k, ctx, tgt);
    }
  }

  lemma {:induction false} CorpusWindowLexical(sents: seq<string>, k: nat, ctx: seq<string>, tgt: string)
    requires k >= 2
    requires CorpusWindowCount(sents, k, ctx, tgt) > 0
    ensures |ctx| + 1 == k && Lexical(tgt) && forall i :: 0 <= i < |ctx| ==> Lexical(ctx[i])
    decreases |sents|
  {
    if WindowCount(SentenceTokens(sents[0]), k, ctx, tgt) > 0 {
      WindowLexical(SentenceTokens(sents[0]), k, ctx, tgt);
    } else {
      CorpusWindowLexical(sents[1..], k, ctx, tgt);
    }
  }

  /** The built tables hold only tokens of lower-cased text. */
  lemma BuildTableLexical(sents: seq<string>, k: nat)
    requires k >= 2
    ensures TableLexical(BuildTable(sents, k))
  {
    var t := BuildTable(sents, k);
    forall c | c in t
      ensures (forall i :: 0 <= i < |c| ==> Lexical(c[i])) && AllLexical(t[c])
    {
      forall w | w in t[c].counts
        ensures Lexical(w) && forall i :: 0 <= i < |c| ==> Lexical(c[i])
      {
        assert Entry(t, c).Count(w) >= 1;
        CorpusWindowLexical(sents, k, c, w);
      }
      assert t[c].order[0] in t[c].counts;
    }
  }
}
