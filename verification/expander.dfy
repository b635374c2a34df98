/**
  `autocomplete_query`: seed suggestions for the query, then generations
  of one-word extensions, each generation built from the previous one.
 */
module Expander {
  import opened Text
  import opened Vocabulary
  import opened Predictor

  /** `[prefix + w for w in ws]`. */
  function Attach(prefix: string, ws: seq<string>): (r: seq<string>)
    ensures |r| == |ws|
    ensures forall i :: 0 <= i < |ws| ==> r[i] == prefix + ws[i]
  {
    seq(|ws|, i requires 0 <= i < |ws| => prefix + ws[i])
  }

  /** The characters left when the last token's length is cut off the end,
      as `sentence[:-len(last)]` does. */
  function DropLast(s: string, last: string): string
    requires |last| <= |s|
  {
    s[..|s| - |last|]
  }

  /** Every token is at most as long as the text it comes from. */
  lemma {:induction false} TokenLength(s: string)
    ensures forall i :: 0 <= i < |Tokenize(s)| ==> |Tokenize(s)[i]| <= |s|
    decreases |s|
  {
    if |s| == 0 {
    } else if IsSpace(s[|s| - 1]) {
      TokenLength(s[..|s| - 1]);
    } else {
      var k := WordStart(s, |s|);
      TokenLength(s[..k]);
    }
  }

  /** Whether the query's first batch may be computed: the source indexes
      the last token unless the query ends in a space. */
  predicate Seedable(s: string) {
    EndsWithSpace(s) || |Tokenize(s)| > 0
  }

  /** The first batch of suggestions for the lower-cased query `s`. */
  function Seeds(m: Model, s: string, b: nat): (r: seq<string>)
    requires m.vocab.Valid()
    requires Seedable(s)
    ensures |r| <= b
  {
    var toks := Tokenize(s);
    if EndsWithSpace(s) then
      Attach(s, PredictNext(m, s, b))
    else if toks[|toks| - 1] in m.vocab.counts then
      Attach(s + " ", PredictNext(m, s, b))
    else
      TokenLength(s);
      Attach(DropLast(s, toks[|toks| - 1]), CompleteLastWord(m, s, b))
  }

  /** A query ending in a space is extended by each predicted word: one
      more token per suggestion. */
  lemma SeedsAfterSpace(m: Model, s: string, b: nat)
    requires WellFormed(m)
    requires EndsWithSpace(s)
    ensures var r := Seeds(m, s, b);
      var ws := PredictNext(m, s, b);
      && |r| == |ws|
      && forall i :: 0 <= i < |r| ==> r[i] == s + ws[i] && Tokenize(r[i]) == Tokenize(s) + [ws[i]]
  {
    var r := Seeds(m, s, b);
    var ws := PredictNext(m, s, b);
    PredictNextWords(m, s, b);
    forall i | 0 <= i < |r|
      ensures r[i] == s + ws[i] && Tokenize(r[i]) == Tokenize(s) + [ws[i]]
    {
      TokenizeAppendWord(s, ws[i]);
    }
  }

  /** A query whose last token is a known word gets a space and each
      predicted word appended. */
  lemma SeedsAfterKnownWord(m: Model, s: string, b: nat)
    requires WellFormed(m)
    requires !EndsWithSpace(s) && |Tokenize(s)| > 0
    requires Tokenize(s)[|Tokenize(s)| - 1] in m.vocab.counts
    ensures var r := Seeds(m, s, b);
      var ws := PredictNext(m, s, b);
      && |r| == |ws|
      && forall i :: 0 <= i < |r| ==> r[i] == s + " " + ws[i] && Tokenize(r[i]) == Tokenize(s) + [ws[i]]
  {
    var r := Seeds(m, s, b);
    var ws := PredictNext(m, s, b);
    PredictNextWords(m, s, b);
    forall i | 0 <= i < |r|
      ensures r[i] == s + " " + ws[i] && Tokenize(r[i]) == Tokenize(s) + [ws[i]]
    {
      SpaceThenWord(s, ws[i]);
    }
  }

  /** A query whose last token is not a known word has that token replaced
      by each of its completions, which extend it. */
  lemma SeedsCompleteLastWord(m: Model, s: string, b: nat)
    requires WellFormed(m)
    requires IsLowercase(s)
    requires |s| > 0 && !IsSpace(s[|s| - 1])
    requires Tokenize(s)[|Tokenize(s)| - 1] !in m.vocab.counts
    ensures var toks := Tokenize(s);
      var r := Seeds(m, s, b);
      var cs := CompleteLastWord(m, s, b);
      && |r| == |cs|
      && forall i :: 0 <= i < |r| ==>
        && StartsWith(cs[i], toks[|toks| - 1])
        && r[i] == s[..|s| - |toks[|toks| - 1]|] + cs[i]
        && Tokenize(r[i]) == toks[..|toks| - 1] + [cs[i]]
  {
    var toks := Tokenize(s);
    assert |toks| > 0 by {
      LastTokenIsSuffix(s, "a");
    }
    var r := Seeds(m, s, b);
    var cs := CompleteLastWord(m, s, b);
    CompletionsExtendLastWord(m, s, b);
    forall i | 0 <= i < |r|
      ensures StartsWith(cs[i], toks[|toks| - 1])
      ensures r[i] == s[..|s| - |toks[|toks| - 1]|] + cs[i]
      ensures Tokenize(r[i]) == toks[..|toks| - 1] + [cs[i]]
    {
      assert cs[i] in cs;
      CompletionIsWord(m, s, b, cs[i]);
      LastTokenIsSuffix(s, cs[i]);
    }
  }

  /** For a query whose partial last word `w` is followed by a tab, newline
      or carriage return, `sentence[:-len(last)]` cuts that character and all
      of `w` but its first letter: the completions are attached to
      `pre + w[0]`, not to `pre` (`"the ca\t"` gives `"the c" + "cat"`). */
  lemma {:induction false} SeedCutsTrailingWhitespace(m: Model, pre: string, w: string, c: char, b: nat)
    requires m.vocab.Valid()
    requires |pre| == 0 || IsSpace(pre[|pre| - 1])
    requires WordToken(w)
    requires IsSpace(c) && c != ' '
    requires w !in m.vocab.counts
    ensures Tokenize(pre + w + [c]) == Tokenize(pre) + [w]
    ensures Seeds(m, pre + w + [c], b) ==
      Attach(pre + w[..1], CompleteLastWord(m, pre + w + [c], b))
  {
    var s := pre + w + [c];
    assert s[..|s| - 1] == pre + w;
    TokenizeAppendWord(pre, w);
    assert !EndsWithSpace(s);
    assert DropLast(s, w) == pre + w[..1];
  }

  /** Completions of a well-formed model are tokens. */
  lemma CompletionIsWord(m: Model, s: string, b: nat, c: string)
    requires WellFormed(m)
    requires |Tokenize(s)| > 0
    requires c in CompleteLastWord(m, s, b)
    ensures WordToken(c)
  {
    var toks := Tokenize(s);
    var last := toks[|toks| - 1];
    var ctx := toks[..|toks| - 1];
    var fallback := PossibleWords(m.vocab, last, b, false);
    CascadeMember(m, ctx, last, b, fallback, c);
    if c !in fallback {
      var k :| 2 <= k <= 4 && c in LevelCompletions(m, ctx, last, b, k);
      LevelCompletionsFiltered(m, ctx, last, b, k);
      SuccessorWords(m, ctx, k);
      var ws := Successors(m, ctx, k).value;
      FilterPrefixMembers(ws, last);
      assert c in FilterPrefix(ws, last);
    }
  }

  /** The suggestions one parent spawns: `parent + " " + w` for each
      predicted next word `w`. */
  function Children(m: Model, parent: string, b: nat): seq<string> {
    Attach(parent + " ", PredictNext(m, parent, b))
  }

  /** A parent spawns at most `branches` suggestions. */
  lemma ChildrenCount(m: Model, parent: string, b: nat)
    ensures |Children(m, parent, b)| <= b
  {
  }

  function ChildrenOf(m: Model, b: nat): string -> seq<string> {
    parent => Children(m, parent, b)
  }

  /** `s` extends `parent` by one predicted word. */
  predicate ChildOf(m: Model, b: nat, parent: string, s: string) {
    exists w :: w in PredictNext(m, parent, b) && s == parent + " " + w
  }

  lemma ChildrenMembers(m: Model, p: string, b: nat, s: string)
    ensures s in Children(m, p, b) <==> ChildOf(m, b, p, s)
  {
    AttachMember(p + " ", PredictNext(m, p, b), s);
  }

  /** The members of `Attach(prefix, ws)` are exactly `prefix + w` for the
      members `w` of `ws`. */
  lemma AttachMember(prefix: string, ws: seq<string>, s: string)
    ensures s in Attach(prefix, ws) <==> exists w :: w in ws && s == prefix + w
  {
    var r := Attach(prefix, ws);
    if s in r {
      var i :| 0 <= i < |r| && r[i] == s;
      assert ws[i] in ws;
    }
    if exists w :: w in ws && s == prefix + w {
      var w :| w in ws && s == prefix + w;
      var i :| 0 <= i < |ws| && ws[i] == w;
      assert r[i] == s;
    }
  }

  /** In a well-formed model a child has its parent's tokens plus exactly
      one predicted token. */
  lemma ChildTokens(m: Model, b: nat, p: string, s: string)
    requires WellFormed(m)
    requires ChildOf(m, b, p, s)
    ensures |Tokenize(s)| == |Tokenize(p)| + 1
    ensures Tokenize(s)[..|Tokenize(p)|] == Tokenize(p)
    ensures Tokenize(s)[|Tokenize(p)|] in PredictNext(m, p, b)
  {
    var w :| w in PredictNext(m, p, b) && s == p + " " + w;
    PredictNextWords(m, p, b);
    var ws := PredictNext(m, p, b);
    var i :| 0 <= i < |ws| && ws[i] == w;
    SpaceThenWord(p, w);
  }

  /** One generation from the previous: the children of each parent in
      turn, all children of one parent before those of the next. */
  function Spawn<T>(kids: T -> seq<T>, batch: seq<T>): seq<T>
    decreases |batch|
  {
    if batch == [] then []
    else Spawn(kids, batch[..|batch| - 1]) + kids(batch[|batch| - 1])
  }

  /** Parent-major order: the generation of a concatenation is the
      concatenation of the generations. */
  lemma {:induction false} SpawnAppend<T>(kids: T -> seq<T>, a: seq<T>, c: seq<T>)
    ensures Spawn(kids, a + c) == Spawn(kids, a) + Spawn(kids, c)
    decreases |c|
  {
    if c == [] {
      assert a + c == a;
    } else {
      var c' := c[..|c| - 1];
      assert (a + c)[..|a + c| - 1] == a + c';
      assert (a + c)[|a + c| - 1] == c[|c| - 1];
      SpawnAppend(kids, a, c');
    }
  }

  /** The next generation holds exactly the children of the batch's
      members. */
  lemma {:induction false} SpawnMember<T>(kids: T -> seq<T>, batch: seq<T>, s: T)
    ensures s in Spawn(kids, batch) <==> exists p :: p in batch && s in kids(p)
    decreases |batch|
  {
    if batch != [] {
      var init := batch[..|batch| - 1];
      var last := batch[|batch| - 1];
      SpawnMember(kids, init, s);
      assert Spawn(kids, batch) == Spawn(kids, init) + kids(last);
      assert last in batch;
      if exists p :: p in batch && s in kids(p) {
        var p :| p in batch && s in kids(p);
        if p != last {
          var i :| 0 <= i < |batch| && batch[i] == p;
          assert init[i] == p;
        }
      }
      if s in Spawn(kids, init) {
        var p :| p in init && s in kids(p);
        assert p in batch;
      }
    }
  }

  lemma MulSucc(b: nat, x: nat)
    ensures b * (x + 1) == b * x + b
  {
  }

  /** A generation has at most `b` suggestions per parent. */
  lemma {:induction false} SpawnBound<T>(kids: T -> seq<T>, batch: seq<T>, b: nat)
    requires forall p :: |kids(p)| <= b
    ensures |Spawn(kids, batch)| <= b * |batch|
    decreases |batch|
  {
    if batch != [] {
      SpawnBound(kids, batch[..|batch| - 1], b);
      MulSucc(b, |batch| - 1);
    }
  }

  /** Generation `g`: the seeds, then `g` rounds of extension. */
  function Gen<T>(kids: T -> seq<T>, seeds: seq<T>, g: nat): seq<T>
    decreases g
  {
    if g == 0 then seeds else Spawn(kids, Gen(kids, seeds, g - 1))
  }

  /** All suggestions of generations `0 .. count - 1`, generation by
      generation. */
  function Expansion<T>(kids: T -> seq<T>, seeds: seq<T>, count: nat): seq<T>
    decreases count
  {
    if count == 0 then [] else Expansion(kids, seeds, count - 1) + Gen(kids, seeds, count - 1)
  }

  function Pow(b: nat, e: nat): nat
    decreases e
  {
    if e == 0 then 1 else b * Pow(b, e - 1)
  }

  lemma MulMono(b: nat, x: nat, y: nat)
    requires x <= y
    ensures b * x <= b * y
  {
  }

  /** Generation `g` holds at most `b ^ (g + 1)` suggestions when the seeds
      and every parent's children are at most `b`. */
  lemma {:induction false} GenBound<T>(kids: T -> seq<T>, seeds: seq<T>, b: nat, g: nat)
    requires |seeds| <= b
    requires forall p :: |kids(p)| <= b
    ensures |Gen(kids, seeds, g)| <= Pow(b, g + 1)
    decreases g
  {
    if g > 0 {
      GenBound(kids, seeds, b, g - 1);
      var prev := Gen(kids, seeds, g - 1);
      SpawnBound(kids, prev, b);
      MulMono(b, |prev|, Pow(b, g));
    }
  }

  /** Generation `g` sits in the expansion right after generations
      `0 .. g - 1`, for every `g < count`. */
  lemma {:induction false} ExpansionLayout<T>(kids: T -> seq<T>, seeds: seq<T>, count: nat, g: nat)
    requires g < count
    ensures var e := Expansion(kids, seeds, count);
      var start := |Expansion(kids, seeds, g)|;
      var gen := Gen(kids, seeds, g);
      start + |gen| <= |e| && e[start..start + |gen|] == gen
    decreases count
  {
    var e := Expansion(kids, seeds, count);
    var prev := Expansion(kids, seeds, count - 1);
    assert e == prev + Gen(kids, seeds, count - 1);
    if g < count - 1 {
      ExpansionLayout(kids, seeds, count - 1, g);
      var start := |Expansion(kids, seeds, g)|;
      var gen := Gen(kids, seeds, g);
      assert e[start..start + |gen|] == prev[start..start + |gen|];
    }
  }

  /** Every suggestion past the seeds extends a suggestion of the previous
      generation by one predicted word, and every such extension is
      suggested. */
  lemma GenMembers(m: Model, seeds: seq<string>, b: nat, g: nat)
    requires g > 0
    ensures forall s :: s in Gen(ChildrenOf(m, b), seeds, g) <==>
      exists p :: p in Gen(ChildrenOf(m, b), seeds, g - 1) && ChildOf(m, b, p, s)
  {
    var kids := ChildrenOf(m, b);
    var prev := Gen(kids, seeds, g - 1);
    forall s
      ensures s in Gen(kids, seeds, g) <==> exists p :: p in prev && ChildOf(m, b, p, s)
    {
      SpawnMember(kids, prev, s);
      forall p
        ensures s in kids(p) <==> ChildOf(m, b, p, s)
      {
        ChildrenMembers(m, p, b, s);
      }
    }
  }

  /** The generations of a query: the seeds (generation 0) have at most
      `b` suggestions and each later generation at most `b` times the one
      before, so generation `g` has at most `b^(g+1)`. */
  lemma GenerationBound(m: Model, s: string, b: nat, g: nat)
    requires m.vocab.Valid()
    requires Seedable(s)
    ensures |Gen(ChildrenOf(m, b), Seeds(m, s, b), g)| <= Pow(b, g + 1)
  {
    var kids := ChildrenOf(m, b);
    forall p
      ensures |kids(p)| <= b
    {
      ChildrenCount(m, p, b);
    }
    GenBound(kids, Seeds(m, s, b), b, g);
  }

  /** With no branches the seeds are empty and so is every generation. */
  lemma NoBranches(m: Model, s: string, count: nat)
    requires m.vocab.Valid()
    requires Seedable(s)
    ensures Expansion(ChildrenOf(m, 0), Seeds(m, s, 0), count) == []
  {
    var kids := ChildrenOf(m, 0);
    forall p
      ensures |kids(p)| <= 0
    {
      ChildrenCount(m, p, 0);
    }
    EmptyExpansion(kids, Seeds(m, s, 0), count);
  }

  /** No seeds and no children: nothing at any depth. */
  lemma {:induction false} EmptyExpansion<T>(kids: T -> seq<T>, seeds: seq<T>, count: nat)
    requires |seeds| == 0
    requires forall p :: |kids(p)| <= 0
    ensures Expansion(kids, seeds, count) == []
    decreases count
  {
    if count > 0 {
      EmptyExpansion(kids, seeds, count - 1);
      GenBound(kids, seeds, 0, count - 1);
      assert Pow(0, count) == 0;
    }
  }

  /** `autocomplete_query`: nothing when `levels <= 0`; otherwise the seeds
      of the lower-cased query followed by `levels - 1` further
      generations. */
  method AutocompleteQuery(m: Model, sentence: string, branches: nat, levels: int) returns (suggestions: seq<string>)
    requires m.vocab.Valid()
    requires levels > 0 ==> Seedable(Lower(sentence))
    ensures levels <= 0 ==> suggestions == []
    ensures levels > 0 ==>
      suggestions == Expansion(ChildrenOf(m, branches), Seeds(m, Lower(sentence), branches), levels)
  {
    if levels <= 0 {
      return [];
    }
    var seeds := Seeds(m, Lower(sentence), branches);
    suggestions := Generations(m, seeds, branches, levels);
  }

  /** The level loop: the seeds, then `levels - 1` rounds, each extending
      the batch of the previous round. */
  method Generations(m: Model, seeds: seq<string>, branches: nat, levels: nat) returns (all: seq<string>)
    requires levels > 0
    ensures all == Expansion(ChildrenOf(m, branches), seeds, levels)
  {
    var kids := ChildrenOf(m, branches);
    all := seeds;
    var current := seeds;
    var i := 0;
    while i < levels - 1
      invariant 0 <= i <= levels - 1
      invariant current == Gen(kids, seeds, i)
      invariant all == Expansion(kids, seeds, i + 1)
    {
      var next := NextBatch(m, current, branches);
      all := all + next;
      current := next;
      i := i + 1;
    }
  }

  /** One round of the level loop: for each sentence of the batch in turn,
      append it extended by each of its predicted next words. */
  method NextBatch(m: Model, current: seq<string>, branches: nat) returns (next: seq<string>)
    ensures next == Spawn(ChildrenOf(m, branches), current)
  {
    var kids := ChildrenOf(m, branches);
    next := [];
    var j := 0;
    while j < |current|
      invariant 0 <= j <= |current|
      invariant next == Spawn(kids, current[..j])
    {
      var parent := current[j];
      var words := PredictNext(m, parent, branches);
      var children := ExtendAll(parent + " ", words);
      assert children == kids(parent);
      assert current[..j + 1][..j] == current[..j];
      next := next + children;
      j := j + 1;
    }
    assert current[..j] == current;
  }

  /** The innermost loop: each word appended to the prefix, in order. */
  method ExtendAll(prefix: string, words: seq<string>) returns (r: seq<string>)
    ensures r == Attach(prefix, words)
  {
    r := [];
    var k := 0;
    while k < |words|
      invariant 0 <= k <= |words|
      invariant r == Attach(prefix, words[..k])
    {
      r := r + [prefix + words[k]];
      k := k + 1;
    }
    assert words[..k] == words;
  }
}
