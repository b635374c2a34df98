/**
  An insertion-ordered word -> count dictionary, the shape of every table the
  autocomplete model keeps, and the stable descending-count sort applied to
  such tables.

  `order` lists the keys in the dictionary's iteration order; `counts` holds
  the values. Sorting permutes `order` and leaves `counts` alone.
 */
module Counters {
  import opened Text

  predicate NoDup<T(==)>(xs: seq<T>) {
    forall i, j :: 0 <= i < j < |xs| ==> xs[i] != xs[j]
  }

  function Freq<K>(counts: map<K, nat>, w: K): nat {
    if w in counts then counts[w] else 0
  }

  /** Keys listed from most to least frequent. */
  predicate NonIncreasing<K>(ws: seq<K>, counts: map<K, nat>) {
    forall i, j :: 0 <= i < j < |ws| ==> Freq(counts, ws[i]) >= Freq(counts, ws[j])
  }

  datatype Counter = Counter(order: seq<string>, counts: map<string, nat>) {

    /** What a Python dict of occurrence counts guarantees: each key once, in
        iteration order, with a positive count. */
    predicate Valid() {
      && NoDup(order)
      && (forall w :: w in counts ==> w in order)
      && (forall w :: w in order ==> w in counts)
      && (forall w :: w in counts ==> counts[w] >= 1)
    }

    function Count(w: string): nat {
      Freq(counts, w)
    }

    /** `d[w] += 1`, or `d[w] = 1` for a new key (appended to the order). */
    function Add(w: string): (r: Counter)
      requires Valid()
      ensures r.Valid()
      ensures r.Count(w) == Count(w) + 1
      ensures forall v :: v != w ==> r.Count(v) == Count(v)
      ensures forall v :: v in r.counts <==> v in counts || v == w
      ensures w in counts ==> r.order == order
      ensures w !in counts ==> r.order == order + [w]
    {
      if w in counts then Counter(order, counts[w := counts[w] + 1])
      else Counter(order + [w], counts[w := 1])
    }
  }

  const Empty := Counter([], map[])

  /** Every key is a token of lower-cased text. */
  predicate AllLexical(c: Counter) {
    forall w :: w in c.counts ==> Lexical(w)
  }

  lemma NoDupTail<T>(xs: seq<T>)
    requires |xs| > 0
    ensures NoDup(xs) ==> xs[0] !in xs[1..] && NoDup(xs[1..])
  {
    if NoDup(xs) {
      forall k | 0 <= k < |xs[1..]|
        ensures xs[1..][k] != xs[0]
      {
        assert xs[1..][k] == xs[k + 1];
      }
    }
  }

  /** Where a key of count `Freq(counts, w)` goes in a list sorted by
      descending count: after every key with a strictly larger count. */
  function InsertPos<K(==)>(w: K, ws: seq<K>, counts: map<K, nat>): (p: nat)
    requires NonIncreasing(ws, counts)
    ensures p <= |ws|
    ensures forall k :: 0 <= k < p ==> Freq(counts, ws[k]) > Freq(counts, w)
    ensures forall k :: p <= k < |ws| ==> Freq(counts, ws[k]) <= Freq(counts, w)
  {
    if ws == [] then 0
    else if Freq(counts, ws[0]) > Freq(counts, w) then 1 + InsertPos(w, ws[1..], counts)
    else 0
  }

  /** Inserts `w` in front of the first key whose count is not larger than
      its own, so among equal counts `w` comes first. */
  function InsertByCount<K(==)>(w: K, ws: seq<K>, counts: map<K, nat>): (r: seq<K>)
    requires NonIncreasing(ws, counts)
    ensures NonIncreasing(r, counts)
    ensures multiset(r) == multiset(ws) + multiset{w}
    ensures w !in ws && NoDup(ws) ==> NoDup(r)
  {
    var p := InsertPos(w, ws, counts);
    InsertAtKeepsOrder(w, ws, counts, p);
    ws[..p] + [w] + ws[p..]
  }

  lemma InsertAtKeepsOrder<K>(w: K, ws: seq<K>, counts: map<K, nat>, p: nat)
    requires NonIncreasing(ws, counts)
    requires p <= |ws|
    requires forall k :: 0 <= k < p ==> Freq(counts, ws[k]) > Freq(counts, w)
    requires forall k :: p <= k < |ws| ==> Freq(counts, ws[k]) <= Freq(counts, w)
    ensures NonIncreasing(ws[..p] + [w] + ws[p..], counts)
    ensures w !in ws && NoDup(ws) ==> NoDup(ws[..p] + [w] + ws[p..])
    ensures multiset(ws[..p] + [w] + ws[p..]) == multiset(ws) + multiset{w}
  {
    InsertAtOrdered(w, ws, counts, p);
    InsertAtDistinct(w, ws, p);
    assert ws == ws[..p] + ws[p..];
  }

  lemma InsertAtOrdered<K>(w: K, ws: seq<K>, counts: map<K, nat>, p: nat)
    requires NonIncreasing(ws, counts)
    requires p <= |ws|
    requires forall k :: 0 <= k < p ==> Freq(counts, ws[k]) > Freq(counts, w)
    requires forall k :: p <= k < |ws| ==> Freq(counts, ws[k]) <= Freq(counts, w)
    ensures NonIncreasing(ws[..p] + [w] + ws[p..], counts)
  {
    var r := ws[..p] + [w] + ws[p..];
    InsertAtShape(w, ws, p);
    forall i, j | 0 <= i < j < |r|
      ensures Freq(counts, r[i]) >= Freq(counts, r[j])
    {
      if j < p {
        assert r[i] == ws[i] && r[j] == ws[j];
      } else if j == p {
        assert r[i] == ws[i];
      } else if i == p {
        assert r[j] == ws[j - 1];
      } else if i < p {
        assert r[i] == ws[i] && r[j] == ws[j - 1];
      } else {
        assert r[i] == ws[i - 1] && r[j] == ws[j - 1];
      }
    }
  }

  lemma InsertAtShape<K>(w: K, ws: seq<K>, p: nat)
    requires p <= |ws|
    ensures var r := ws[..p] + [w] + ws[p..];
      |r| == |ws| + 1 &&
      forall k :: 0 <= k < |r| ==> r[k] == (if k < p then ws[k] else if k == p then w else ws[k - 1])
  {
  }

  lemma InsertAtDistinct<K>(w: K, ws: seq<K>, p: nat)
    requires p <= |ws|
    ensures w !in ws && NoDup(ws) ==> NoDup(ws[..p] + [w] + ws[p..])
  {
    var r := ws[..p] + [w] + ws[p..];
    if w !in ws && NoDup(ws) {
      InsertAtShape(w, ws, p);
      forall i, j | 0 <= i < j < |r|
        ensures r[i] != r[j]
      {
      }
    }
  }

  /** Python's stable `sorted(..., key=count, reverse=True)` over the keys:
      an insertion sort that processes the keys from the back, so a key that
      came earlier ends up ahead of later keys with the same count. */
  function SortByCount<K(==)>(ws: seq<K>, counts: map<K, nat>): (r: seq<K>)
    ensures NonIncreasing(r, counts)
    ensures multiset(r) == multiset(ws)
    ensures NoDup(ws) ==> NoDup(r)
  {
    if ws == [] then []
    else
      var tail := SortByCount(ws[1..], counts);
      assert ws == [ws[0]] + ws[1..];
      NoDupTail(ws);
      assert ws[0] in tail <==> ws[0] in multiset(ws[1..]);
      InsertByCount(ws[0], tail, counts)
  }

  /** The dictionary with its items re-ordered by descending count. */
  function SortCounter(c: Counter): (r: Counter)
    requires c.Valid()
    ensures r.Valid()
    ensures r.counts == c.counts
    ensures NonIncreasing(r.order, r.counts)
    ensures multiset(r.order) == multiset(c.order)
  {
    var r := Counter(SortByCount(c.order, c.counts), c.counts);
    assert forall w :: w in r.order <==> w in multiset(c.order);
    r
  }

  /** Position of `w` in `ws`, `|ws|` when absent. */
  function IndexOf<K(==)>(ws: seq<K>, w: K): (k: nat)
    ensures k <= |ws|
    ensures k < |ws| <==> w in ws
    ensures k < |ws| ==> ws[k] == w
  {
    if ws == [] then 0
    else if ws[0] == w then 0
    else 1 + IndexOf(ws[1..], w)
  }

  /** Sorting is stable: two keys with the same count keep the relative order
      they had before sorting. */
  lemma {:induction false} SortByCountStable<K>(ws: seq<K>, counts: map<K, nat>, i: nat, j: nat)
    requires NoDup(ws)
    requires i < j < |SortByCount(ws, counts)|
    requires Freq(counts, SortByCount(ws, counts)[i]) == Freq(counts, SortByCount(ws, counts)[j])
    ensures IndexOf(ws, SortByCount(ws, counts)[i]) < IndexOf(ws, SortByCount(ws, counts)[j])
    decreases |ws|
  {
    var tail := SortByCount(ws[1..], counts);
    var i', j' := SortedFromTail(ws, counts, i, j);
    if i' < 0 {
      HeadComesFirst(ws, SortByCount(ws, counts)[j]);
    } else {
      NoDupTail(ws);
      SortByCountStable(ws[1..], counts, i', j');
      TailKeepsOrder(ws, tail[i'], tail[j']);
    }
  }

  /** Locates the `i`-th and `j`-th keys of a sorted list in the sorted tail
      it was built from; `i' == -1` stands for the head key itself. */
  lemma SortedFromTail<K>(ws: seq<K>, counts: map<K, nat>, i: nat, j: nat) returns (i': int, j': nat)
    requires |ws| > 0
    requires i < j < |SortByCount(ws, counts)|
    requires Freq(counts, SortByCount(ws, counts)[i]) == Freq(counts, SortByCount(ws, counts)[j])
    ensures var r := SortByCount(ws, counts);
      var tail := SortByCount(ws[1..], counts);
      && -1 <= i' < j' < |tail|
      && r[j] == tail[j'] && r[j] in ws[1..]
      && (i' == -1 ==> r[i] == ws[0])
      && (i' >= 0 ==> r[i] == tail[i'] && r[i] in ws[1..])
  {
    var tail := SortByCount(ws[1..], counts);
    var p := SortUnfold(ws, counts);
    var r := SortByCount(ws, counts);
    i' := if i == p then -1 else if i < p then i else i - 1;
    assert j != p;
    j' := if j < p then j else j - 1;
    assert r[j] == tail[j'];
    assert r[j] in multiset(tail);
    if i' >= 0 {
      assert r[i] in multiset(tail);
    }
  }

  /** One step of the insertion sort, with the insertion point named. */
  lemma SortUnfold<K>(ws: seq<K>, counts: map<K, nat>) returns (p: nat)
    requires |ws| > 0
    ensures var tail := SortByCount(ws[1..], counts);
      var r := SortByCount(ws, counts);
      && p <= |tail| && |r| == |tail| + 1
      && multiset(tail) == multiset(ws[1..])
      && r[p] == ws[0]
      && (forall k :: 0 <= k < p ==> Freq(counts, r[k]) > Freq(counts, ws[0]))
      && (forall k :: 0 <= k < p ==> r[k] == tail[k])
      && (forall k :: p < k < |r| ==> r[k] == tail[k - 1])
  {
    var tail := SortByCount(ws[1..], counts);
    assert SortByCount(ws, counts) == InsertByCount(ws[0], tail, counts);
    p := InsertedAt(ws[0], tail, counts);
  }

  lemma InsertedAt<K>(w: K, ws: seq<K>, counts: map<K, nat>) returns (p: nat)
    requires NonIncreasing(ws, counts)
    ensures var r := InsertByCount(w, ws, counts);
      && p <= |ws| && |r| == |ws| + 1
      && r[p] == w
      && (forall k :: 0 <= k < p ==> Freq(counts, r[k]) > Freq(counts, w))
      && (forall k :: 0 <= k < p ==> r[k] == ws[k])
      && (forall k :: p < k < |r| ==> r[k] == ws[k - 1])
  {
    p := InsertPos(w, ws, counts);
    InsertAtShape(w, ws, p);
  }

  lemma HeadComesFirst<K>(ws: seq<K>, b: K)
    requires |ws| > 0 && b in ws[1..] && b != ws[0]
    ensures IndexOf(ws, ws[0]) < IndexOf(ws, b)
  {
  }

  lemma TailKeepsOrder<K>(ws: seq<K>, a: K, b: K)
    requires |ws| > 0 && a in ws[1..] && b in ws[1..]
    requires ws[0] !in ws[1..]
    requires IndexOf(ws[1..], a) < IndexOf(ws[1..], b)
    ensures IndexOf(ws, a) < IndexOf(ws, b)
  {
    assert a != ws[0] && b != ws[0];
  }

  /** A distinct list has as many elements as the set of its elements. */
  lemma {:induction false} NoDupCardinality<K>(xs: seq<K>)
    requires NoDup(xs)
    ensures |set x | x in xs| == |xs|
  {
    if xs != [] {
      NoDupTail(xs);
      NoDupCardinality(xs[1..]);
      assert (set x | x in xs) == {xs[0]} + (set x | x in xs[1..]);
    }
  }

  /** Cutting a list sorted by descending count after `n` keys leaves out
      only keys whose count is at most that of every kept key. */
  lemma TakeOfSorted<K>(xs: seq<K>, counts: map<K, nat>, n: nat, w: K)
    requires NonIncreasing(xs, counts)
    requires w in xs && w !in Take(xs, n)
    ensures |Take(xs, n)| == n < |xs|
    ensures forall v :: v in Take(xs, n) ==> Freq(counts, v) >= Freq(counts, w)
  {
    var r := Take(xs, n);
    var k :| 0 <= k < |xs| && xs[k] == w;
    assert k >= |r|;
    forall v | v in r
      ensures Freq(counts, v) >= Freq(counts, w)
    {
      var i :| 0 <= i < |r| && r[i] == v;
      assert xs[i] == v;
    }
  }

  /** Filtering keeps a list free of duplicates. */
  lemma {:induction false} FilterPrefixNoDup(words: seq<string>, p: string)
    requires NoDup(words)
    ensures NoDup(FilterPrefix(words, p))
  {
    if words != [] {
      NoDupTail(words);
      FilterPrefixNoDup(words[1..], p);
      FilterPrefixMembers(words[1..], p);
    }
  }

  /** The selection step of the prefix completer: from the candidates
      ranked by descending count keep all of them or the first `n`. Nothing is
      duplicated, and a candidate is left out only when the cut at `n` was
      reached and every kept key is at least as frequent. */
  lemma RankedSelection<K>(ranked: seq<K>, counts: map<K, nat>, n: nat, all: bool)
    requires NoDup(ranked) && NonIncreasing(ranked, counts)
    ensures var r := if all then ranked else Take(ranked, n);
      && (forall w :: w in r ==> w in ranked)
      && NoDup(r)
      && NonIncreasing(r, counts)
      && (forall w :: w in ranked && w !in r ==>
            && !all
            && |r| == n
            && forall v :: v in r ==> Freq(counts, v) >= Freq(counts, w))
  {
    var r := if all then ranked else Take(ranked, n);
    forall w | w in r
      ensures w in ranked
    {
      var i :| 0 <= i < |r| && r[i] == w;
      assert ranked[i] == w;
    }
    forall w | w in ranked && w !in r
      ensures !all && |r| == n && forall v :: v in r ==> Freq(counts, v) >= Freq(counts, w)
    {
      TakeOfSorted(ranked, counts, n, w);
    }
  }

  lemma RankedMembers<K>(cands: seq<K>, counts: map<K, nat>)
    ensures forall w :: w in SortByCount(cands, counts) <==> w in cands
  {
    var ranked := SortByCount(cands, counts);
    assert forall w :: w in ranked <==> w in multiset(ranked);
    assert forall w :: w in cands <==> w in multiset(cands);
  }
}
