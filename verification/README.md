# Query autocomplete: a Dafny model

This project models the `AutocompleteQuery` engine of `query_autocomplete.py`,
an n-gram query-completion engine trained on a list of sentences. It has six parts:

- **Vocabulary** (`create_wrd_dist`): counts every token recognized as an
  English word, keyed by its lower-case form.
- **N-gram tables** (`create_ngram_dict`, `sort_ngram_dict`): for each order 2, 3 and 4,
  a table maps each context of `k - 1` tokens to the counts of the words that followed it.
  The table is built from a sliding window over each lower-cased sentence, and each
  successor list is then sorted by descending count.
- **Prefix completer** (`possible_words`): the vocabulary words starting with a
  lower-cased prefix, most frequent first. It returns the first `n`, or all of them.
- **Next-word predictor** (`predict_next_word`): strict backoff from quadgram to trigram
  to bigram. The highest order whose context is present answers with the head of its
  successor list.
- **Last-word completer** (`complete_last_word`): the same backoff over the tokens
  before the partial last word. Each level's successors are filtered by the partial
  word, and the first non-empty level wins. When no level yields anything, the prefix
  completer answers.
- **Query expander** (`autocomplete_query`): a first batch of suggestions for the
  query, then `levels - 1` further generations. Each generation extends every
  suggestion of the previous one by each predicted next word.

Modules, in dependency order:

- `Text` (`text.dfy`): character classes, ASCII `lower`/`title`, `startswith`, the
  whitespace tokenizer, the prefix filter and `xs[:n]`.
- `Counters` (`counter.dfy`): an insertion-ordered word-to-count dictionary, and the
  stable sort by descending count that Python's `sorted(..., reverse=True)` performs.
- `Vocabulary` (`vocabulary.dfy`): the vocabulary builder and the prefix completer.
- `NGrams` (`ngrams.dfy`): the table builder and its reference window counts.
- `Predictor` (`predictor.dfy`): the model record, the next-word predictor and the
  last-word completer.
- `Expander` (`expander.dfy`): seeds, generations and the `AutocompleteQuery` method
  with the source's nested loops.

A Python `dict` from word to count is modelled as `Counter(order, counts)`. `order` is
the key sequence in insertion order, which is the order Python iterates it in, and
`counts` is the map. A sorted dictionary is the same `counts` with `order` permuted.

Two behaviours of the code are worth stating:

- **Ties in the ranking.** Ties keep first-seen order, because Python's `sorted` is
  stable, and the model sorts stably (`Counters.SortByCountStable`).
- **Queries ending in a space.** Only a trailing `' '` counts as ending in a space
  (`sentence.endswith(' ')`, line 379), as in `Text.EndsWithSpace`. A trailing tab or
  newline does not (`Expander.SeedCutsTrailingWhitespace`).

## Model

| member | source | states |
|---|---|---|
| Text.TokensAreWords | query_autocomplete.py:260 | Every token the tokenizer yields is non-empty and contains no whitespace. |
| Text.FilterPrefixMembers | query_autocomplete.py:307-310 | The filter keeps exactly the words that start with the prefix. |
| Text.FilterPrefixAppend | query_autocomplete.py:307-310 | The filter keeps the order of its input: filtering a concatenation concatenates the filtered parts. |
| Text.Take | query_autocomplete.py:94 | `xs[:n]` for `n >= 0`: a prefix of `xs` of length `min(n, len(xs))`. |
| Counters.SortByCount | query_autocomplete.py:112 | The sorted keys are a permutation of the input, in non-increasing count order, with no duplicates when the input has none. |
| Counters.SortByCountStable | query_autocomplete.py:112 | The sort is stable: two keys with equal counts keep their input order. |
| Counters.SortCounter | query_autocomplete.py:112 | Re-ordering a dictionary by count keeps it a valid dictionary with the same counts; only the iteration order changes, and it becomes non-increasing. |
| Counters.RankedSelection | query_autocomplete.py:92-97 | Cutting a ranked, duplicate-free list at `n` (or not at all) keeps it ranked and duplicate-free. A candidate is left out only when the cut applied, `n` words were kept, and every kept word is at least as frequent. |
| Vocabulary.AddTokens | query_autocomplete.py:54-61 | One sentence's pass: each recognized token adds one to the count of its lower-case form; other counts are unchanged. |
| Counters.Counter.Add | query_autocomplete.py:58-61 | `d[w] += 1`, or `d[w] = 1` for a new key: only `w`'s count grows, by one. A new key is appended to the iteration order; a known key leaves the order unchanged. |
| Vocabulary.AddSentences | query_autocomplete.py:51-61 | The pass over all sentences adds, to every word, the reference count of its recognized occurrences. |
| Vocabulary.BuildVocabulary | query_autocomplete.py:41-61 | Every key is a lower-case token, and its count equals the number of recognized tokens of the corpus that lower-case to it. Words with no such token are absent, and present counts are at least 1. |
| Vocabulary.VocabularyWordHasSource | query_autocomplete.py:51-61 | Every vocabulary word is the lower-case form of a recognized token of some training sentence. |
| Vocabulary.RankedMatching | query_autocomplete.py:75-90 | The ranked candidates are exactly the vocabulary words starting with the prefix, each once, in non-increasing count order. |
| Vocabulary.PossibleWords | query_autocomplete.py:65-99 | Only words starting with the lower-cased prefix, no duplicates, non-increasing frequency, at most `n` without `return_all`. A match is left out only when `n` words were returned and each is at least as frequent. |
| Vocabulary.PossibleWordsCount | query_autocomplete.py:92-94 | Without `return_all` the result has exactly `min(n, number of matches)` words. |
| Vocabulary.PossibleWordsAll | query_autocomplete.py:95-97 | With `return_all` every match is returned; the empty prefix returns the whole vocabulary. |
| NGrams.SentenceTokens | query_autocomplete.py:131 | The tokens of a lower-cased sentence are lower-case, whitespace-free, non-empty words. |
| NGrams.AddWindow | query_autocomplete.py:133-140 | Counting one window adds one to `table[context][target]` and creates the context if new. Every other context keeps its entry. A new successor is appended last; a known one keeps the successor order. |
| NGrams.AddWindows | query_autocomplete.py:131-140 | One sentence's windows add their reference window counts; a context is present iff it was, or some window of the sentence has it. |
| NGrams.AddCorpus | query_autocomplete.py:128-140 | The same over every sentence, against the corpus-wide reference counts. |
| NGrams.SortTable | query_autocomplete.py:102-114 | Sorting keeps the contexts and every count, permutes each successor list, and leaves each list in non-increasing count order. |
| NGrams.BuildTable | query_autocomplete.py:127-193 | `table[ctx][w]` is the number of `k`-token windows with context `ctx` and last token `w`. A context is present iff some window has it. Each successor list is a permutation of the counted successors in non-increasing count order. |
| NGrams.BuildTableLexical | query_autocomplete.py:131 | Every context token and every successor of a built table is a token of lower-cased text. |
| Predictor.BuildModel | query_autocomplete.py:22-33 | The constructor's tables: a valid lower-case vocabulary with the reference counts, and three sorted, lower-case n-gram tables with the reference window counts. |
| Predictor.PredictNext | query_autocomplete.py:251-283 | At most `n` words, and `[]` when no order's context is present. |
| Predictor.PredictNextTopMatch | query_autocomplete.py:262-281 | When order `k` is the highest whose context is present, the result is exactly the first `min(n, len)` successors of that context. |
| Predictor.PredictNextIgnoresLowerOrders | query_autocomplete.py:262-274 | Strict backoff: once order `k` matches, replacing the lower-order tables does not change the prediction, even when fewer than `n` words come back. |
| Predictor.PredictNextSkipsShortContext | query_autocomplete.py:262-276 | An order whose context is longer than the token list is skipped: its table can be anything. |
| Predictor.SuccessorWords | query_autocomplete.py:265 | A successor list of a built model holds distinct lower-case tokens. |
| Predictor.PredictNextWords | query_autocomplete.py:265-279 | Predictions of a built model are distinct lower-case tokens. |
| Predictor.LevelCompletionsFiltered | query_autocomplete.py:304-312 | A level's completions are the first `min(n, len)` entries of its successor list filtered by the partial word, in table order, and each starts with it. |
| Predictor.CascadeShape | query_autocomplete.py:300-350 | The cascade returns at most `n` words when the fallback has at most `n`, and it returns the fallback when every level is empty. |
| Predictor.CascadeFirstNonEmpty | query_autocomplete.py:300-347 | The highest level with a non-empty filtered result is the answer. |
| Predictor.CascadeMember | query_autocomplete.py:300-350 | Every word the cascade returns comes from one of the three levels or from the fallback. |
| Predictor.CascadeIgnoresLowerOrders | query_autocomplete.py:313-347 | Once a level yields completions, the lower levels are never tried. |
| Predictor.CompleteLastWord | query_autocomplete.py:286-350 | At most `n` words. When every level is absent or filters to nothing, the result is `possible_words(last_word, n, False)`. |
| Predictor.CompleteLastWordFirstNonEmpty | query_autocomplete.py:296-347 | The first level, from the highest, with a non-empty filtered result provides the completions. |
| Predictor.CompleteLastWordIgnoresLowerOrders | query_autocomplete.py:300-347 | Replacing the tables below the winning level does not change the completions. |
| Predictor.CompletionsExtendLastWord | query_autocomplete.py:307-350 | Every completion starts with the partial last word, or with its lower-case form when it comes from the vocabulary; for a lower-case sentence, with the word itself. |
| Expander.TokenLength | query_autocomplete.py:402 | No token is longer than its text, so `sentence[:-len(last)]` cuts within the query. |
| Expander.Seeds | query_autocomplete.py:379-402 | The first batch has at most `branches` suggestions. |
| Expander.SeedsAfterSpace | query_autocomplete.py:379-384 | After a trailing space, each seed is `sentence + w` for a predicted `w`, and tokenizes as the query's tokens plus `w`. |
| Expander.SeedsAfterKnownWord | query_autocomplete.py:390-395 | When the last token is a vocabulary word, each seed is `sentence + " " + w` and tokenizes as the query's tokens plus `w`. |
| Expander.SeedsCompleteLastWord | query_autocomplete.py:398-402 | Otherwise each seed is the query with its last token replaced by a completion that extends that token. |
| Expander.SeedCutsTrailingWhitespace | query_autocomplete.py:379-402 | When a partial word `w` is followed by a tab, newline or CR, the query is not treated as ending in a space, and `sentence[:-len(w)]` keeps `w`'s first letter: each completion is attached to `pre + w[0]`, not to `pre`. |
| Expander.CompletionIsWord | query_autocomplete.py:400-402 | Every completion of a built model is a whitespace-free, non-empty word. |
| Expander.ChildrenCount | query_autocomplete.py:411-413 | A parent spawns at most `branches` suggestions, since the predictor returns at most that many words. |
| Expander.ChildrenMembers | query_autocomplete.py:411-413 | A parent's children are exactly `parent + " " + w` for its predicted words `w`. |
| Expander.AttachMember | query_autocomplete.py:412-413 | The words `prefix + w` built from a list are exactly the extensions of its members. |
| Expander.ChildTokens | query_autocomplete.py:413 | A child has its parent's tokens plus exactly one predicted token. |
| Expander.SpawnAppend | query_autocomplete.py:410-413 | Parent-major order: the next generation of a concatenated batch is the concatenation of the next generations. |
| Expander.SpawnMember | query_autocomplete.py:410-413 | The next generation holds exactly the children of the batch's members. |
| Expander.SpawnBound | query_autocomplete.py:410-413 | A generation has at most `branches` items per parent. |
| Expander.GenBound | query_autocomplete.py:405-416 | Counting the seeds as generation 0, generation `g` has at most `branches^(g+1)` items. |
| Expander.GenerationBound | query_autocomplete.py:379-416 | For the query's own seeds, generation `g` has at most `branches^(g+1)` suggestions. |
| Expander.GenMembers | query_autocomplete.py:405-416 | Every item of a later generation is `parent + " " + w` for a parent in the previous generation and a predicted `w`, and every such extension is present. |
| Expander.ExpansionLayout | query_autocomplete.py:404-419 | The output is generation 0 (the seeds) followed by each later generation in order; generation `g` sits right after generations `0 .. g-1`. |
| Expander.NoBranches | query_autocomplete.py:379-419 | With zero branches every generation is empty, so the output is empty. |
| Expander.ExtendAll | query_autocomplete.py:412-413 | The innermost loop appends `prefix + w` for each word, in order. |
| Expander.NextBatch | query_autocomplete.py:409-413 | One round of the level loop produces the next generation in parent-major order. |
| Expander.Generations | query_autocomplete.py:405-416 | The level loop returns exactly `levels` generations, the seeds first. |
| Expander.AutocompleteQuery | query_autocomplete.py:353-419 | `[]` when `levels <= 0`, whatever the query. Otherwise the seeds of the lower-cased query followed by `levels - 1` generations. |

## Left out

- `api.py`: the HTTP service only forwards requests to `autocomplete_query`.
- `save_dicts` and `load_dicts` (query_autocomplete.py:199-248), and the constructor's
  loading branch: these are file and pickle I/O.
- Logging calls, and the unused `pandas` and `math` imports.
- `nltk.word_tokenize` is foreign library code. It is replaced by a whitespace
  tokenizer over space, tab, LF and CR that is the same at build and query time, so
  punctuation splitting and contraction handling are not modelled.
- `nltk.util.ngrams` is replaced by explicit sliding-window reference counts.
- `english_words_set` is foreign data. It becomes a `set<string>` parameter, looked up with
  the title-case and lower-case forms as the source does.
- Case mapping covers ASCII letters only; Unicode `lower()` and `title()` are not
  modelled.
- Negative counts: `branches` and `psbl_wrd_cnt` are `nat`. Python's `xs[:n]` with
  `n < 0` drops elements from the end, which the model does not cover. `levels` stays
  an `int`, as the source tests `levels <= 0`.
- `sort_ngram_dict` is defined without `self` but called as a bare name (lines 102, 143,
  167 and 191), which would raise `NameError`. The model sorts as evidently intended.
- Bigram table keys are single strings in the source. The model uses one-token
  sequences so that all three orders share one table type.
- An empty token list is a precondition, not an error result. The source indexes the
  last token (lines 297 and 390) and raises `IndexError` there:
  - `CompleteLastWord` requires at least one token;
  - `AutocompleteQuery` requires at least one token when `levels > 0` and the
    lower-cased query does not end in a space.
- The local `psbl_wrds_cnt` (line 92) is computed and never used, so it is not modelled.
- Expander.SeedsCompleteLastWord: states the seed shape only when the query's last
  character is not whitespace. For a query ending in a tab or newline, the source cuts
  `len(last token)` characters from the end, and those are not the token. `Seeds`
  models that cut as written, and `SeedCutsTrailingWhitespace` states its result.
- Predictor.PredictNext: its own contract gives only the length bound and the no-match
  case. The backoff choice is stated by `PredictNextTopMatch` and the two
  `IgnoresLowerOrders` / `SkipsShortContext` lemmas.
- Expander.Seeds: its own contract gives only the length bound. The three seed shapes
  are the three `Seeds...` lemmas, which assume a built model.
