# Trigram fuzzy matching: a verified model

This project models the matching engine of `trigrams.py`, a small service
that does fuzzy name search over a `teams` table. Each row stores its name
and a `grams` column, which holds the row's character trigrams. A
changefeed webhook keeps `grams` up to date. A search endpoint ranks rows
by how many trigrams they share with the query.

The model has five modules:

- `Schema` (`schema.dfy`): the table as a value, `map<Id, Row>`. A row is
  its name plus the nullable `grams` column. The only writer of `grams`
  stores the duplicate-free list that `tokenize` returns, so the column is
  a `set<string>`, and its `ARRAY_LENGTH` is the set's cardinality.
- `Text` (`text.dfy`): what `tokenize` does before windowing. It applies
  ASCII `str.lower()`, then `re.sub(r"[\W_]+", " ", ...)`, which turns each
  maximal run of characters other than letters and digits into one space.
- `NGrams` (`ngrams.dfy`): `get_ngrams` as the set of distinct
  `n`-character windows, and `tokenize` as the trigrams of the normalised
  string.
- `Ranking` (`ranking.dfy`): the SQL of `do_search` as pure functions over
  a table snapshot. It defines the overlap candidates, `delta`, the
  deduplicated shared count `n`, the score `100*n/delta/len(q)`, and
  `ORDER BY score DESC LIMIT limit`. The ranking is specified by a
  predicate, `IsRanking`, because SQL fixes no order among equal scores.
- `Cdc` (`cdc.dfy`): the webhook. A class `Teams` holds the table in a
  field. `IndexString` overwrites one row's grams. `CdcWebhook` loops over
  the payload. Both are proved against the functions `IndexRow` and
  `ApplyPayload`, and lemmas state what those functions promise.

Scores are exact rationals (`real`). A search hit scores in `(0, 100]`,
because `n` never exceeds the query's trigram count and `delta >= 1`.
Points where the code behaves differently from what one might expect:

- The score can never exceed 100. The model follows the code.
- `tokenize` deduplicates, loses window order and collapses separators.
  It does more than case folding. The model follows the code.
- A change entry with no `after` image does nothing in the code. No
  posting is removed. The model follows the code.
- Ties come back in an unspecified order, not a stable one. The model
  allows any order among equal scores.

## Model

| member | source | states |
|---|---|---|
| `Text.Lower` | trigrams.py:123 | `s.lower()` on ASCII: same length, no upper-case letter left, letters and digits stay letters and digits, every character that is not upper case is unchanged, and each upper-case letter becomes the letter 32 code points above it, its lower-case form |
| `Text.LowerIdempotent` | trigrams.py:123 | lower-casing an already lower-cased string changes nothing |
| `Text.Collapse` | trigrams.py:123 | `re.sub(r"[\W_]+", " ", s)`: the result holds only letters, digits and spaces, never two spaces side by side, is no longer than the input and is empty only for empty input |
| `Text.CollapseRun` | trigrams.py:123 | each maximal run of separators becomes exactly one space: a non-empty separator run between a word character (or the start) and a word character (or the end) turns into a single `" "`, and the text on each side is collapsed on its own |
| `Text.CollapseExample` | trigrams.py:123 | the substitution turns `a..b` into `a b` |
| `Text.CollapseKeepsCase` | trigrams.py:123 | the substitution only inserts spaces, so a string without upper case stays without upper case |
| `Text.CollapseKeepsWords` | trigrams.py:123 | the substitution keeps every letter and digit, in order, and adds none |
| `Text.CollapseFixesCollapsed` | trigrams.py:123 | a string of letters, digits and single spaces is left unchanged |
| `Text.CollapseFixedPoints` | trigrams.py:123 | the substitution leaves a string unchanged exactly when it holds only letters, digits and single spaces |
| `Text.CollapseIdempotent` | trigrams.py:123 | applying the substitution twice gives what applying it once gives |
| `Text.Normalise` | trigrams.py:123 | the string `tokenize` windows has no upper case, no `_`, no punctuation, no double space, and the same letters and digits as the lower-cased input |
| `Text.NormaliseRun` | trigrams.py:123 | in the string `tokenize` windows, too, each maximal separator run becomes exactly one space, and each side is normalised on its own |
| `Text.NormaliseIgnoresCase` | trigrams.py:123 | lower-casing the input first does not change the normalised string |
| `NGrams.GetNGrams` | trigrams.py:118-119 | every element has length `n` and is a window `s[i:i+n]` with `0 <= i <= len(s)-n`; every such window is an element; there are at most `max(0, len(s)-n+1)` of them, since duplicates are dropped |
| `NGrams.NoNGramsIffShort` | trigrams.py:119 | the n-gram collection is empty exactly when `len(s) < n`, which includes the empty string; a negative range is empty, not an error |
| `NGrams.Tokenize` | trigrams.py:121-125 | the tokens are exactly the trigram windows of the lower-cased, separator-collapsed string |
| `NGrams.TokenShape` | trigrams.py:119-125 | every token has length 3 and holds only lower-case letters, digits and spaces, with no two adjacent spaces |
| `NGrams.TokenizeIgnoresCase` | trigrams.py:123 | two strings that are equal after lower-casing have the same tokens |
| `NGrams.TokenizeOfLower` | trigrams.py:123 | tokenizing a lower-cased string gives the same tokens as tokenizing the original |
| `Ranking.Overlaps` | trigrams.py:154 | `grams && q` holds exactly when `grams` is not NULL and some trigram of the query is in it |
| `Ranking.Candidates` | trigrams.py:150-155 | a row is a candidate exactly when its `grams` is not NULL and shares a trigram with the query (`grams && q`) |
| `Ranking.Postings` | trigrams.py:28 | the GIN index entry of a trigram is exactly the set of rows whose `grams` contain it |
| `Ranking.CandidatesFromPostings` | trigrams.py:28 | looking up the query's trigrams in the GIN index finds exactly the overlap candidates |
| `Ranking.Delta` | trigrams.py:152 | `delta = 1 + abs(len(grams) - len(q))` is at least 1, and is exactly 1 when the two lengths are equal |
| `Ranking.Shared` | trigrams.py:157-164 | the deduplicated shared count `n` is at most `len(q)` and at most `len(grams)`, and equals `len(q)` exactly when every query trigram is in `grams` |
| `Ranking.ScoreFraction` | trigrams.py:165 | the final score `(100*n/delta)/len(q)` equals `100 * n / (delta * len(q))` |
| `Ranking.Score` | trigrams.py:165-176 | the score `100*n/delta/len(q)` lies in `[0, 100]`, and is positive exactly when the row shares a trigram with the query, so a candidate scores in `(0, 100]` |
| `Ranking.ScoreIs100Iff` | trigrams.py:152-176 | the score is exactly 100 if and only if the row's trigram set equals the query's |
| `Ranking.ScoreScaled` | trigrams.py:176 | the score is `n/delta` scaled by the positive weight `100/len(q)` |
| `Ranking.ScoreOrder` | trigrams.py:165-176 | for one query, one row scores at most another exactly when its `n/delta` is at most the other's, so ranking by score is ranking by `n/delta` |
| `Ranking.HitOf` | trigrams.py:165-178 | a response row carries the candidate's key, its name and a score in `(0, 100]` |
| `Ranking.BestExists` | trigrams.py:168 | a non-empty candidate set has a row whose score no other candidate exceeds |
| `Ranking.TopK` | trigrams.py:168-169 | `ORDER BY score DESC LIMIT limit`: distinct candidates with their own scores, non-increasing, `min(limit, #candidates)` of them, and no omitted candidate scores above a returned one |
| `Ranking.RankingCons` | trigrams.py:168-169 | a best-scoring candidate followed by a ranking of the remaining candidates is a ranking of all of them |
| `Ranking.Search` | trigrams.py:144-176 | `do_search` returns a ranking of the rows that overlap the query's trigrams, as `TopK` states |
| `Ranking.SearchHitsOverlap` | trigrams.py:147-176 | every returned row has non-NULL `grams` sharing at least one trigram with the query, and scores in `(0, 100]` |
| `Ranking.SearchEmptyQuery` | trigrams.py:147-176 | a query with no trigrams returns no rows, so the division by `len(ng)` is never reached |
| `Ranking.ExactMatchScoresTop` | trigrams.py:149-176 | when some row's trigrams equal the query's and `limit >= 1`, the first hit scores exactly 100 |
| `Cdc.IndexRow` | trigrams.py:127-130 | `UPDATE teams SET grams = tokenize(content) WHERE id = pk`: if the row exists, only its grams change; no other row changes; a missing row stays missing |
| `Cdc.ApplyEntry` | trigrams.py:187-192 | one payload entry never adds or removes a row |
| `Cdc.ApplyPayload` | trigrams.py:186-192 | a whole payload never adds or removes a row |
| `Cdc.LastName` | trigrams.py:186-192 | there is a last name for an id exactly when some entry with an `after` image names that id |
| `Cdc.ApplyPayloadPointwise` | trigrams.py:186-192 | after a payload, each row keeps its name, and its grams are the tokens of the last name the payload gives for it; a row no entry names is unchanged |
| `Cdc.ApplyPayloadIdempotent` | trigrams.py:186-192 | applying the same payload twice gives the same table as applying it once |
| `Cdc.DeletesChangeNothing` | trigrams.py:187-188 | entries with `after == None` change no row |
| `Cdc.PayloadFrame` | trigrams.py:186-192 | a payload never changes a row's name, and a row that no entry names is left exactly as it was |
| `Cdc.EntrySyncsRow` | trigrams.py:127-130 | an entry that carries a row's current name leaves that row's grams equal to the tokens of its name |
| `Cdc.Teams.IndexString` | trigrams.py:127-130 | the stored table becomes `IndexRow` of the old table |
| `Cdc.Teams.CdcWebhook` | trigrams.py:182-193 | the loop over the payload leaves the stored table equal to `ApplyPayload` of the old table |

## Left out

- `run_statement`: connections, the retry loop with randomised back-off and `time.sleep`, error classification and follower reads. This is I/O plumbing. Every statement is modelled as succeeding once.
- Module-level configuration: environment variables, connection-string rewriting, engine and Flask app creation. These are I/O.
- `decode`: base64 decoding, UTF-8 decoding and `.strip()` of the query. The model takes the decoded query string as input.
- Flask routing, `request.get_json`, JSON encoding, `Response` and logging. Payload entries are assumed well formed: a missing `after`, `id` or `name` key (a `KeyError` in Python) is not modelled.
- The `float(...)` conversion and the `'{:.4f}'` formatting of scores. Scores stay exact rationals, and CockroachDB's DECIMAL precision is not modelled.
- Unicode behaviour of `str.lower()` and `\W`. Only ASCII letters and digits are word characters, and every other character counts as a separator, as with `re.ASCII`.
- `ARRAY_LENGTH` returning NULL for an empty array. A candidate always has non-empty `grams` and a non-empty query, so this never arises for a scored row.
- The physical order of tied scores. `Ranking.Search` is a ghost function that picks some best candidate at each step, and `IsRanking` allows any order among ties.
- The order of the list `get_ngrams` returns. It comes out of a Python `set`, so the model keeps a set.
- The GIN index internals. `Ranking.Postings` gives only what an index lookup must return.
- Server concurrency (`threaded=True`), the DDL and the changefeed setup.
- `pretty_print_json.py`: a JSON pretty-printer with no logic of its own.
