# Blog keyword graph: link generation and text flattening

This project models the two data-preparation scripts behind a blog's keyword graph:

- **Link generation** (`build_links` in `python/generate_links.py`). It takes the list of blog posts and scores every unordered pair.
  - A pair scores 5 when the two `main_keyword` values are equal. Two posts that both lack one also count as equal.
  - It scores one more for each distinct keyword the two posts share.
  - Every pair with a positive score becomes a link `{source, target, weight}`. These links make up `links.json`, which the graph viewer lays out with link distance `100 / weight`.
- **Text flattening** (line 20 of `python/convert_text.py`). It rewrites every CRLF and every LF of an article as the two characters `\` and `n`, first CRLF and then LF, so that the article fits on one line. A CR that is not followed by LF is left in place.

Files:

- `wrappers.dfy`: `Option`, the value `dict.get` returns.
- `generate_links.dfy`, module `GenerateLinks`:
  - the post and link datatypes and the scoring rule;
  - `ScorePair`, the body of the inner loop;
  - `BuildLinks`, the two nested loops, with ghost state that records the pairs kept so far.
  - The loops are proved against `LinkedPairs`, a function that lists the kept index pairs in the order the loops visit them. `Emitted(n, linked, i, j)` is the list of pairs kept before the loops reach `(i, j)`. It is defined for any test `linked`, so its soundness, completeness, order and size are proved once, apart from the scoring rule.
- `convert_text.dfy`, module `ConvertText`:
  - `Replace` is Python's `str.replace`: left to right, with non-overlapping matches.
  - `SingleLine` is the chained call on line 20.
  - `EscapeNewlines` is an independent single left-to-right pass that turns a CRLF or an LF into one escape. It is proved equal to `SingleLine`, and the properties of line 20 are then proved through it.

Two notes on how the model reads the source:

- Python opens the input file in text mode, and text mode already turns CRLF and lone CR into LF. So in the running script the first `replace` on line 20 never finds a CRLF. The model applies line 20 to any string, with CR characters included, which is what the comment on lines 18-19 describes.
- `ScorePair` is lines 10-20 of the inner loop body, split out as a method of its own. `BuildLinks` calls it where the source computes `weight` inline. Nothing else about the loop changes.

## Model

| member | source | states |
|---|---|---|
| GenerateLinks.Weight | python/generate_links.py:10-20 | a score is at most 5 plus the length of either post's keyword list |
| GenerateLinks.ScorePair | python/generate_links.py:10-20 | the weight is 5 when the main keywords compare equal, plus the number of distinct keywords the two posts share |
| GenerateLinks.WeightPositiveIff | python/generate_links.py:10-22 | a pair scores above zero exactly when its main keywords are equal or the posts share at least one keyword |
| GenerateLinks.WeightSymmetric | python/generate_links.py:13-20 | the score does not depend on which post is the source |
| GenerateLinks.MissingMainKeywordsMatch | python/generate_links.py:13-14 | two posts that both lack `main_keyword` compare equal and gain the 5 |
| GenerateLinks.KeywordSetDeterminesWeight | python/generate_links.py:17-20 | two posts with the same main keyword and the same set of keywords score the same against every post, whatever the order or repetition of their keywords |
| GenerateLinks.RepeatedKeywordCountsOnce | python/generate_links.py:17-19 | repeating a keyword a post already has leaves every score unchanged, because the keyword lists are made into sets |
| GenerateLinks.EmittedSound | python/generate_links.py:6-7 | every pair kept before `(i, j)` satisfies p.0 < p.1 < n, passes the test, and comes before `(i, j)` in loop order |
| GenerateLinks.EmittedComplete | python/generate_links.py:6-7 | every pair p.0 < p.1 < n that passes the test and comes before `(i, j)` has been kept |
| GenerateLinks.EmittedOrdered | python/generate_links.py:6-7 | the kept pairs are in strictly increasing lexicographic order |
| GenerateLinks.EmittedCount | python/generate_links.py:6-7 | no more pairs are kept than the loops have visited |
| GenerateLinks.BuildLinks | python/generate_links.py:4-28 | the returned list is exactly the link of each kept pair, in visiting order, and every link's weight is positive |
| GenerateLinks.LinkedPairsSound | python/generate_links.py:6-22 | every link joins a post i to a later post j, by index, with positive weight; there are no self-links |
| GenerateLinks.LinkedPairsMembership | python/generate_links.py:6-22 | a pair (i, j) is linked if and only if i < j < n and its weight is positive, so no scoring pair is lost |
| GenerateLinks.LinkedPairsOrdered | python/generate_links.py:6-7 | links come in lexicographic (i, j) order, so no pair is linked twice |
| GenerateLinks.LinkCountBound | python/generate_links.py:6-7 | n posts give at most n(n-1)/2 links |
| GenerateLinks.LinkAt | python/generate_links.py:22-27 | the k-th link carries the ids of posts i and j as source and target, and its weight is the bonus plus the shared-keyword count, which is positive |
| ConvertText.Replace | python/convert_text.py:20 | `str.replace` with a replacement as long as its pattern, as in the first call, keeps the length of the text |
| ConvertText.ReplaceWithoutOccurrence | python/convert_text.py:20 | where the pattern occurs nowhere, `replace` returns the text unchanged |
| ConvertText.SingleLine | python/convert_text.py:18-20 | the result of line 20 contains no LF (a CR not followed by LF is kept, see `LoneCrKept`) |
| ConvertText.CrFreeGivesSingleLine | python/convert_text.py:5-7 | on text without CR, the result contains neither LF nor CR, so it is the single line the docstring promises |
| ConvertText.SingleLineIsEscape | python/convert_text.py:18-20 | the two chained replacements equal one pass that turns each CRLF or LF into one escape |
| ConvertText.LineFeedFreeUnchanged | python/convert_text.py:20 | a text with no LF comes back unchanged |
| ConvertText.SingleLineIdempotent | python/convert_text.py:20 | flattening an already flattened text changes nothing |
| ConvertText.SingleLineConcat | python/convert_text.py:20 | flattening two texts joined is flattening each, unless a CR ends the first and an LF starts the second |
| ConvertText.CrlfBecomesOneEscape | python/convert_text.py:18-20 | a CRLF anywhere becomes exactly one escape, not two |
| ConvertText.LfBecomesOneEscape | python/convert_text.py:18-20 | an LF not preceded by CR becomes one escape |
| ConvertText.LoneCrKept | python/convert_text.py:20 | a CR not followed by LF is kept as it is |
| ConvertText.OtherCharKept | python/convert_text.py:20 | every character other than CR and LF is kept as it is |
| ConvertText.SingleLineLength | python/convert_text.py:20 | the result is as long as the input plus its LF count minus its CRLF count, that is, one longer per LF not preceded by CR |

## Left out

- The I/O around the two cores is not modelled:
  - `main` of python/generate_links.py (lines 30-49): command-line arguments, the usage message and `sys.exit`, `json.load` and `json.dump`, reading and writing files, and the printed count.
  - The rest of `convert_multiline_to_singleline` in python/convert_text.py (lines 13-17 and 22-31): opening and reading the input, writing the output, the success message, and the `FileNotFoundError` and catch-all handlers.
  - `main` of python/convert_text.py (lines 33-48): command-line arguments, the usage message and `sys.exit`.
- The UTF-8 decoding and the text-mode newline translation done when the file is opened are not modelled. `SingleLine` takes the decoded text as a sequence of characters.
- ConvertText.SingleLine: on arbitrary text it promises no LF only, and keeps a CR that is not followed by LF. The docstring's promise of a single line, converting "all newline characters", also depends on the text-mode read, which turns every CR into LF before line 20 runs. `CrFreeGivesSingleLine` states the promise for the CR-free text that read produces.
- GenerateLinks.BlogNode: posts are modelled with a string `id`, an optional string `main_keyword` and a list of string keywords.
  - A post without `"id"` is not modelled, because the model requires an `id`. The source accepts such a post: it raises `KeyError` only when the post is in a pair with positive weight (line 24 as the source, line 25 as the target). A post without `"id"` that scores with no other post never reaches those lines and just does not show up in the output.
  - A `keyword` that is `null`, which raises `TypeError` in `set`, is not modelled.
  - A `keyword` that is a single string, which Python makes into a set of characters, is not modelled.
  - JSON values of other types are not modelled.
- ConvertText.Replace: requires a non-empty pattern. Python's empty-pattern case, which inserts the replacement at every position with both ends included, is left out because line 20 never uses it.
- The graph viewer and the page scripts (the JavaScript files) are not part of this model. They are UI and layout code.
