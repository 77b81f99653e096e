# Boolean retrieval over an inverted index: a Dafny model

This project models the query core of a small boolean information-retrieval
system. The system is built around an inverted index that maps term ids to
ascending posting lists of document ids. A boolean query such as
`Caesar AND NOT (Brutus OR Calpurnia)` is answered in three steps:

1. An external grammar parses the query into an abstract syntax tree.
2. `process_ast` normalises that tree into nested `Operation` values. It
   flattens chains of the same connective and rewrites `NOT <term>` operands
   as `-<term>`.
3. `execute_query` resolves the words against the vocabulary. Flat queries
   are answered with posting-list merges (`_intersect_two`, `_intersect`,
   `_negate`). Queries that still contain nested operations go to
   `_execute_query_tree`.

Separately from the query path, the text utilities tokenize document text
(`tokenize_document` strips whitespace, drops stop words and removes
punctuation from each word) and offer a stop-word filter
(`remove_stop_words`). `execute_query` does not call them.

The model follows the Python code as written, quirks included (see "Behaviour
as written" below).

Modules:

- `Wrappers`: `Option` and `Result`. Every exception the code can raise
  becomes a `Failure` value.
- `Sequences`: ordering facts. Python sets of document ids are modelled as
  sequences read only through membership; `SortedSet` is `sorted(set(..))`.
- `QueryParser`: the parser's tree (`Ast`) and the normaliser: `add_arg`,
  `process_ast`, `ast_has_operation`, `operation_is_complex`.
- `QueryEngine`: the index as an immutable value `Index(documents, terms,
  postings)` and the evaluator: `_intersect_two`, `_intersect`, `_negate`,
  `_execute_query_tree`, `execute_query`.
- `QueryEngineProperties`: the set meaning of the posting-list algorithms.
- `QueryOutcomes`: what each query shape returns, per kind of word.
- `Scenarios`: worked queries over a five-document example index.
- `TextUtils`: `remove_punctuation`, `stop_words`, `remove_stop_words` and
  the line and word steps of `tokenize_document`; not used by the query path.

The parser's output is an input to `ExecuteQuery`, as `Option<Ast>`. `None`
stands for a query the grammar rejects. The grammar itself is not modelled.
The index is a parameter. Loading it from files is not modelled.

## Model

| member | source | states |
|---|---|---|
| Sequences.SortedSet | queryengine.py:206 | `sorted(set(xs))`: the result is strictly ascending and has exactly the elements of `xs` |
| Sequences.Common | queryengine.py:148 | set intersection: `y` is in the result exactly when it is in both arguments |
| Sequences.Without | queryengine.py:113 | set difference: `y` is in the result exactly when it is in the first argument and not in the second |
| QueryParser.AddArg | queryparser.py:42-50 | A child with the parent's connective has its operands spliced in. A `NOT` of a word becomes the word `-w`. A lookup contributes its word. Any other child is kept nested. Existing operands are kept as a prefix, and at least one operand is added. |
| QueryParser.AddArgNormalised | queryparser.py:42-50 | Adding a normalised child to a normalised AND/OR operation keeps it normalised: no directly nested operation with the same connective, and no nested lookups |
| QueryParser.AddAll | queryparser.py:76-83 | Adding a list of processed children keeps the connective and the earlier operands, and adds at least one operand per child |
| QueryParser.AddEach | queryparser.py:76-80 | The loop over a list rest keeps the connective and normalisation, and adds at least one operand per item (`AddEachIsAddAll` gives the exact fold) |
| QueryParser.ResolveOp | queryparser.py:61-65 | A single operator is used as is. A list succeeds only when non-empty with every entry equal to the result; otherwise it has two different entries or none, and the assertion fails |
| QueryParser.ProcessAst | queryparser.py:52-92 | A bare term gives `LOOKUP [term]`. A node with no operator unwraps its child, and is rejected if it has a second operand. On success the result is well shaped and normalised. An operator node yields its own connective, with at least as many operands as it had children. |
| QueryParser.AddEachIsAddAll | queryparser.py:76-80 | Folding `add_arg` over the processed children one by one equals adding the whole list |
| QueryParser.OperandsMergedInOrder | queryparser.py:71-85 | `a AND b AND c` with flattenable operands gives one operation whose operands are those of the first child followed by those of the rest, in order |
| QueryParser.OperatorListActsAsSingle | queryparser.py:61-65 | A node whose operator is a list of equal connectives is normalised as if it carried that connective once |
| QueryParser.NegatedTermIsDirect | queryparser.py:66-69 | `NOT t` for a plain term gives `NOT [t]`, without the `-t` rewrite |
| QueryParser.DoubleNegationCollapses | queryparser.py:42-44 | `NOT NOT t` is normalised to `NOT [t]`, because the inner NOT has the outer one's connective and its operands are spliced in |
| QueryParser.RestGivesTwoArguments | queryparser.py:71-85 | An operator node with a first operand and a non-empty rest normalises to an operation with at least two operands |
| QueryParser.OperatorTreesAreNotLookups | queryparser.py:7-13 | `ast_has_operation` (`AstHasOperation`) is false for a bare term, and a tree for which it holds never normalises to a lookup |
| QueryParser.OperationIsComplex | queryparser.py:94-102 | The loop returns true exactly when some operand is a nested operation |
| QueryEngine.Negate | queryengine.py:111-116 | A known term gives the ascending documents not in its postings. An unknown id gives all documents in load order. |
| QueryEngine.IntersectTwo | queryengine.py:68-83 | The merge returns a subsequence of each input, no longer than the shorter one, and empty if either input is |
| QueryEngine.Frequencies | queryengine.py:90-93 | The `(t, len(p))` pairs keep the ids in input order, one pair per id; the only failure is a `KeyError` on a positive listed id without postings (`FrequenciesSucceed` gives success for resolved ids) |
| QueryEngine.SortByLength | queryengine.py:93 | The pairs come out ordered by list length and are a permutation of the input |
| QueryEngine.IntersectRest | queryengine.py:99-109 | The loop never lengthens the running result, returns [] once it is empty, and fails only on a positive id of the remaining list that has no postings (`IntersectRestMeet` gives its meaning) |
| QueryEngine.Intersect | queryengine.py:85-109 | The unpacking error happens exactly for an empty id list; any other failure is a `KeyError` on a non-negative id without postings (`IntersectIsMeet` and `IntersectWithSentinel` give the result) |
| QueryEngine.ResolveWord | queryengine.py:185-197 | A word is dropped exactly when it is `-t` with t unknown; over a valid index a kept id is negative exactly for a negated word and 0 exactly for an unknown plain word |
| QueryEngine.ResolveArgs | queryengine.py:185-197 | Every kept id is 0, a term id, or a negated term id; negated unknown words are dropped |
| QueryEngine.UnionOf | queryengine.py:199-205 | The OR loop fails only with a `KeyError` on a non-negative listed id without postings, and succeeds when every id is negative or has postings (`UnionOfMeaning` gives the union) |
| QueryEngine.WordValue | queryengine.py:127-143 | A word assigns nothing to `temp` exactly when it is a plain unknown term; it fails only on a known term without postings, never over a valid index; a negated word assigns only document ids |
| QueryEngine.Combine | queryengine.py:145-151 | OR adds `temp` to the result, AND keeps the part in `temp`, NOT (after its one-operand check) gives the documents not in `temp`, LOOKUP leaves the result alone; it fails exactly when NOT has other than one operand or an unassigned `temp` is read |
| QueryEngine.ExecuteQueryTree | queryengine.py:118-153 | A successful tree evaluation is strictly ascending, as `sorted(result)` is |
| QueryEngine.TreeFold | queryengine.py:122-151 | A LOOKUP loop never changes the result (`TreeFoldOr`, `TreeFoldAnd` and `TreeFoldLookup` give the other operators and the full LOOKUP outcome) |
| QueryEngine.ExecuteOperation | queryengine.py:178-183 | An operation with a nested operand is answered entirely by the tree evaluator |
| QueryEngine.ExecuteQuery | queryengine.py:155-183 | A rejected query gives `ParseFailed`, and a tree the normaliser rejects gives `Malformed`; otherwise the normalised operation is evaluated |
| QueryEngineProperties.IntersectTwoCommon | queryengine.py:68-83 | For ascending inputs the merge is ascending and holds exactly the documents in both lists |
| QueryEngineProperties.NegationInvolution | queryengine.py:111-116 | Removing a known term's complement from the document list, and sorting, gives back the term's postings when they are all known documents |
| QueryEngineProperties.ProperIdList | queryengine.py:90 | A term id or negated term id resolves to an ascending list that holds exactly the documents it selects |
| QueryEngineProperties.FrequenciesSucceed | queryengine.py:90-93 | Computing the (id, length) pairs never fails for ids that are 0, term ids or negated term ids |
| QueryEngineProperties.StepMeet | queryengine.py:100-108 | One loop step keeps exactly the documents selected by the running result and by the next id |
| QueryEngineProperties.IntersectRestMeet | queryengine.py:99-109 | The loop succeeds with an ascending result. If no sentinel 0 remains it holds the documents selected by the running result and every remaining id. If one remains, the result is empty. |
| QueryEngineProperties.SortedIdsSameElements | queryengine.py:93-94 | Sorting by posting length keeps the number of ids and exactly the same ids |
| QueryEngineProperties.SortedIdsFacts | queryengine.py:90-94 | For valid ids the frequency pass succeeds and the sorted ids are a same-length permutation of valid ids |
| QueryEngineProperties.IntersectIsMeet | queryengine.py:85-109 | For a non-empty list of proper ids the result is ascending and holds exactly the documents every id selects |
| QueryEngineProperties.IntersectOrderIndependent | queryengine.py:85-109 | Permuting the ids does not change the result |
| QueryEngineProperties.IntersectWithSentinel | queryengine.py:90-109 | For an id list containing the sentinel 0, which is ranked by the length of `_negate(0)` (the number of documents): if the sort puts 0 first, `_the_index[0]` raises `KeyError`; otherwise the loop meets 0 and the answer is empty |
| QueryEngineProperties.SentinelTieOrderMatters | queryengine.py:93-104 | When the sentinel's list is as long as another list, the stable sort keeps the word order, and that order decides the outcome: `[0, 1]` raises `KeyError` while `[1, 0]` gives [] |
| QueryEngineProperties.EmptyConjunctionFails | queryengine.py:94 | An empty id list fails at the unpacking of the empty sorted list |
| QueryOutcomes.ResolutionTable | queryengine.py:185-197 | Each of the four kinds of word (known or unknown, negated or plain) resolves to its term id, its negated id, the sentinel 0, or nothing |
| QueryOutcomes.ResolvedIds | queryengine.py:185-197 | Resolved ids are proper or 0. There is a 0 exactly when some word is an unknown plain word. The list is empty exactly when every word is an unknown negated word. |
| QueryOutcomes.ResolvedSelectsSome | queryengine.py:185-197 | A document is selected by some resolved id exactly when some kept word selects it |
| QueryOutcomes.ResolvedSelectsAll | queryengine.py:185-197 | A document is selected by all resolved ids exactly when every kept word selects it |
| QueryOutcomes.UnionOfMeaning | queryengine.py:199-206 | The OR loop fails on `_the_index[0]` if the sentinel 0 is among the ids; otherwise it holds exactly the documents some id selects |
| QueryOutcomes.FlatOr | queryengine.py:199-206 | A flat OR with an unknown plain word fails on `_the_index[0]`. Otherwise it gives the ascending set of documents some word selects, and unknown negated words add nothing. |
| QueryOutcomes.IntersectAscending | queryengine.py:85-109 | Whenever `_intersect` succeeds on resolved ids, its result is ascending |
| QueryOutcomes.FlatAnd | queryengine.py:208-209 | A flat AND of only unknown negated words fails. One with an unknown plain word fails on id 0 or is empty. Otherwise it gives the documents every kept word selects. |
| QueryOutcomes.FlatNot | queryengine.py:211-218 | `NOT known` is the ascending complement. `NOT -unknown` is all documents in load order. `NOT unknown`, and `NOT -known`, fail on a missing key. |
| QueryOutcomes.FlatLookup | queryengine.py:220-229 | A known word gives its postings. An unknown negated word gives []. An unknown plain word fails on id 0. A negated known word fails on a missing key. |
| QueryOutcomes.AndNotIsDifference | queryengine.py:188-189 | `a AND NOT b` over known terms gives the ascending documents of `a` that are not in `b` |
| QueryOutcomes.ResultOrder | queryengine.py:155-232 | A successful answer is ascending, or it is the document list in load order |
| QueryOutcomes.OrContribution | queryengine.py:128-146 | What one word adds to an OR in the tree evaluator, per kind of word |
| QueryOutcomes.AndContribution | queryengine.py:128-148 | What one word keeps in an AND in the tree evaluator, per kind of word |
| QueryOutcomes.TreeFoldOr | queryengine.py:122-146 | The OR loop's result, from any point on, is the accumulated set plus what the remaining words add; nested operands add nothing |
| QueryOutcomes.TreeFoldAnd | queryengine.py:122-148 | The AND loop's result, from any point on, is the accumulated set cut down by the remaining words; nested operands cut nothing |
| QueryOutcomes.TreeOr | queryengine.py:118-153 | A tree OR gives the documents added by some word. Every negated word, known or not, adds every document. Nested results are ignored. |
| QueryOutcomes.TreeAnd | queryengine.py:118-153 | A tree AND gives the documents admitted by every word. Nested operands and negated known words admit all documents. |
| QueryOutcomes.TreeNotOverNested | queryengine.py:118-153 | `NOT (subquery)` gives the subquery's failure or the empty list, since the nested result never reaches the combining step |
| QueryOutcomes.TreeNotOfKnownTerm | queryengine.py:141-151 | In the tree evaluator, `NOT known` is the complement of its postings and agrees with the flat answer |
| QueryOutcomes.TreeUnknownFirst | queryengine.py:128-151 | An unknown plain word as the first operand of an OR, an AND or a one-operand NOT fails when the combine step reads the unbound `temp`; a NOT with more operands fails its arity assertion first |
| QueryOutcomes.TreeLookupIsEmpty | queryengine.py:118-153 | A tree LOOKUP never reads `temp` and never changes its empty result, so it answers [] for any words, unknown plain words included, unless a nested operand fails |
| QueryOutcomes.StaleTempRepeatsNested | queryengine.py:122-146 | In `(subquery) OR unknown` the unknown word reuses the subquery's value, so the answer is the subquery's |
| QueryOutcomes.TreeFoldIgnoresTrailingNested | queryengine.py:122-146 | A successful nested operand at the end of the loop changes nothing |
| QueryOutcomes.TrailingNestedIgnored | queryengine.py:122-153 | Appending a successful nested operand to any operation other than NOT changes nothing |
| Scenarios.Vocabulary | queryengine.py:45-58 | The example index is well formed and knows Caesar, Brutus and Calpurnia but not Ptolemy |
| Scenarios.BinaryOfTerms | queryparser.py:71-85 | `a op b` over two terms normalises to `op [a, b]` |
| Scenarios.CaesarAndBrutus | queryengine.py:208-209 | `Caesar AND Brutus` gives [1] |
| Scenarios.CaesarOrBrutus | queryengine.py:199-206 | `Caesar OR Brutus` gives [1, 2, 3, 4] |
| Scenarios.NotCaesar | queryengine.py:211-218 | `NOT Caesar` gives [4, 5] |
| Scenarios.CaesarAndNotBrutus | queryengine.py:188-209 | `Caesar AND NOT Brutus` gives [2, 3] |
| Scenarios.CaesarAndNested | queryengine.py:118-153 | `Caesar AND (Brutus OR Calpurnia)` gives [1, 2, 3]: the nested result is ignored |
| Scenarios.CaesarAndPtolemy | queryengine.py:195-209 | `Caesar AND Ptolemy` gives []: the unknown word becomes id 0, ranked by the five documents of `_negate(0)`, so Caesar's three postings seed the loop and the sentinel's empty list then empties the result |
| Scenarios.UniverseInLoadOrder | queryengine.py:211-215 | `NOT -unknown` returns the documents in load order, not sorted |
| TextUtils.PunctuationRanges | textutils.py:3-7 | The punctuation characters are exactly the four ASCII ranges of `string.punctuation` |
| TextUtils.RemovePunctuation | textutils.py:3-7 | No punctuation character survives, and the result is no longer than the input |
| TextUtils.RemovePunctuationKeepsOthers | textutils.py:3-7 | The result is a subsequence of the input, and every other character keeps its number of occurrences |
| TextUtils.RemovePunctuationKeepsClean | textutils.py:3-7 | A string without punctuation is unchanged |
| TextUtils.RemovePunctuationIdempotent | textutils.py:3-7 | Stripping twice is stripping once |
| TextUtils.RemovePunctuationConcat | textutils.py:3-7 | Stripping distributes over concatenation |
| TextUtils.FilterStopWords | textutils.py:62 | No stop word survives, and the result is no longer than the input |
| TextUtils.FilterKeepsOthers | textutils.py:62 | The result is a subsequence of the input, and every other word keeps its number of occurrences |
| TextUtils.FilterKeepsClean | textutils.py:62 | A word list without stop words is unchanged |
| TextUtils.SplitOnSpace | textutils.py:60 | `split(" ")` gives at least one piece, none containing a space, and joining them with single spaces gives the input back |
| TextUtils.SplitJoinRoundTrip | textutils.py:60 | Splitting the single-space join of space-free pieces gives the pieces back |
| TextUtils.RemoveStopWords | textutils.py:54-62 | Text is split on single spaces, a list is used as is. No stop word survives, and no more words come out than went in. |
| TextUtils.RemoveStopWordsKeepsOthers | textutils.py:54-62 | Every word that is not a stop word keeps its number of occurrences, in order |
| TextUtils.RemoveStopWordsIdempotent | textutils.py:54-62 | Removing stop words from the result changes nothing |
| TextUtils.EmptyWordSurvives | textutils.py:59-62 | A double space yields an empty word, which is not a stop word and is kept |
| TextUtils.CapitalisedStopWordKept | textutils.py:11-37 | The stop-word test is case sensitive: `The` is kept |
| TextUtils.SplitWhitespace | textutils.py:47 | `strip().split()` gives non-empty tokens without whitespace, whose concatenation is the input minus its whitespace (`SplitWhitespaceOfLayout` fixes where the tokens break) |
| TextUtils.SplitWhitespaceOfLayout | textutils.py:47 | Any string, written as leading whitespace followed by tokens each trailed by whitespace (non-empty between tokens), splits into exactly those tokens |
| TextUtils.StringLayout | textutils.py:47 | Every string is leading whitespace followed by the tokens `strip().split()` returns, each trailed by whitespace that is non-empty between tokens, so with `SplitWhitespaceOfLayout` the split is fixed on every input |
| TextUtils.SplitWhitespaceToken | textutils.py:47 | A token followed by a space and more text splits into that token followed by the split of the rest |
| TextUtils.SplitWhitespaceRoundTrip | textutils.py:47 | Splitting tokens joined by single spaces gives the tokens back |
| TextUtils.SplitWhitespaceOfToken | textutils.py:47 | A single token splits to itself |
| TextUtils.TokenizeWords | textutils.py:48-51 | One word in, at most one word out, none with punctuation |
| TextUtils.TokenizeIsFilterThenStrip | textutils.py:48-51 | Tokenising is filtering stop words, then stripping punctuation from each remaining word |
| TextUtils.StopWordAfterStripping | textutils.py:48-51 | The stop-word test runs before stripping, so `the,` comes out as `the` |
| TextUtils.TokenizeLine | textutils.py:47-51 | A line gives at most one word per whitespace token, none containing punctuation |
| TextUtils.TokenizeLineOfLayout | textutils.py:47-51 | A line made of tokens and whitespace yields the punctuation-stripped non-stop tokens, in order |
| TextUtils.TokenizeLines | textutils.py:46-51 | No word the tokenizer yields for a file contains punctuation |
| TextUtils.TokenizeLinesConcat | textutils.py:46-51 | Tokenising a file is tokenising each line in turn |

## Behaviour as written

The model keeps these behaviours of the code, even where the comments or
the worked examples of the system suggest otherwise:

- An unknown plain word in a flat OR resolves to the sentinel id 0. The
  union then reads `_the_index[0]`, which raises `KeyError`; it does not
  contribute the universe (`FlatOr`).
- In the tree evaluator the combining step sits inside the branch for word
  operands. A nested operand's result is therefore never combined. So
  `Caesar AND (Brutus OR Calpurnia)` gives [1, 2, 3], not [1]
  (`CaesarAndNested`).
- In the tree evaluator a negated known word is passed to `_negate` with a
  negative id, which is never a key. It yields the whole document list, not
  the complement (`TreeOr`, `TreeAnd`).
- In the tree evaluator an unknown plain word leaves `temp` unassigned. The
  OR, AND and NOT combine steps then read the previous operand's value, or
  raise on the unbound name; LOOKUP never reads it
  (`StaleTempRepeatsNested`, `TreeUnknownFirst`, `TreeLookupIsEmpty`).
- `_intersect` of an empty list raises at the unpacking
  (`EmptyConjunctionFails`). An unknown plain word in an AND becomes id 0.
  For the length sort, 0 is ranked by the length of `_negate(0)`, which is
  the number of documents. If that puts it first, `_the_index[0]` raises
  `KeyError`; otherwise the loop pairs it with the empty list and the result
  is [] (`IntersectWithSentinel`). On a tie the word order decides
  (`SentinelTieOrderMatters`).
- `NOT` of an unknown negated word, and `_negate` of an unknown id, return
  the documents in load order rather than sorted (`UniverseInLoadOrder`,
  `ResultOrder`).
- A flat NOT or LOOKUP whose single word is `-known` reads `_the_index` with
  the negative id and raises `KeyError` (`FlatNot`, `FlatLookup`). In a flat
  AND or OR the same word goes to `_negate` and gives the complement.

## Left out

- Loading the index and the dictionary from files (`__init__`,
  `read_postings_list`): the index is a parameter.
- `parse_query` and the generated grammar: the parser's tree is an input,
  and a parse error is `None`. The message printed on a parse error is not
  modelled.
- `documents_for_ids`, `dump`, `execute_and_print` and the `__main__` demos:
  printing and lookup helpers outside the query core.
- The file-opening loop of `tokenize_document`: a file is given as its lines
  (`TokenizeLines`).
- The "unsupported operator" branch of `execute_query`: normalised
  operations only carry AND, OR, NOT and LOOKUP, so it cannot be reached.
- `AST` values other than a term, a node with an operator, and a node
  without one. The grammar produces no others.
- QueryEngine.ResolveArgs: the contract states which ids are kept, not that
  they keep the order of the words.
- QueryEngine.SortByLength: the contract does not state in general that
  Python's sort is stable. For proper ids `IntersectOrderIndependent` shows
  the order does not matter; with the sentinel it does, and
  `SentinelTieOrderMatters` exhibits the stable order on a tie.
- QueryOutcomes.TreeOr: requires that every nested operand succeeds and
  that no unknown plain word occurs. Those cases are covered by
  `TreeUnknownFirst` and `StaleTempRepeatsNested`, not in general.
- QueryOutcomes.TreeAnd: same preconditions as `TreeOr`, for the same reason.
- QueryOutcomes.ResultOrder: requires a well-formed index (distinct
  documents, positive posting keys with ascending lists, and a posting list
  for every term id), which the index files guarantee.
