# Course search toolkit, modelled in Dafny

This project models the search toolkit of a course-listing web application, plus the page cursor its tables use:

- the two text tokenizers and their shared stopword list;
- the `soundex` phonetic code;
- the frequency counter `buildFreqMap`;
- two generations of `FrequencyIndex`:
  - the inverted index of `src/search/search.ts`;
  - the counting index of `src/search/vec.ts`, with its `sum` and `tfidf`;
- the character trie of `src/search/trie.ts`;
- the `ngram` splitter of `src/search/ngram.ts`;
- the paging cursor of `usePaginated` in `src/hooks.ts`.

Each module follows one source file or one concern:

| module | file | models |
|---|---|---|
| `Wrappers` | wrappers.dfy | `Option`, for `undefined` and for the exception `soundex` throws on empty text |
| `Text` | text.dfy | ASCII case mapping, per-character replaces, the literal global replace, and `split(" ")` with its inverse `Join` |
| `Tokenizer` | tokenizer.dfy | both `tokenize` functions and the stopword set |
| `Counting` | counting.dfy | `buildFreqMap`, against the specification "each distinct value to its multiplicity" |
| `Soundex` | soundex.dfy | `soundex`, split into its character loop and its padding loop |
| `Ranking` | ranking.dfy | the caller's `Rankable` documents, the `or`/`and` operator table, and `setRank` call sequences |
| `FreqIndex` | freq_index.dfy | the `search.ts` index |
| `VecIndex` | vec_index.dfy | the `vec.ts` index, `sum` and `tfidf` |
| `Tries` | trie.dfy | `TrieNode` and `Trie` |
| `NGrams` | ngram.dfy | `ngram` |
| `Paging` | paging.dfy | `usePaginated`'s `move` and `goto` |

How the source's forms are modelled:

- **Objects updated in place become classes.**
  - `FrequencyIndex` (both files), `TrieNode` and the pager are classes.
  - Their methods state the whole new state.
  - A `Rankable` is a class with a mutable `rank`.
- **Loops become methods with invariants.** Each is proved against a specification function:
  - `buildFreqMap` against `CountMap`;
  - the indexing loops against `Indexed` and `Postings`;
  - the query loops against the write sequences `Hits` and `RankWrites`;
  - the soundex loops against `Spec`;
  - the `ngram` countdown against `Slice`.
- **The trie carries a ghost value shape.** Each node holds a ghost `Node` value of its subtree.
  - `add`, `depth` and `find` are proved against `AddV` and `DepthV`.
  - Those are in turn related to the set of root paths, which is the set of non-empty prefixes of the added words.
- **`search` is modelled by the calls it makes.** A search's effect is the sequence of `setRank` calls it makes:
  - a `Write` per call;
  - the result list is the calls' targets;
  - each document's final rank is the last value written to it.

## Model

| member | source | states |
|---|---|---|
| Text.ReplaceOneChar | src/search/search.ts:11-13 | a global replace of one character by one character is the character map that swaps that character at every position and keeps all others |
| Text.MapCharsFrom | src/search/search.ts:11-14 | every character of the replaced text is the image of some character of the input |
| Text.Split | src/search/search.ts:15 | `split(" ")` gives at least one piece, no piece holds a space, and joining the pieces with single spaces gives back the text |
| Text.SplitChars | src/search/search.ts:15 | every character of every piece is a character of the split text |
| Text.SplitCount | src/search/search.ts:15 | the number of pieces is one more than the number of spaces, so empty pieces are kept |
| Text.SplitNoSpace | src/search/search.ts:15 | a text without spaces splits into itself alone |
| Text.ReplaceAbsent | src/search/ngram.ts:4-5 | a global replace of a pattern that does not occur leaves the text unchanged |
| Tokenizer.Strip | src/search/search.ts:9 | the first replace keeps exactly the characters outside the class `.`, CR, `;`, `,`, U+2019, U+2014 |
| Tokenizer.Terms | src/search/search.ts:16 | the final filter keeps exactly the pieces that are non-empty and not stopwords, and never adds a piece |
| Tokenizer.TokenCharsFrom | src/search/search.ts:15-16 | a character of a kept token is a character of the text before the split, and not a space |
| Tokenizer.TokenCharacters | src/search/search.ts:6-17 | a search.ts token holds no space, none of the deleted characters, no tab, newline or underscore, none of the curly quote/dash forms and no ASCII capital |
| Tokenizer.NormalizedChar | src/search/search.ts:9-14 | a character the first replace keeps comes out of the chain as a space or as a character with none of the replaced or capital forms |
| Tokenizer.Origin | src/search/search.ts:9-14 | every character after the replace chain and lowercasing comes from a character of the input that the first replace kept |
| Tokenizer.HyphenatedWord | src/search/search.ts:6-17 | a lowercase word of letters and hyphens that is not a stopword is its own single token |
| Tokenizer.StripKeeps | src/search/search.ts:9 | a text with none of the deleted characters passes the first replace unchanged |
| Tokenizer.CurlyForms | src/search/search.ts:11-13 | in every text, at every position, both tokenizers' chains turn a kept left double quote, en dash and left single quote into `"`, `-` and `'` |
| Tokenizer.CurlyStraightened | src/search/vec.ts:10-13 | whatever the second step does, so long as it leaves the three curly forms alone, the straightening steps and lowercasing keep the length and turn each curly form, wherever it stands, into its ASCII form |
| Tokenizer.StraightenIsReplaces | src/search/search.ts:11-13 | the three global replaces of the curly forms, applied in order, equal the single character map `Straighten` on every text |
| Tokenizer.VecTokenCharacters | src/search/vec.ts:6-16 | a vec.ts token character in U+0009..U+005F is `"`, `-` or `'`, and then the input held the matching curly form; so no vec.ts token holds a digit or an ASCII capital |
| Tokenizer.VecDropsCapitalsAndDigits | src/search/vec.ts:9 | the range class `[\t\n-_]` blanks capitals and digits: "D1" has no vec.ts token, while search.ts gives "d1" |
| Counting.BuildFreqMap | src/search/search.ts:199-211 | the keys are exactly the distinct values, each count is the value's multiplicity and at least 1, and the counts add up to the length |
| Counting.CountMapSnoc | src/search/search.ts:202-209 | one more value raises its own count by one and leaves every other count alone |
| Counting.TotalCountMap | src/search/search.ts:199-211 | the counts of the map add up to the number of values counted |
| Soundex.Soundex | src/search/search.ts:168-197 | the empty text is an error (indexing `text[0]` throws), and any other text gets the code `Spec` defines |
| Soundex.Written | src/search/search.ts:174-189 | the character loop writes the upper-cased first character and at most three digits, which agree after padding with the collapsed codes of the rest of the text |
| Soundex.Padded | src/search/search.ts:190-195 | the padding loop appends '0' until there are exactly three digits |
| Soundex.Stopped | src/search/search.ts:185-187 | breaking out once three digits are written loses nothing: the rest of the text does not change the padded code |
| Soundex.CodeIndex | src/search/search.ts:176-178 | indexing the mapping string by the offset from 'A' of the upper-cased character gives the letter's table code, and characters outside 'A'..'Z' have none |
| Soundex.KeptStep | src/search/search.ts:176-184 | one iteration appends the character's code exactly when it has a non-zero code different from the last written character |
| Soundex.CollapseDistinct | src/search/search.ts:181-184 | every kept code comes from the text, the first differs from the first character, and no two consecutive kept codes are equal |
| Soundex.CodesDigits | src/search/search.ts:176-180 | every code that is written is a digit from '1' to '6' |
| Soundex.Shape | src/search/search.ts:168-197 | every code is four characters: the upper-cased first character, then digits '0'..'6', zeros only as trailing padding, and no written digit equal to the character before it |
| Soundex.VowelDoesNotSeparate | src/search/search.ts:178-180 | a letter coded 0 between two letters of the same code does not separate them: the second is dropped |
| Soundex.FirstLetterDoesNotSuppress | src/search/search.ts:174-184 | because the first letter itself, not its code, is compared, a second letter with the same code as the first is written |
| Ranking.Rankable.constructor | src/search/search.ts:19-23 | a caller document with the given text and rank |
| Ranking.TargetsAt | src/search/search.ts:127-130 | the documents pushed on the result are the `setRank` targets, one per call, in call order |
| Ranking.TargetsGrow | src/search/search.ts:130 | later pushes never remove an earlier document from the result |
| Ranking.LastWriteWins | src/search/search.ts:127-129 | after a sequence of `setRank` calls a document holds the value of the last call on it, or its earlier rank when no call targets it |
| Ranking.LastWriteSnoc | src/search/search.ts:127-130 | one more call changes only its target's rank and adds only its target to the result |
| FreqIndex.BumpAllGrows | src/search/search.ts:144-152 | indexing a document's tokens adds exactly those tokens as keys, and each entry gains one count and one posting of the document per occurrence |
| FreqIndex.GrownOnce | src/search/search.ts:149-150 | one more occurrence raises `freq` by one and pushes the document index once, `dist` untouched |
| FreqIndex.IndexedIsPostings | src/search/search.ts:85-96 | the corpus map holds exactly the terms of some document, and each entry is its posting list with `freq` its length and `dist` 0 |
| FreqIndex.PostingsAbsent | src/search/search.ts:85-96 | a term no document holds has no postings |
| FreqIndex.PostingsShape | src/search/search.ts:85-96 | a posting list is non-decreasing, names only indexed documents, lists each document as often as it holds the term, and its length is the term's total count |
| FreqIndex.PostingsMember | src/search/search.ts:85-96 | a document in the posting list of a term holds that term |
| FreqIndex.PostingsResolve | src/search/search.ts:121-126 | under the indexing invariant every posting names a record whose frequency map counts the term, so the `tf === undefined` branch is never taken, and `freq` is the posting list's length |
| FreqIndex.PostingWritesAll | src/search/search.ts:121-131 | when every posting resolves, scoring a term makes one call per posting, the j-th on the j-th posting's document with its score |
| FreqIndex.IndexDocument | src/search/search.ts:87-95 | the inner indexing loop computes the declarative `BumpAll` of the tokens |
| FreqIndex.MakeRecord | src/search/search.ts:79-83 | a record holds the document, its search.ts tokens and the count map of those tokens |
| FreqIndex.MakeRecords | src/search/search.ts:79-83 | one well-formed record per document, in the order given |
| FreqIndex.IndexAll | src/search/search.ts:85-96 | the nested indexing loop builds `Indexed` of the records' token lists |
| FreqIndex.TokenListsSnoc | src/search/search.ts:139-152 | appending a record appends its tokens, and its index is what `add`'s loop computes on the previous map |
| FreqIndex.AppendRecord | src/search/search.ts:136-153 | appending a tokenized record keeps the records well formed and the corpus map equal to the index of all records |
| FreqIndex.FrequencyIndex.constructor | src/search/search.ts:67-97 | without documents the index is empty; otherwise there is one record per document, in order, `ndocs` is the count and the corpus map is their index |
| FreqIndex.FrequencyIndex.Add | src/search/search.ts:136-153 | the old records are kept, a tokenized record for the document goes last, its tokens are indexed under its position, and `ndocs` is unchanged |
| FreqIndex.FrequencyIndex.Search | src/search/search.ts:99-134 | the result is the targets of the search's `setRank` calls in order, and each caller document ends with the last score written to it or the operator's default |
| FreqIndex.ResetRanks | src/search/search.ts:112-114 | every record's document gets the operator's default rank |
| FreqIndex.ScoreTerms | src/search/search.ts:116-133 | the query loop makes exactly the calls `Hits` lists, and returns their targets |
| FreqIndex.ScoreTerm | src/search/search.ts:121-131 | the inner loop for one term extends the calls and the result by that term's posting writes |
| FreqIndex.SetRank | src/search/search.ts:127-129 | a `setRank` call changes only its target's rank, as one more recorded write |
| FreqIndex.HitsCount | src/search/search.ts:116-133 | a search makes one call per occurrence of a query term in the corpus, repeated query terms and repeated tokens counted again |
| FreqIndex.HitsSound | src/search/search.ts:116-133 | every document a search writes to holds one of the query terms |
| FreqIndex.HitsComplete | src/search/search.ts:116-133 | every document holding one of the query terms is in the result |
| FreqIndex.UnmatchedKeepsDefault | src/search/search.ts:112-133 | a document holding none of the query terms is not in the result and keeps the default rank |
| VecIndex.Sum | src/search/vec.ts:18-24 | `sum` returns the total of the list |
| VecIndex.SeqSumAppend | src/search/vec.ts:18-24 | the total of a concatenation is the sum of the totals |
| VecIndex.MaxCount | src/search/vec.ts:113-123 | the running maximum is at least every token's count |
| VecIndex.MaxCountReached | src/search/vec.ts:113-123 | for a non-empty document some token has exactly the maximum count |
| VecIndex.CountMapPositive | src/search/vec.ts:84-93 | the corpus counts are never zero, so the `Math.log(n / idf)` divisor is positive |
| VecIndex.UnmatchedDefault | src/search/vec.ts:125-136 | a query fold that finds no term in both the document and the corpus leaves the operator's default rank |
| VecIndex.NoSharedTokenDefault | src/search/vec.ts:109-137 | a document none of whose tokens is a query term is ranked with the operator's default |
| VecIndex.RankedOnce | src/search/vec.ts:109-139 | with no document indexed twice, each of the first `ndocs` documents ends with its own rank and every later one keeps its earlier rank |
| VecIndex.RankWritesTargets | src/search/vec.ts:109-139 | the ranking loop calls `setRank` on exactly the first `ndocs` documents, in index order |
| VecIndex.CountTokens | src/search/vec.ts:86-92 | counting more tokens continues the count map of what was counted before |
| VecIndex.CountCorpus | src/search/vec.ts:84-93 | the constructor's nested loop counts every token of the corpus |
| VecIndex.TermCounts | src/search/vec.ts:113-123 | the per-document loop builds the document's count map and its running maximum, every count lying between 1 and the maximum |
| VecIndex.CountStep | src/search/vec.ts:114-122 | one more token raises its own count by one, and the maximum becomes that count when it is larger |
| VecIndex.CountsBounded | src/search/vec.ts:113-123 | every count of a document lies between 1 and its maximum |
| VecIndex.DocumentRank | src/search/vec.ts:110-137 | the rank computed for a document is the query fold of its counts, starting from the operator's default |
| VecIndex.MakeRecord | src/search/vec.ts:80-82 | a record holds the document and its vec.ts tokens |
| VecIndex.MakeRecords | src/search/vec.ts:80-82 | one record per document, in the order given |
| VecIndex.TokensSnoc | src/search/vec.ts:148 | appending a record appends its tokens to the corpus |
| VecIndex.AppendRecord | src/search/vec.ts:148 | appending a tokenized record keeps the records well formed |
| VecIndex.CountAppend | src/search/vec.ts:149-155 | counting more tokens adds their multiplicities to the earlier counts |
| VecIndex.FrequencyIndex.constructor | src/search/vec.ts:68-94 | without documents the index is empty; otherwise it holds the documents in order, `ndocs` is their number and the corpus map counts all their tokens |
| VecIndex.FrequencyIndex.Add | src/search/vec.ts:145-156 | the record goes last, each corpus count rises by the token's multiplicity in the document, and `ndocs` is unchanged |
| VecIndex.FrequencyIndex.Search | src/search/vec.ts:96-143 | the first `ndocs` documents get their ranks in index order, and the result is all documents, a permutation of the records, highest rank first |
| VecIndex.AppendDocument | src/search/vec.ts:145-156 | the new record and counts keep the corpus map equal to the counts of all records' tokens |
| VecIndex.RankDocuments | src/search/vec.ts:109-139 | after the loop every document holds the last rank written to it by the per-document calls |
| VecIndex.SetRank | src/search/vec.ts:137 | a `setRank` call changes only its target's rank, as one more recorded write |
| VecIndex.SortByRank | src/search/vec.ts:140-142 | the sort returns a permutation of its input ordered by descending rank |
| VecIndex.Insert | src/search/vec.ts:142 | inserting into a descending list keeps it descending and adds exactly the element |
| VecIndex.Inserted | src/search/vec.ts:142 | putting an element at any position adds exactly that element to the multiset |
| VecIndex.InsertAt | src/search/vec.ts:142 | placing an element after those of at least its rank and before those of lower rank keeps the list descending |
| VecIndex.TfidfIsOrFold | src/search/vec.ts:204-212 | the `tfidf` sum for a document is the "or" index's query fold over the same counts |
| VecIndex.TfidfUnmatched | src/search/vec.ts:204-212 | a document sharing no term with the query ranks 0 |
| VecIndex.Tfidf | src/search/vec.ts:168-216 | one ranking per document, each the query sum of the document's counts against the corpus counts |
| VecIndex.AddWeights | src/search/vec.ts:204-212 | the query loop sets the document's ranking to the query sum and leaves every other ranking alone |
| Tries.Longest | src/search/trie.ts:43-50 | the walk's depth is the first position whose prefix is not a path: every prefix up to it is a path, the next one is not |
| Tries.DepthUnique | src/search/trie.ts:30-52 | the depth is the only length with all shorter prefixes paths and the next prefix not a path |
| Tries.AddedDepth | src/search/trie.ts:30-52 | a word whose every prefix is a path has its full length as its depth |
| Tries.DepthMonotone | src/search/trie.ts:30-52 | adding paths never lowers a depth |
| Tries.DepthZero | src/search/trie.ts:31-39 | the empty word, or a word whose first character has no child, has depth 0 |
| Tries.PathsFromAdd | src/search/trie.ts:17-23 | adding a word below a child for its first character adds exactly the word's prefixes to the node's paths |
| Tries.DepthChild | src/search/trie.ts:40-50 | the depth through an existing child is one more than the child's depth of the rest |
| Tries.Kept | src/search/trie.ts:66-69 | a string without U+0000 is kept as it is |
| Tries.KeptAppend | src/search/trie.ts:66-69 | dropping U+0000 characters commutes with concatenation |
| Tries.AddPaths | src/search/trie.ts:13-24 | `add` extends the paths of a subtree by exactly the non-empty prefixes of the word |
| Tries.AddKeyed | src/search/trie.ts:17-22 | every child stays keyed by its own character after `add`, and the node's character is unchanged |
| Tries.DepthMeaning | src/search/trie.ts:30-52 | the depth `depth` computes is the length of the longest prefix of the word that is a path of the subtree |
| Tries.TrieNode.constructor | src/search/trie.ts:5-11 | a new node for the character holding exactly the residue added below it |
| Tries.TrieNode.Add | src/search/trie.ts:13-24 | the subtree becomes `AddV` of its old shape, and stays valid with only new nodes added |
| Tries.TrieNode.AddBelow | src/search/trie.ts:19-20 | the existing child for the first character takes the rest of the word, and no other child changes |
| Tries.TrieNode.AddNew | src/search/trie.ts:21-22 | a new child for the first character holds the rest of the word, and no other child changes |
| Tries.TrieNode.Attach | src/search/trie.ts:22 | `children.set` hangs a disjoint subtree under its character, keeping every other child |
| Tries.TrieNode.Child | src/search/trie.ts:26-28 | a child is found exactly when the word is non-empty and its first character has one, and it is that character's valid subtree |
| Tries.TrieNode.Depth | src/search/trie.ts:30-52 | the loop's depth equals `DepthV`, the length of the longest prefix of the word that is a path |
| Tries.TrieNode.Find | src/search/trie.ts:54-70 | `find` returns the depth, and the node's character (unless U+0000) followed by the walked characters |
| Tries.FindStep | src/search/trie.ts:64-69 | a node puts its own character, unless it is U+0000, in front of what its child found |
| Tries.RootFind | src/search/trie.ts:65-69 | from the root, when something is found, the string returned is the found prefix of the word |
| Tries.BuildPaths | src/search/trie.ts:73-80 | a trie holds exactly the non-empty prefixes of its words |
| Tries.TrieDepth | src/search/trie.ts:73-80 | in a trie, a word's depth is the length of its longest prefix that is a prefix of one of the words |
| Tries.NewTrie | src/search/trie.ts:73-80 | `new Trie(words)` is a root of character U+0000 whose paths are exactly the prefixes of the words |
| Tries.AllPrefixesOfSet | src/search/trie.ts:76-78 | the paths depend only on which words were added, not on their order or repetition |
| Tries.PrefixClosed | src/search/trie.ts:73-80 | every non-empty prefix of a path is a path |
| NGrams.Slice | src/search/ngram.ts:10 | `slice` with bounds inside the list is the sub-list between them, and never longer than the list |
| NGrams.GramTokens | src/search/ngram.ts:3-7 | the cleanup and split give at least one token, none holding a space |
| NGrams.NGram | src/search/ngram.ts:1-13 | there are `tokens - n + 1` grams; gram i is the slice from i to i+n, of n tokens when n >= 0; consecutive grams overlap in n-1 tokens |
| NGrams.GramsOverlap | src/search/ngram.ts:8-11 | the next gram is this one shifted left by one with the next token appended |
| NGrams.LiteralCleanup | src/search/ngram.ts:4-5 | the replaces match literal sequences: a text holding neither ".\n\r;," nor "\t-_" is only lowercased and split |
| NGrams.TokensLowered | src/search/ngram.ts:3-7 | the tokens hold no ASCII capital and, joined with single spaces, give back the cleaned lowercased text |
| Paging.PageCount | src/hooks.ts:19-22 | the page count is the least whole number of pages covering all rows |
| Paging.Moved | src/hooks.ts:27-38 | a move either stays put or shifts index and page by exactly n pages and lands on a row |
| Paging.GotoStep | src/hooks.ts:40-45 | the step `goto` hands to `move`: towards page p-1, one page further when the last page is partial and p is ahead, never back by more than the page count |
| Paging.PageRows | src/hooks.ts:34-36 | the rows shown are those from the index to a page further on or to the end, at most a page and at least one row when there is data |
| Paging.MoveAligned | src/hooks.ts:27-38 | a move keeps the index at the first row of the current page, on a row of the data |
| Paging.LastPage | src/hooks.ts:19-22 | with data, the page count is one more than the last row's page, and the quotient is that page or one more |
| Paging.AlignedPage | src/hooks.ts:27-38 | an aligned cursor is on an existing page, or on page 0 of empty data |
| Paging.MoveBack | src/hooks.ts:27-38 | a move that went somewhere is undone by the opposite move |
| Paging.MoveTarget | src/hooks.ts:27-38 | `move(n)` lands on page `page + n` exactly when that page exists, and otherwise stays put |
| Paging.GotoFirst | src/hooks.ts:40-45 | `goto(1)` from any later page reaches the first page |
| Paging.GotoLast | src/hooks.ts:40-45 | `goto(len / pageLen)` on `len` rows, with the floor its callers compute, reaches the last page from every page below that floor (the Last button's enabling condition), including the last page itself when it is full |
| Paging.GotoLands | src/hooks.ts:40-45 | from any aligned cursor `goto(p)` lands on page `p` when the last page is partial and `p` is ahead of the cursor, on page `p - 1` otherwise, whenever that page exists, and otherwise leaves the cursor where it was |
| Paging.GotoDependsOnCursor | src/hooks.ts:41-44 | with a partial last page `goto(p)` lands differently from different pages: 25 rows of 10, `goto(2)` goes to page 2 from page 0 and to page 1 from page 2 |
| Paging.Pager.constructor | src/hooks.ts:19-25 | the page count, and the cursor on page 0 showing the first page's rows |
| Paging.Pager.Move | src/hooks.ts:27-38 | the cursor moves as `Moved` says, the page it is then on is returned, the rows are those of its page, and they are unchanged when it stays put |
| Paging.Pager.Goto | src/hooks.ts:40-45 | the cursor makes the single move `GotoStep` computes |

## Left out

- `Math.log` is the parameter `ln` of the searches and of `tfidf`, and scores are exact `real`s rather than floating point. So nothing is said about `NaN`, infinities or rounding; `log(n / freq)` with `n` 0 is whatever `ln` gives.
- The `and` operator's `Math.abs(rank - 1)` is exact real arithmetic.
- `toLowerCase` and `toUpperCase` change only ASCII letters. Other letters with case mappings, and `charCodeAt` on characters outside the Basic Multilingual Plane (UTF-16 surrogates), are not modelled.
- `document()`, `getRank` and `setRank` of a `Rankable` are a fixed text `body` and a mutable field `rank`. Caller code running inside those calls is not modelled.
- The stopword set is the same 127 words in both files and is written once, as `Tokenizer.IsStopword`.
- `FreqIndex.FrequencyIndex.Search`: `maxfreq` is fixed at 1 in the source, so each score is `tf * log(n / freq)`. The scores are modelled as written; their ordering is not specified.
- The `search.ts` index's `dist` field is never written by the source and is kept at 0.
- `VecIndex.FrequencyIndex.Search` ranks the first `ndocs` documents only. `add` does not raise `ndocs`, so documents added later keep their earlier rank but are still returned and sorted. This is modelled as written.
- `VecIndex.FrequencyIndex.Search`: the order among documents of equal rank in the returned list is not stated, because it is the result of `VecIndex.SortByRank` below.
- `VecIndex.SortByRank`: `Array.prototype.sort` with the comparator `b.getRank() - a.getRank()` is modelled as an insertion sort. Its contract is a permutation in descending rank order; the relative order of documents of equal rank (the sort's stability) is not stated.
- `soundex` on an empty text throws a `TypeError` in the source. The model returns `None` instead.
- The `!=` in the vec.ts copy of `soundex`, where search.ts has `!==`, compares two strings and behaves identically, so one model serves both copies.
- `Trie` extends `TrieNode` in the source. Here `Tries.NewTrie` builds a root `TrieNode` of character U+0000 and adds the words to it, because the model has no subclassing.
- Node characters are `char` values rather than the numbers `charCodeAt` gives. `String.fromCharCode` is the identity on them.
- `ngram`'s `n` is an integer. Non-integer `n`, and the endless `while (ix--)` countdown when `n` exceeds the number of tokens plus one, are excluded by `NGrams.NGram`'s precondition.
- `usePaginated`'s React plumbing is left out: `useRef`, `useState`, and the `useEffect` that resets the rows. `rows` is a field updated together with the cursor.
- `pageLen` is required to be positive. A zero or negative `pageLen`, which would make the page count and the moves meaningless, is outside the model.
- The callers of `goto` (the pagination buttons and the course table) are not part of this model. `Paging.GotoLast` states the case they exercise: the last-page button passes the floor of `|all| / pageLen`.
