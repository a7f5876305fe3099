# Word frequencies analyzer: a verified model of the text-to-graph pipeline

`app.js` (d3-word-frequencies-analyzer) turns a text into a word
co-occurrence graph. The browser then lays that graph out with a d3 force
simulation. This project models, in Dafny, everything `processText` computes
before that simulation runs, and also the class the hover handler gives each
node. It proves what each step promises.

| module (file) | source | models |
|---|---|---|
| `Dicts` (`dicts.dfy`) | JS plain objects | a `Dict<V>` is a map of properties together with their enumeration order (`Object.keys` / `for-in`), which is insertion order; `d[k] \| 0` is `Lookup`, `d[k] = v` is `Put` |
| `Tokenizer` (`tokenizer.dfy`) | `parseText`, app.js:58-60 | `split(/[^a-zA-Z0-9]+/)` as `Split`, then `toLowerCase` on every piece |
| `Frequencies` (`frequencies.dfy`) | `getWordFrequencies`, app.js:62-69 | the counting loop as a method, proved equal to a left fold |
| `TopWords` (`top_words.dfy`) | `getMostFrequentWords`, app.js:71-81 | records in key order, a stable ascending sort by count, `slice(-limit)`, and a fold back into an object |
| `Edges` (`edges.dfy`) | `getEdges` and `addConnection`, app.js:83-101 | the pair-counting loop and the `for-in` pruning loop as methods, each proved equal to a fold |
| `Links` (`links.dfy`) | `getLinks`, app.js:103-115 | the nested `for-in` loops as a method, proved equal to a fold |
| `Hover` (`hover.dfy`) | `getClass`, app.js:154-158 | `selected`, `related` + `min(8, round(sqrt(count)))`, or `plain` |
| `Analyzer` (`analyzer.dfy`) | `processText`, app.js:37-55 and 150-151 | the whole pipeline, the node list (app.js:43-48) and the classes of all nodes |

Two behaviours of the code differ from what other descriptions of this
program say. The model follows the code in both:

- **Empty tokens are kept and counted.** A leading or trailing delimiter
  gives an empty piece, and so does the empty text. `""` is then counted like
  any other word (app.js:59, app.js:64-67). The counts therefore add up to
  the number of all tokens, empty ones included.
- **A limit of 0 keeps everything.** `slice(-0)` is `slice(0)`, so a
  `wordLimit` or `relatedWordsLimit` of 0 keeps the whole table; it does not
  give an empty one (app.js:77).

Hovering over the node of the empty word selects that node. It never marks
other nodes as related, because `word && ...` treats `""` as false (app.js:156).

The loops of the source are methods whose `ensures` ties the result to a
function: `GetWordFrequencies`, `CountPairs` (the first loop of `getEdges`),
`GetEdges` and `GetLinks`. `ProcessText` is the method that composes them, and
its `ensures` ties the graph it builds to the function `Analyze`. The
properties the source promises are then proved as lemmas about those
functions. `parseText`,
`getMostFrequentWords` and `getClass` are expression chains in the source,
and they are functions here.

## Model

| member | source | states |
|---|---|---|
| Dicts.Empty | app.js:63 | `{}` is a well-formed object with no properties |
| Dicts.Lookup | app.js:66 | `d[k] \| 0`: the value of `k`, or 0 when `k` is not a property; defined by its body, used by every count below |
| Dicts.Put | app.js:66 | `d[k] = v`: defined by its body (a new key goes last, an existing key keeps its place); its properties are `PutValid` and `SumPut` |
| Dicts.PutValid | app.js:66 | assigning a property keeps every property enumerated exactly once |
| Dicts.SumPut | app.js:66 | assigning `v` to `d[k]` changes the sum of the values by `v - (d[k] \| 0)` |
| Tokenizer.LowerChar | app.js:59 | on the characters a piece can hold, `toLowerCase` turns each upper-case letter `Upper[k]` into its lower-case letter `Lower[k]` and leaves every other character as it is, so every character of `[A-Za-z0-9]` becomes one of `[a-z0-9]` |
| Tokenizer.ToLowerCase | app.js:59 | on the characters a piece can hold, lower-casing keeps the length, turns each upper-case letter into its own lower-case letter, changes no other character, and so turns a piece of `[A-Za-z0-9]` into one of `[a-z0-9]` |
| Tokenizer.LowerCharSame | app.js:59 | two characters of `[A-Za-z0-9]` lower to the same character exactly when they are equal or the same letter in the two cases |
| Tokenizer.SameTokenIgnoringCase | app.js:59 | two pieces give the same token exactly when they have the same length and agree letter by letter ignoring case: `The` and `the` are one word, `Apple` and `Bpple` are two |
| Tokenizer.ToLowerCaseIdempotent | app.js:59 | lower-casing a lower-cased piece changes nothing |
| Tokenizer.Split | app.js:59 | `split` yields at least one piece, and a text that starts with a delimiter starts with an empty piece |
| Tokenizer.SplitInterleave | app.js:59 | putting the delimiter runs back between the pieces restores the text, and there is one more piece than runs |
| Tokenizer.SplitPiecesAreWords | app.js:59 | every piece consists of characters of `[A-Za-z0-9]` only |
| Tokenizer.DelimiterRunsAreDelimiters | app.js:59 | every run is non-empty and consists of characters outside `[A-Za-z0-9]` only |
| Tokenizer.SplitInteriorNonEmpty | app.js:59 | no piece between two runs is empty, so the runs are maximal |
| Tokenizer.SplitRoundTrip | app.js:59 | the facts above together, which characterise `split` |
| Tokenizer.ParseText | app.js:58-60 | `split` then `toLowerCase` on every piece; defined by its body, its properties are `ParseTextTokens` |
| Tokenizer.ParseTextTokens | app.js:58-60 | every token is `[a-z0-9]*` (possibly empty), and the token count is the number of maximal delimiter runs plus one |
| Frequencies.GetWordFrequencies | app.js:62-69 | the loop computes the fold of `result[word] = 1 + (result[word] \| 0)` over the tokens |
| Frequencies.FrequenciesValid | app.js:63-67 | every intermediate table is a well-formed object |
| Frequencies.FrequenciesOccurrences | app.js:64-67 | after `n` tokens the keys are the distinct tokens seen so far, and each count is that word's number of occurrences among them |
| Frequencies.FrequenciesOrder | app.js:64-67 | keys are enumerated in the order of the words' first occurrences |
| Frequencies.FrequenciesSum | app.js:64-67 | after `n` tokens the counts add up to `n` |
| Frequencies.WordFrequenciesCount | app.js:62-69 | the keys are exactly the distinct tokens; each count equals the token's number of occurrences and is at least 1; the counts sum to the number of tokens |
| TopWords.EntriesMembers | app.js:72-76 | the records list the keys in enumeration order, one per key, with distinct words, and a record is present exactly when it pairs a property with its value |
| TopWords.Insert | app.js:77 | one insertion step of the sort; defined by its body, its properties are `InsertSorted` and the lemmas about `SortByCount` |
| TopWords.SortByCount | app.js:77 | the stable ascending sort by count; defined by its body, its properties are `SortPermutation`, `SortSorted` and `SortStable` |
| TopWords.KeptEntries | app.js:77 | the sorted records from `slice(-limit)` on; defined by its body, its properties are `KeptFacts` and `KeptPosition` |
| TopWords.Collect | app.js:77-80 | the `reduce` into `{}` builds a well-formed object |
| TopWords.GetMostFrequentWords | app.js:71-81 | the result is a well-formed object |
| TopWords.SortPermutation | app.js:77 | the sort is a permutation of the records |
| TopWords.SortSorted | app.js:77 | the sort orders the records by ascending count |
| TopWords.SortStable | app.js:77 | the sort keeps the relative order of records with equal counts |
| TopWords.KeptFacts | app.js:77-80 | the result lists the kept records' words in order, with their counts |
| TopWords.KeptPosition | app.js:77 | a word is kept exactly when its record is at or after the slice start in the sorted order |
| TopWords.TopWordsSubmap | app.js:71-81 | the result is a submap of the input with the original counts |
| TopWords.TopWordsSize | app.js:71-81 | the result has `min(limit, \|table\|)` entries, or the whole table when `limit` is 0 |
| TopWords.TopWordsWhole | app.js:77 | with `limit` 0, or a limit of at least the table size, the result is the whole table |
| TopWords.TopWordsByCount | app.js:77 | every kept count is at least every dropped count |
| TopWords.TopWordsTies | app.js:77 | among equal counts the later keys are kept; a kept earlier key beats a dropped later key strictly |
| TopWords.TopWordsAscending | app.js:77-80 | the result enumerates its words by ascending count |
| Edges.CountPairs | app.js:84-89 | the first loop computes the fold of `addConnection` over the adjacent pairs whose two words both have a positive count in the top table |
| Edges.GetEdges | app.js:83-101 | the whole function: counting, then each row in enumeration order replaced by its `relatedWordsLimit` most frequent followers |
| Edges.AddConnection | app.js:95-100 | `addConnection`: defined by its body; its properties are `AddConnectionShape`, `AddConnectionValid` and `AddConnectionAt` |
| Edges.AddConnectionShape | app.js:95-100 | `addConnection` creates the row of `word1` after all existing rows when it is missing, and replaces only that row |
| Edges.AddConnectionValid | app.js:95-100 | `addConnection` keeps the object and every row well-formed |
| Edges.AddConnectionAt | app.js:95-100 | `addConnection(word1, word2)` adds 1 to `result[word1][word2]` and changes no other pair; a pair becomes present exactly when it was present or is `(word1, word2)` |
| Edges.AddConnectionEffect | app.js:95-100 | the above for all pairs at once |
| Edges.RawEdgesValid | app.js:85-89 | while counting, every row is non-empty, every count is at least 1, and every object is well-formed |
| Edges.AddPositive | app.js:95-100 | `addConnection` keeps rows non-empty and counts positive |
| Edges.RawEdgesCount | app.js:85-89 | before pruning, `result[a][b]` is the number of indices `i >= 1` with `words[i-1] == a` and `words[i] == b` when both are top words, and absent otherwise |
| Edges.PruneKeys | app.js:90-92 | the `for-in` loop keeps the keys and their order |
| Edges.PruneValue | app.js:90-92 | after `j` iterations the first `j` rows are cut down and the rest are untouched |
| Edges.PruneRows | app.js:90-92 | after the loop every row is `getMostFrequentWords(row, relatedWordsLimit)` of the counted row |
| Edges.RawPairAt | app.js:85-89 | a pair is counted exactly when both words are top words and the pair occurs, and then with its number of occurrences |
| Edges.EdgesShape | app.js:83-101 | the result has the counted rows, in the same order, each non-empty and well-formed |
| Edges.EdgePairAt | app.js:83-101 | every pair kept in the result joins two top words, with its number of occurrences (at least 1) |
| Edges.EdgesCounts | app.js:83-101 | all of the above about keys, rows and counts, for all pairs |
| Edges.EdgesOuterKeys | app.js:85-92 | a word has a row exactly when it is a top word directly followed at least once by a top word |
| Edges.EdgesRowSize | app.js:91 | with a limit of at least 1 a row keeps at most `limit` followers; with 0, or when the row is small enough, it is kept whole |
| Edges.EdgesRowByCount | app.js:91 | a kept follower occurs at least as often as any dropped follower |
| Links.Strength | app.js:110 | `count / 1000`; defined by its body, the strength of every link is stated in `LinksSound` and `LinksMembers` |
| Links.GetLinks | app.js:103-115 | the nested loops compute, row by row and follower by follower, one record `{source, target, strength}` per pair |
| Links.RowLinksAt | app.js:106-112 | the `i`-th record of a row points at the row's `i`-th follower, with that follower's strength |
| Links.LinksSound | app.js:105-112 | every record comes from a listed follower of an already visited row, with `strength = count / 1000` |
| Links.LinksComplete | app.js:105-112 | every listed follower of a visited row has its record |
| Links.LinksMembers | app.js:103-115 | there is a record exactly for every stored pair, with `strength = edges[source][target] / 1000` |
| Links.RowLinksDistinct | app.js:106-112 | the records of one row start at the row's word and join distinct pairs |
| Links.LinksUpToDistinct | app.js:105-113 | no two records join the same pair |
| Links.LinksUpToLength | app.js:105-113 | the number of records is the sum of the row sizes |
| Links.LinksOnePerPair | app.js:103-115 | exactly one record per stored pair: no duplicates, with as many records as stored pairs, which is the sum of the row sizes |
| Hover.RoundSqrt | app.js:156 | `Math.round(Math.sqrt(n))` is the `r` with `(2r-1)^2 < 4n < (2r+1)^2` |
| Hover.RoundSqrtUnique | app.js:156 | only one integer lies in that bracket |
| Hover.RoundSqrtOfSquare | app.js:156 | the rounded root of `k*k` is `k` |
| Hover.RoundSqrtMonotone | app.js:156 | a larger count never gets a smaller rounded root |
| Hover.Tier | app.js:156 | `min(8, round(sqrt(count)))` is at most 8, and at least 1 for a count of at least 1 |
| Hover.TierSaturates | app.js:156 | the tier is 8 exactly for counts of 57 and above |
| Hover.GetClass | app.js:154-158 | `selected` exactly when the hovered word is the node's word, even over a self-loop; `related` exactly when a different, non-empty hovered word has an outgoing edge to the node, with the tier of that edge's count; `plain` otherwise |
| Hover.NothingHovered | app.js:148-157 | with no word under the mouse the class is `plain` |
| Hover.EmptyWordHovered | app.js:155-157 | hovering over `""` selects only the `""` node and relates nothing |
| Hover.RelatedTier | app.js:156 | over a positive count the class is `related` with a tier in 1..8, and a follower with a higher count never has a lower tier |
| Analyzer.Analyze | app.js:37-55 | the graph `processText` builds: nodes, edges and links of the parsed text; defined by its body, its properties are the `Analyzer` lemmas below |
| Analyzer.ProcessText | app.js:37-55 | the pipeline computes nodes, edges and links as the composition of the functions above |
| Analyzer.Nodes | app.js:43-48 | the node list: one record per kept word; defined by its body, its properties are `NodesFacts`, `NodesAreTokens`, `NodeCount`, `NodesAscending` and `NodesMostFrequent` |
| Analyzer.NodesFacts | app.js:43-48 | node `i` is the `i`-th kept word with its count, the node words are exactly the kept words, and they are distinct |
| Analyzer.DistinctTokens | app.js:62-69 | there are as many counted words as distinct tokens |
| Analyzer.NodesAreTokens | app.js:40-48 | every node is a distinct token whose count is its number of occurrences, which is at least 1 |
| Analyzer.NodeCount | app.js:42-48 | there are `wordLimit` nodes, or one per distinct token when `wordLimit` is 0 or at least the number of distinct tokens |
| Analyzer.NodesAscending | app.js:42-48 | the nodes are listed by ascending count |
| Analyzer.NodesMostFrequent | app.js:42-48 | no token left out occurs more often than any node's word |
| Analyzer.AnalyzeLinks | app.js:49-55 | every link joins two node words that occur next to each other, with strength equal to that number of occurrences over 1000; links have no duplicates and there is one per stored pair |
| Analyzer.NodeClasses | app.js:150-151 | one class per node, in node order; defined by its body, its properties are `AnalyzeClasses` and `NothingHoveredAllPlain` |
| Analyzer.AnalyzeClasses | app.js:150-158 | at most one node is selected, and it is the node of the hovered word; every related tier is in 1..8 |
| Analyzer.NothingHoveredAllPlain | app.js:148-157 | with nothing under the mouse every node is plain |

## Left out

- File loading, the bundled-text fetch, the `alert` and the event listeners (app.js:11-32) are left out. They are browser I/O, so `ProcessText` takes the text and both limits as parameters.
- The d3 force simulation, its forces, `tick`, `stop` and `simulation.find` (app.js:35, 51-56, 147) are left out. They are floating-point physics inside a library that is not part of this model. The hovered word is an input `Option<string>`, which is `None` when `find` returns nothing.
- `draw` and the DOM updates (app.js:117-141) are left out because they are rendering. The `attr('class', getClass)` calls (app.js:150-151) are modelled only as the list `NodeClasses`.
- The node radius `scale * Math.log(count)` (app.js:46) and the `scale` input (app.js:39) are left out because they are floating point. A `Node` keeps the word and its count.
- Parsing the form values with unary `+` (app.js:37-39) is left out. The limits are natural numbers; NaN and negative limits are not modelled.
- Dicts: inherited properties of JS objects are not modelled. No token can be `__proto__` or another name with `_` in it, since `_` is a delimiter, nor a camel-case name such as `hasOwnProperty`, since tokens are lower-cased; so the only inherited name of a plain object a token can take is `constructor`. Counting (`| 0`, app.js:66, 99), the `hasOwnProperty` test of `addConnection` (app.js:96) and the `> 0` test on the top table (app.js:86) all treat an inherited `constructor` like a missing property, as the model does. The one place it differs is `getClass` (app.js:156): when no row belongs to the word `constructor`, `edges.constructor` is the `Object` function, so hovering over `constructor` marks its node as selected and the nodes whose words are properties of that function as related: `length` with tier 1, and `name`, `prototype`, `keys` and the like with the class `relatedNaN`. The model gives all of those nodes `plain`.
- Dicts: `Object.keys` and `for-in` enumerate integer-like keys (such as `"42"`) first, in numeric order. The model enumerates every key in insertion order. `Frequencies.FrequenciesOrder`, `TopWords.TopWordsTies`, `TopWords.TopWordsAscending`, `TopWords.KeptFacts`, `Edges.AddConnectionShape`, `Analyzer.NodesAscending` and the link order therefore hold as stated only for texts without integer-like tokens. For the text `"1 1 1 a"`, for example, `Object.keys` of the kept words gives `["1", "a"]`, so the nodes come out with counts 3 then 1, not in ascending order (app.js:43, 77-80). The enumeration order also decides which word wins a tie, so `Analyzer.Analyze`, `Analyzer.ProcessText` and `Edges.GetEdges` describe the browser's result only for such texts as well. For the text `"a 1"` with a `wordLimit` of 1, for example, the browser lists `["1", "a"]`, and `slice(-1)` keeps `a`; the model lists `["a", "1"]` and keeps `1` (app.js:72-77, 91).
- Dicts.Lookup: `d[k] | 0` (app.js:66, 99) converts to a 32-bit integer, so a count of 2^31 or more would wrap; the model's counts are unbounded `nat`s. No count can get that large, because a browser string is far too short to hold 2^31 tokens.
- Tokenizer.ToLowerCase: only the characters of `[A-Za-z0-9]` are modelled. JS `toLowerCase` also lowers non-ASCII letters, but `ParseText` only applies it to pieces of `[A-Za-z0-9]`.
- Hover.RoundSqrt: computed exactly on integers, not with floating point. For integer counts `sqrt` is never exactly half-way between two integers, so the two agree for every count far below 2^52.
- Links.Strength: `count / 1000` is an exact Dafny `real`, not a rounded double.
- Hover.GetClass: `edges[word]` being truthy is modelled as "a row exists". Every row is an object and therefore truthy.
