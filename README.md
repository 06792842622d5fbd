# Study Guru text heuristics, modelled in Dafny

Study Guru is a client-only study app. The user uploads `.txt` and `.pdf` notes under
subjects, and the app answers questions from them with simple text heuristics.
This project models that engine in `script.js` and the note collection it works on.

- **Tokenizer.** `tokenize` lower-cases, blanks out everything outside
  `[a-z0-9\s]`, splits on whitespace and drops short words and stop-words. The
  stop-word check is a plain-object lookup, so `constructor` is dropped too.
- **Keywords.** The frequency table is built with `forEach`. `Object.keys` yields
  array-index keys first, in ascending numeric order, then the other keys in
  creation order. The stable descending sort then takes the top 12.
- **Sentence splitter.** `split(/[.?!]\s+/).map(trim).filter(Boolean)`, which the
  source repeats inline in four places.
- **Summarisers.** `makeShortNotes` scores each sentence by the note's keywords it
  contains plus its length. `makeShortTextSummary` scores by word frequency over
  the square root of the length. `generateShortNotesAll` pools the notes.
- **Retriever.** `generateFromNotes` has three outcomes: no notes, found points, or
  a fallback summary. They are a datatype, and a renderer gives each one its
  message prefix.
- **Quiz.**
  - Sentences with more than five space-separated parts are eligible.
  - At most seven are drawn, in shuffled order.
  - A multiple-choice question takes a random long word as its key. It blanks the
    first case-insensitive whole-word match and builds up to four distinct options
    in a distractor loop.
  - Grading and the percent and progress arithmetic follow the source.
- **Collection.** A `Session` class holds `state.notes`, `state.subjects` and the
  progress bar. It has upload, delete, create-subject and after-test methods.
- **Escapers.** `escapeHtml` and `escapeRegExp`, each proved against an inverse.

Randomness is injected. Every `Math.random()` index pick is a given `nat` taken
modulo the length. Every `shuffleArray` call is an insertion sort on an `array`,
driven by a given sequence of comparator outcomes. Scores are compared in exact
integer or rational forms. These order sentences as the exact scores do; where
rounding separates scores that are exactly equal, the source may order them
differently.

The modules are `Wrappers`, `Seqs`, `Text`, `Tokenizer`, `Ranking`, `Sentences`,
`Notes`, `Keywords`, `Summarize`, `Retriever`, `Escape`, `Quiz` and `Collection`,
one file each.

## Model

| member | source | states |
|---|---|---|
| Tokenizer.Normalize | script.js:299 | each character is lower-cased, and anything but `[a-z0-9]` or whitespace becomes a space; the length is kept |
| Tokenizer.PrototypeQuirk | script.js:299-303 | for a lower-case alphanumeric word, the stop-word lookup hits exactly the table's 17 entries and `constructor` |
| Tokenizer.InheritedNamesHaveCapitals | script.js:299-303 | no inherited `Object.prototype` name except `constructor` is a lower-case alphanumeric word |
| Tokenizer.TokenShape | script.js:298-303 | every token is longer than two characters, is made of `[a-z0-9]` only, and is neither a stop-word nor `constructor` |
| Tokenizer.TokenAt | script.js:298-300 | a word is a token exactly when it passes the length and stop-word filter and is a maximal non-whitespace run of the normalized text |
| Tokenizer.NoAlnumNoTokens | script.js:298-300 | text without ASCII letters or digits, such as empty or whitespace-only text, has no tokens |
| Tokenizer.NormalizePlain | script.js:299 | normalizing leaves lower-case letters, digits and spaces alone |
| Tokenizer.SplitRunsFrom | script.js:299 | every character of a piece of a whitespace split occurs in the split text |
| Tokenizer.SplitJoined | script.js:299 | splitting words joined by single spaces gives back exactly the words |
| Tokenizer.TokenizeJoined | script.js:298-300 | lower-case words separated by single spaces tokenize to the words the length and stop-word filter keeps, in order and with repetitions |
| Tokenizer.TokenizeExample | script.js:298-300 | `"cat cat dog"` tokenizes to `["cat","cat","dog"]` |
| Text.Lower | script.js:299 | `toLowerCase` keeps the length |
| Text.TrimStart | script.js:343 | the result is a suffix of the input, everything dropped is whitespace, and the result does not start with whitespace |
| Text.TrimEnd | script.js:343 | the result is a prefix of the input, everything dropped is whitespace, and the result does not end with whitespace |
| Text.Trim | script.js:343 | a non-empty trimmed string starts and ends with a non-space |
| Text.TrimTrimmed | script.js:343 | a string whose ends are not whitespace is left as it is |
| Text.TrimBounds | script.js:343 | `trim` returns a slice `s[a..b]` with only whitespace outside it |
| Text.FindFirst | script.js:299 | the first position at or after `from` whose character is in the class, or the length when there is none |
| Text.SkipRun | script.js:299 | the end of the maximal run of class characters starting at `from` |
| Text.SplitRuns | script.js:299 | `split(/P+/)` has at least one piece, and no piece holds a separator character; SplitRunsRebuild and SplitRunsPieceAt give the content |
| Text.SplitRunsRebuild | script.js:299 | the pieces, with non-empty separator runs put back between them, rebuild the string, and only the first and last piece can be empty |
| Text.SplitRunsPieceAt | script.js:299 | every piece is a stretch of the string without separators, bordered on each side by a separator or an end |
| Text.PieceAtSplit | script.js:299 | every non-empty stretch without separators that is bordered by separators or ends is a piece |
| Text.SplitRunsWords | script.js:277 | the non-empty pieces, with the separator runs before, between and after them put back, rebuild the string; only the outer runs can be empty |
| Text.SplitRunsAllSeparators | script.js:299 | a string made only of separators splits into empty pieces |
| Text.SplitRunsWord | script.js:299 | a string without separators is a single piece |
| Text.SplitRunsCons | script.js:299 | a word, one separator and a rest not starting with one split into the word followed by the rest's pieces |
| Text.SplitOnCharLength | script.js:386 | `s.split(c).length` is one more than the number of occurrences of c |
| Seqs.Filter | script.js:299 | `filter` keeps exactly the elements satisfying the predicate, and no more elements than the input has |
| Seqs.FilterAppend | script.js:299 | filtering a sequence with one more element appends that element exactly when it passes |
| Seqs.FilterAll | script.js:299 | when every element passes, the filter changes nothing |
| Seqs.FilterNone | script.js:299 | when no element passes, the filter is empty |
| Seqs.Take | script.js:311 | `slice(0, n)` is the prefix of length min(n, length) |
| Seqs.Dedup | script.js:309-310 | the keys of a frequency table are exactly the distinct tokens, without duplicates |
| Seqs.FirstIndex | script.js:309 | the first position holding x |
| Seqs.FirstIndexPrefix | script.js:309 | appending an element does not move an earlier first occurrence |
| Seqs.DedupFirstOccurrence | script.js:309-310 | the distinct tokens come in the order of their first occurrence |
| Seqs.NoDuplicatesCount | script.js:309 | in a sequence without duplicates every element occurs at most once |
| Seqs.PermutationNoDuplicates | script.js:415 | a permutation of a sequence without duplicates has none |
| Seqs.NoDuplicatesCard | script.js:310 | a sequence without duplicates has as many elements as its set |
| Seqs.FilterNoDuplicates | script.js:310 | filtering keeps a sequence free of duplicates |
| Seqs.PositionsLength | script.js:310 | there are as many passing positions as filtered elements |
| Seqs.PositionsMap | script.js:310 | the k-th passing position holds the k-th filtered element |
| Seqs.PositionsIncreasing | script.js:310 | passing positions are strictly increasing |
| Seqs.FirstIndexAt | script.js:310 | in a sequence without duplicates, the element at m is first found at m |
| Seqs.FilterOrder | script.js:310 | filtering a sequence without duplicates keeps the relative order of first occurrences |
| Seqs.FilterOrderAfter | script.js:310 | the same for the filtered part of a concatenation, at offset positions |
| Seqs.FlatMapAppend | script.js:279-285 | the nested loop over a concatenated pool gives the concatenated matches |
| Seqs.FlatMapSource | script.js:279-285 | every collected element comes from some source element |
| Seqs.FlatMapComplete | script.js:279-285 | every element of some source's image is collected |
| Seqs.FlatMapSnoc | script.js:279-285 | one more iteration of the outer loop appends that element's image |
| Ranking.Insert | script.js:310 | inserting an index into a ranked list adds exactly that index |
| Ranking.InsertOrdered | script.js:310 | insertion keeps the list in descending key order, earlier positions first on ties |
| Ranking.RankPrefix | script.js:310 | ranking the first n positions yields each of them once |
| Ranking.Rank | script.js:310 | the ranking is a permutation of all positions |
| Ranking.RankPrefixOrdered | script.js:310 | the ranking of a prefix is in stable descending order |
| Ranking.RankOrdered | script.js:310 | the stable descending sort: greater keys first, and equal keys in their original order |
| Ranking.Top | script.js:310-311 | the top n positions of the sorted list are valid positions |
| Ranking.TopProperties | script.js:310-311 | `sort(...).slice(0, n)` gives min(n, length) distinct positions in stable descending key order, and no position left out has a greater key than one kept |
| Ranking.Select | script.js:311 | selecting by positions gives the items at those positions |
| Ranking.SortByKey | script.js:310 | the sort keeps the length |
| Ranking.SortByKeyPermutes | script.js:310 | the sort keeps the same elements, and keeps them distinct |
| Ranking.Keys | script.js:310 | the key of each item is the score function applied to it |
| Ranking.TopByProperties | script.js:310-311 | the top n items are the items at min(n, length) distinct positions, best first, stable on ties, and none left out beats one kept |
| Ranking.TopByAll | script.js:310-311 | when n covers all items, the top n are all the items |
| Ranking.TopByDistinct | script.js:310-311 | for distinct items, the top n are min(n, length) distinct items, and all of them when fewer than n are kept |
| Keywords.FrequenciesAppend | script.js:309 | one more token raises its count by one and leaves the other counts alone |
| Keywords.CountTokens | script.js:308-309 | the `forEach` loop builds the table of token counts, with its keys in creation order |
| Keywords.ArrayIndexInjective | script.js:310 | two array-index keys with the same numeric value are the same key |
| Keywords.IndexKeysProperties | script.js:310 | the array-index keys are exactly the canonical numerals below 2^32 - 1, in strictly ascending numeric order |
| Keywords.PropertyOrderPermutes | script.js:310 | `Object.keys` lists each property exactly once |
| Keywords.PropertyOrderOrdered | script.js:310 | `Object.keys` lists array-index keys before the others, those in ascending numeric order and the others in creation order |
| Keywords.IndexPair | script.js:310 | the ordering between two array-index keys |
| Keywords.MixedPair | script.js:310 | the ordering between an array-index key and a named key |
| Keywords.TopKeywordsChosen | script.js:310-311 | the top n keywords are min(n, number of distinct tokens) distinct tokens, and all of them when fewer than n are kept |
| Keywords.TopKeywordsRanked | script.js:310-311 | keywords come in non-increasing count order, and no token left out occurs more often than one kept |
| Keywords.TopKeywordsTies | script.js:310 | keywords with equal counts come numeric ones first, ascending, then the others in order of first occurrence |
| Keywords.KeywordsFromText | script.js:492-497 | `generateKeywordsForAllFromText(text)` is the top 12 keywords of the tokens |
| Keywords.GenerateKeywords | script.js:305-312 | `generateKeywords(note)`: the sentinel without text, otherwise the top 12 of its tokens |
| Keywords.NoteKeywordsSentinel | script.js:306 | `['(no parsable text)']` is returned exactly for notes that are not text notes with content |
| Keywords.KeywordsForAll | script.js:527-531 | the effective `generateKeywordsForAll()`: `[]` for an empty pool, else the top 12 of the space-joined contents |
| Keywords.AllKeywordsEmpty | script.js:527-531 | the pooled keywords are empty exactly when the pool has no tokens, in particular when no note has text |
| Keywords.AllKeywordsShape | script.js:527-531 | at most 12 distinct pooled keywords, each a token of the pool longer than two |
| Keywords.ExampleCounts | script.js:309 | the counts of `cat`, `cat`, `dog` |
| Keywords.ExampleMembers | script.js:310-311 | the keywords of `cat`, `cat`, `dog` are `cat` and `dog` |
| Keywords.ExampleOrder | script.js:310 | `dog` does not come first |
| Keywords.ExampleTokens | script.js:310-311 | the keywords of `cat`, `cat`, `dog` are `["cat","dog"]` |
| Keywords.KeywordsExample | script.js:305-311 | `"cat cat dog"` gives `["cat","dog"]` |
| Notes.KindOfName | script.js:158 | a note is a text note exactly when its lower-cased name ends with `.txt` |
| Notes.KindOfNameExamples | script.js:158 | `Bio.TXT` is text, `slides.pdf` and `txt` are not |
| Notes.TextNotes | script.js:528 | the notes kept are exactly the text notes with content |
| Notes.Contents | script.js:528 | `map(n => n.content)` |
| Notes.JoinEmpty | script.js:529 | with a non-empty separator, a join is empty exactly for no parts or one empty part |
| Notes.TextPoolEmpty | script.js:528-529 | the pooled text is empty exactly when no note has text |
| Sentences.FindBreak | script.js:343 | the leftmost match of `/[.?!]\s+/` at or after `from` |
| Sentences.Pieces | script.js:343 | the split has at least one piece |
| Sentences.PiecesReassemble | script.js:343 | the pieces with the matched separators between them are the text, so the split loses and reorders nothing |
| Sentences.SeparatorsShape | script.js:343 | every separator is one terminal mark followed by whitespace |
| Sentences.PiecesShape | script.js:343 | no piece holds a terminal mark followed by whitespace, and no later piece starts with whitespace |
| Sentences.PiecesStart | script.js:343 | the first piece is a prefix of the text |
| Sentences.TrimAll | script.js:343 | `map(s => s.trim())` |
| Sentences.NoBreakSlice | script.js:343 | a slice of a piece without a break has none |
| Sentences.SentenceShape | script.js:343 | every sentence is non-empty, trimmed and holds no terminal mark followed by whitespace |
| Sentences.TrimmedPieceNoBreak | script.js:343 | trimming a piece keeps it free of breaks |
| Sentences.PiecesLast | script.js:343 | a last piece keeps its terminal mark |
| Sentences.PiecesFirst | script.js:343 | a mark and a space after a first word end that piece |
| Sentences.PiecesExample | script.js:343 | for any non-space characters a, b and c, `"a. b! c?"` splits into the pieces `a`, `b` and `c?` |
| Sentences.TrimAllTrimmed | script.js:343 | trimming and dropping empty strings leaves trimmed non-empty pieces unchanged |
| Sentences.SplitExample | script.js:343 | for any non-space characters a, b and c, `"a. b! c?"` gives the sentences `a`, `b` and `c?`: the last one keeps its mark |
| Sentences.SplitTrimmed | script.js:343 | when every piece is non-empty and trimmed, the sentences are the pieces |
| Summarize.HitsCount | script.js:330 | the keyword hits count exactly the keywords that the lower-cased sentence contains |
| Summarize.NoteScoreScaled | script.js:330 | the exact score divided by 60 is `2·hits + min(4, len/60)` |
| Summarize.ShortNotes | script.js:324-334 | `makeShortNotes(note)` is the sentinel or the rendered top sentences |
| Summarize.NotePickProperties | script.js:327-333 | at most 5 of the note's sentences are kept, best score first, equal scores in text order, and none left out scores higher than one kept |
| Summarize.NoteSummarySentinel | script.js:325 | `'(no parsable text in this note)'` is returned exactly for notes without text |
| Summarize.ShortTextSummary | script.js:342-355 | `makeShortTextSummary(text, max)`, with the counts built by the `forEach` loop |
| Summarize.SummaryPickAll | script.js:344 | with at most max sentences, all are kept in text order |
| Summarize.SummaryPickRanked | script.js:346-354 | with more, exactly max are kept, best key first, stable on ties, and none left out has a higher key than one kept |
| Summarize.RenderEndsWithStop | script.js:354 | a rendered summary ends with `.` |
| Summarize.ShortNotesAll | script.js:336-340 | `generateShortNotesAll()`: the sentinel for an empty pool, else the 8-sentence summary |
| Summarize.AllShortNotesSentinel | script.js:337-338 | `'(no parsable txt notes)'` is returned exactly when no note has text |
| Retriever.Scope | script.js:274 | the pool is exactly the text notes of the chosen subject, or all of them |
| Retriever.QueryWords | script.js:277 | the query words are non-empty runs of `\w` characters; QueryWordsRebuild and QueryWordAt give them exactly |
| Retriever.QueryWordsRebuild | script.js:277 | the query words, with the `\W` runs around and between them put back, rebuild the lower-cased query, and only the outer runs can be empty |
| Retriever.QueryWordAt | script.js:277 | a word is a query word exactly when it is a non-empty maximal `\w` run of the lower-cased query |
| Retriever.CollectMatches | script.js:281-284 | the inner loop appends the matching sentences of one note |
| Retriever.CollectPool | script.js:278-285 | the nested loops collect the matches of the whole pool |
| Retriever.GenerateFromNotes | script.js:272-295 | `generateFromNotes(q, subject)` gives the modelled answer |
| Retriever.NoteMatchesExact | script.js:281-284 | a note contributes exactly its sentences that contain a query word, tagged with its name |
| Retriever.PoolMatchesAppend | script.js:279-285 | the matches of a concatenated pool are concatenated |
| Retriever.PoolMatchesSnoc | script.js:279-285 | one more note appends its matches |
| Retriever.MatchSource | script.js:279-285 | every match is a sentence of a pool note with that name and contains a query word |
| Retriever.MatchComplete | script.js:279-285 | every sentence of a pool note that contains a query word is a match |
| Retriever.SomeMatch | script.js:287 | when there are matches, some pool sentence contains a query word |
| Retriever.RetrieveNoNotes | script.js:275 | the no-notes answer comes exactly when no note is in scope, and it names the subject |
| Retriever.RetrieveFound | script.js:287-290 | points are returned exactly when some sentence in scope contains a query word |
| Retriever.RetrievePoints | script.js:288 | exactly min(4, matches) points, the first matches in note-then-sentence order, each containing a query word and tagged with its note's name |
| Retriever.RetrieveFallback | script.js:292-294 | otherwise the answer is the 4-sentence summary of the contents joined with blank lines |
| Retriever.Bullets | script.js:288 | one bullet per point |
| Retriever.MessagePrefixes | script.js:275-294 | each of the three messages starts with its own prefix, and only with that one |
| Escape.EntityOf | script.js:522 | each special character maps to an entity starting with `&`, and every other character to itself |
| Escape.UnescapeEntity | script.js:522 | the escape of any character, the five entities and plain characters alike, reads back as that character, whatever markup follows |
| Escape.EntityRead | script.js:522 | each of the five entities is recognised at the head of any markup as the character it stands for, with its full length |
| Escape.HtmlRoundTrip | script.js:522 | reading escaped text back gives the original |
| Escape.EntityEscaped | script.js:522 | an escape followed by escaped markup is escaped markup |
| Escape.EscapeHtmlEscaped | script.js:522 | everything `escapeHtml` produces is escaped markup |
| Escape.EscapeCons | script.js:522 | escaping works character by character |
| Escape.EscapedHead | script.js:522 | escaped markup starts with the escape of one character |
| Escape.HeadRoundTrip | script.js:522 | the round trip extends over one leading escape |
| Escape.HtmlEscapedRoundTrip | script.js:522 | escaped markup is the escape of what it reads back as, so the escaped strings are exactly the image of `escapeHtml` |
| Escape.EscapeHtmlSafe | script.js:522 | escaped text contains no `<`, `>`, `"` or `'` |
| Escape.EscapeHtmlPlain | script.js:522 | text without special characters is unchanged |
| Escape.RegExpRoundTrip | script.js:524 | dropping the quoting backslashes gives the original string |
| Escape.EscapeRegExpLiteral | script.js:524 | the escaped string quotes every metacharacter, and each of its backslashes quotes one |
| Escape.RegExpLiteralRoundTrip | script.js:524 | such a literal pattern is the escape of the string it matches |
| Quiz.EligibleSpaces | script.js:386 | a sentence is eligible exactly when it holds at least five spaces |
| Quiz.TestPool | script.js:373-377 | the pool is exactly the text notes with content, of the chosen subject in single mode |
| Quiz.Tag | script.js:386 | each sentence tagged with the note's subject |
| Quiz.TagSnoc | script.js:386 | tagging one more sentence appends one item |
| Quiz.CandidatesExact | script.js:383-387 | an item is a candidate exactly when it is an eligible sentence of a pool note, tagged with that note's subject |
| Quiz.EligibleSnoc | script.js:386 | one more sentence appends its item exactly when it is eligible |
| Quiz.CollectEligible | script.js:386 | the inner loop appends the eligible sentences of one note |
| Quiz.CollectSentences | script.js:383-387 | the nested loops collect exactly the candidates |
| Quiz.ShuffleInPlace | script.js:523 | `a.sort(() => Math.random() - 0.5)` permutes the array in place, and all-false comparator outcomes leave it unchanged |
| Quiz.Shuffle | script.js:523 | shuffling a copy gives a permutation |
| Quiz.LongWords | script.js:403 | the candidate keys are longer than four characters; LongWordsExact gives them exactly |
| Quiz.LongWordsExact | script.js:403 | a word is a candidate key exactly when it is longer than four characters and is a maximal non-whitespace run of the sentence |
| Quiz.PickKey | script.js:404 | a key exists exactly when there is a long word, and it is one of them |
| Quiz.FindMatch | script.js:405 | the leftmost case-insensitive, word-bounded occurrence of the key at or after `from`, or none |
| Quiz.BlankRefill | script.js:405 | without a match the sentence is unchanged; otherwise the first match is replaced by `_____` and all else is kept |
| Quiz.Picks | script.js:411 | each draw selects `poolKeys[draw mod length]` |
| Quiz.BuildOptions | script.js:408-414 | the options start with the key, are distinct, at most 4, the rest non-empty pool keywords, at most 2 for a pool under 4; if fewer than 4 from a pool of 4 or more, every drawn keyword is an option |
| Quiz.FourOptions | script.js:410-414 | with distinct non-empty pool keywords, at least 4 of them, all reached by the draws, there are exactly 4 options |
| Quiz.OptionsPermuted | script.js:415 | shuffling the options keeps the key, distinctness and their origin |
| Quiz.MakeMcq | script.js:401-422 | a multiple-choice question exists exactly when the sentence has a long word; it is well formed, and has 4 options when the draws reach a pool of 4 or more |
| Quiz.MakeQuestion | script.js:398-427 | a question of the chosen type on the sentence; it is missing only for a multiple-choice question on a sentence without a long word |
| Quiz.Items | script.js:422-426 | the sentences the questions are about |
| Quiz.SelectSentences | script.js:393-394 | `qcount = min(7, n)`, drawn from the candidates |
| Quiz.BuildQuestions | script.js:398-429 | one well-formed question per selected sentence, or the missing-key case |
| Quiz.PoolKeywords | script.js:407 | the options pool is the pooled keywords, distinct and non-empty |
| Quiz.GenerateTest | script.js:369-452 | the two "not enough data" outcomes exactly when they occur; otherwise min(7, candidates) well-formed questions drawn from the candidates |
| Quiz.Score | script.js:433-445 | the score is at most the number of questions |
| Quiz.Grade | script.js:433-445 | the grading loop counts the correct replies |
| Quiz.ScoreFull | script.js:433-445 | full marks exactly when every reply is correct |
| Quiz.ChosenOption | script.js:437 | choosing an option scores exactly when it equals the key ignoring case |
| Quiz.ShortSelf | script.js:441-443 | an answer that repeats the sentence scores exactly when the sentence has a token |
| Quiz.PercentBounds | script.js:446 | `(200·s + t) div (2t)` is `Math.round(100·s/t)`; it is in 0..100, 0 only for a score under half a percent, and 100 exactly for a full score when there are fewer than 200 questions |
| Quiz.ProgressAfterTestBounds | script.js:456-457 | the new progress is in 0..100; it is the average of the old value and the percent rounded half up, which lies between them; the same value is a fixed point |
| Quiz.NoteProgressBounds | script.js:501 | `min(100, 10·count)` lies in 0..100, reaches 100 exactly from ten notes, and grows with the count |
| Collection.Entry | script.js:156-162 | the uploaded record is a text note exactly for a `.txt` name, keeps the file text, and falls back to the subject `Other` |
| Collection.RemoveId | script.js:213 | the notes kept are exactly those with another id |
| Collection.RemoveIdAbsent | script.js:213 | deleting an id no note carries changes nothing |
| Collection.RemoveIdTwice | script.js:213 | deleting twice is deleting once |
| Collection.RemoveIdSubjects | script.js:213 | deleting adds no subject |
| Collection.DeriveSubjects | script.js:45-46 | the subjects are the four defaults and the subject of every note |
| Collection.Session.constructor | script.js:36-63 | the stored well-formed notes, or none when nothing parses; the derived subjects; the note-count progress |
| Collection.Session.Upload | script.js:155-176 | the record is appended, its subject added, and the progress follows the count |
| Collection.Session.Delete | script.js:213-214 | the notes with that id go, the others stay in order, the subjects stay |
| Collection.Session.CreateSubject | script.js:111-114 | a non-empty name is added to the subjects and nothing else changes |
| Collection.Session.Ask | script.js:272-295 | the chat answer is the modelled answer for the session's notes, with no demand beyond a valid session |
| Collection.Session.RecordTest | script.js:454-461 | the progress becomes the averaged value and nothing else changes |

## Left out

- DOM rendering, event wiring, modals, toasts and the sorted subject lists
  (script.js:7-34, 69-152, 178-229, 358-367, 464-490, 507-520) are UI. The
  subjects are modelled as a set.
- `localStorage`, `JSON.parse`/`stringify` and the export button are not modelled.
  `loadNotes` becomes an optional stored list, and any failure reads as no notes.
- The asynchronous `FileReader` is not modelled. Upload takes the file text as a
  parameter. The `Date.now()` id and timestamp are parameters too.
- The `setTimeout` chat delay and the constant `generateGlobalAnswer` reply are not
  modelled.
- The profile page's per-subject handlers (script.js:477-488) are left out. They
  only combine `makeShortTextSummary` and `generateKeywordsForAllFromText`, which are
  modelled.
- server.js is not part of this model. It forwards prompts to a hosted model API.
- Randomness is injected as given draws, and no claim about uniform distribution is made.
- Floating point is left out. Scores are compared in exact forms: the note score
  times 60, and the summary score squared, as `(Σ)²/max(1, len)`. These order
  sentences as the exact scores do. Where rounding separates scores that are
  exactly equal, the source may order them differently. For example, a 139-char
  sentence with no keyword and a 19-char sentence with one both score exactly
  139/60, and the source's doubles rank the first ahead. `Math.round` is modelled
  with exact rounding.
- Only ASCII letters are case-folded, by `toLowerCase` and by the `i` flag. Strings
  are sequences of characters, so UTF-16 surrogates are not modelled.
- `escapeHtml` on non-string inputs (`s === 0`, `String(s)`) is left out. Only
  strings are modelled.
- Quiz.BuildOptions: the distractor `while` loop in the source runs until it has four
  options. The model's loop also stops when the given draws run out. So exactly
  four options are proved only when the draws reach every keyword of a pool of four
  or more (`Quiz.FourOptions`, `Quiz.MakeMcq`).
- Quiz.MakeMcq: a sentence without a word longer than four characters makes the
  source throw, because `key` is undefined. There the model returns None, and
  `Quiz.GenerateTest` reports `KeyMissing`.
- Quiz.GenerateTest: `generateKeywordsForAll()` is called once per test, not once per
  question. It reads the same notes each time, so the value is the same.
- Retriever.GenerateFromNotes: for a text note without content, `split` throws in the
  source. The method requires every text note to carry content (`Readable`). A valid
  `Session` always meets this, so `Collection.Session.Ask` has no such demand.
- Collection.Session.constructor: requires the stored records to be well formed,
  as the ones this app saves are. A hand-edited store is not modelled.
- Summarize.SummaryPickRanked: the sort key is the square of the exact score.
  The score is non-negative, so squaring keeps the order of exact scores. Where
  floating-point rounding separates exactly equal scores (Σ=1 over 3 characters,
  Σ=3 over 27), the source may order them differently.
- The last sentence keeps its final mark, because the pattern needs whitespace after
  it: `"A. B! C?"` splits into `["A","B","C?"]`.
- Summarize.NotePickProperties: the comment at script.js:326 says four sentences,
  but the code keeps five, and the model follows the code.
- `generateKeywordsForAll` is declared twice. The later declaration, at
  script.js:527-531, is the one in effect and is the one modelled.
