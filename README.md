# Word count

A Dafny model of `perform_word_count`, the word-count pipeline of the
PySpark word-count application. A corpus is a sequence of lines. The
pipeline:

1. splits every line on runs of whitespace (`split(line, "\s+")`);
2. deletes every character outside `\w` from every token, then lowercases it;
3. drops the tokens that became empty;
4. groups the cleaned words by word and counts them (the frequency table);
5. orders the table by count, descending.

Building the DataFrame of lines fails for an empty list of lines: Spark
cannot infer a schema from no rows when only the column name is given
(wordcount/main.py:53). `Report.PerformWordCount` models that error case.
Any other list of lines, blank lines included, is counted, and the run
reports four things:

- the number of unique words (the rows of the table);
- the number of word occurrences (the rows of the cleaned stream);
- the first 20 rows of the ranked table;
- the first 10 rows of the word-frequency distribution. This is the ranked table grouped by count and counted again, in descending order of count.

The model is written as functions and lemmas. The Spark chain it follows is
declarative, so there are no loops and no mutable state to model.

Modules, in pipeline order:

- `Tokenizer` — Java-regex whitespace splitting, with its inverse (re-inserting the separators).
- `Normalizer` — deleting non-word characters, then ASCII lowercasing.
- `Words` — the cleaned word stream of a line and of a corpus.
- `Aggregator` — the frequency table `map<string, nat>`, built by a left fold, and the pointwise merge of tables.
- `Ranking` — the ranked table as a sequence of (word, count) rows.
- `Histogram` — the count-of-counts distribution as a sequence of (count, words) rows.
- `Report` — the figures displayed, and the two views cut at 20 and 10 rows.
- `Scenarios` — worked examples derived from the definitions.

Character classes are those of Java regular expressions without the Unicode
flag, which is what Spark uses:

- whitespace `\s` is `[ \t\n\x0B\f\r]`;
- word characters `\w` are `[A-Za-z0-9_]`.

After deletion only ASCII remains, so ASCII lowercasing is exact.

Spark's `split` (a Java split with limit -1) yields an empty first or last
token for a leading or trailing whitespace run, and one empty token for an
empty line (`Tokenizer.Split`, `Scenarios.EdgeTokens`); the filter at step 3
drops them.

Spark's `orderBy(col("count").desc())` does not fix the order of words with
equal counts. The model fixes one order: count descending, then word
ascending (lexicographic on characters). With that order, the ranked table
is a function of the frequency table (`Ranking.RankUnique`). Everything
proved about the ranking holds for any order Spark might choose, except the
order among equal counts and which of the tied words fill the last rows of
the top-20 view.

## Model

| member | source | states |
|---|---|---|
| Tokenizer.IsSpace | wordcount/main.py:58 | fixes the whitespace of `\s` as Java defines it without the Unicode flag: blank, tab, line feed, vertical tab, form feed, carriage return |
| Tokenizer.TokenLength | wordcount/main.py:58 | the first token ends at the first whitespace character, or at the end of the line |
| Tokenizer.SpaceEnd | wordcount/main.py:58 | a whitespace run extends as far as the whitespace does: all of it is whitespace, and the character after it is not |
| Tokenizer.Sep | wordcount/main.py:58 | the separator after the first token is a non-empty run of whitespace |
| Tokenizer.Next | wordcount/main.py:58 | the rest of the line after the first separator is shorter than the line and does not start with whitespace |
| Tokenizer.Decompose | wordcount/main.py:58 | a line containing whitespace is its first token, then a whitespace run, then the rest |
| Tokenizer.Split | wordcount/main.py:58 | the split always yields at least one token; tokens hold no whitespace; inner tokens are non-empty; the first token is empty exactly when the line is empty or starts with whitespace |
| Tokenizer.Separators | wordcount/main.py:58 | there is one separator fewer than tokens, and each separator is a non-empty whitespace run |
| Tokenizer.SplitRoundTrip | wordcount/main.py:58 | splitting loses nothing: interleaving the tokens with the separators gives back the line |
| Tokenizer.SplitLast | wordcount/main.py:58 | the last token is empty exactly when the line is empty or ends with whitespace |
| Tokenizer.TokenLengthOf | wordcount/main.py:58 | a token without whitespace, followed by whitespace or nothing, is the whole first token |
| Tokenizer.SplitBlank | wordcount/main.py:58 | a token, one blank, then a line starting with a token: the tokens are that token, then the tokens of the line |
| Tokenizer.SplitNoSpace | wordcount/main.py:58 | a line without whitespace is a single token |
| Tokenizer.SplitJoinBlank | wordcount/main.py:58 | splitting undoes joining with single blanks, when the tokens are non-empty and hold no whitespace |
| Normalizer.IsWordChar | wordcount/main.py:63 | fixes the word characters of `\w` as Java defines it without the Unicode flag: ASCII letters, digits and `_`; every other character matches `[^\w]` |
| Normalizer.LowerChar | wordcount/main.py:63 | uppercase ASCII letters map to their lowercase letters; every other character is unchanged; word characters stay word characters |
| Normalizer.StripNonWord | wordcount/main.py:63 | the result holds only word characters and is no longer than the input; a token of word characters is kept whole; a token without word characters becomes empty |
| Normalizer.Lower | wordcount/main.py:63 | lowering keeps the length and lowers each character in place |
| Normalizer.Normalize | wordcount/main.py:63 | a normalized token is no longer than the raw token and consists only of lowercase letters, digits and `_` |
| Normalizer.NormalizeChar | wordcount/main.py:63 | a single character is kept, lowered, when it is a word character, and deleted otherwise |
| Normalizer.NormalizeAppend | wordcount/main.py:63 | normalization distributes over concatenation |
| Normalizer.StripAppend | wordcount/main.py:63 | deleting non-word characters distributes over concatenation |
| Normalizer.LowerAppend | wordcount/main.py:63 | lowercasing distributes over concatenation |
| Normalizer.NormalizeFixpoint | wordcount/main.py:63 | the words normalization leaves unchanged are exactly those made of lowercase letters, digits and `_` (both directions) |
| Normalizer.NormalizeIdempotent | wordcount/main.py:63 | normalizing twice is normalizing once |
| Normalizer.NormalizeEmpty | wordcount/main.py:63 | a token normalizes to the empty word exactly when it holds no word character (both directions) |
| Words.Clean | wordcount/main.py:62-64 | cleaning never lengthens the stream, and every surviving word is non-empty and normalized |
| Words.LineWords | wordcount/main.py:57-64 | every cleaned word of a line is non-empty and normalized |
| Words.CorpusWords | wordcount/main.py:53-64 | every cleaned word of the corpus is non-empty and normalized |
| Words.CleanOne | wordcount/main.py:62-64 | each raw token contributes exactly its normalized word, or nothing when that is empty |
| Words.CleanAppend | wordcount/main.py:62-64 | cleaning works token by token and keeps the order: the cleaned stream of two token sequences one after the other is the concatenation of their cleaned streams |
| Words.CleanMembers | wordcount/main.py:62-64 | a word is in the cleaned stream exactly when it is non-empty and some token normalizes to it (both directions) |
| Words.CorpusAppend | wordcount/main.py:53-64 | the word stream of two corpora one after the other is the concatenation of their streams |
| Words.NormalizeSeparator | wordcount/main.py:58-63 | a whitespace separator normalizes to the empty word |
| Words.InterleaveNormalize | wordcount/main.py:58-64 | normalizing tokens interleaved with whitespace gives the concatenation of the cleaned tokens |
| Words.CleanStep | wordcount/main.py:62-64 | the concatenated cleaned stream extends by one normalized token at a time |
| Words.LineWordsConcat | wordcount/main.py:57-64 | the concatenation of a line's cleaned words is the normalization of the whole line: nothing is lost or invented |
| Words.BlankLine | wordcount/main.py:57-64 | a line without word characters (empty, blanks, punctuation) contributes no words |
| Words.ConcatEmpty | wordcount/main.py:64 | a stream of non-empty words whose concatenation is empty is empty |
| Words.CleanWords | wordcount/main.py:62-64 | cleaning a stream of cleaned words changes nothing |
| Aggregator.Inc | wordcount/main.py:69-70 | one more occurrence adds the word as a key, raises its count by one (from 0 for a new word) and changes no other key |
| Aggregator.Count | wordcount/main.py:69-70 | the keys are exactly the words of the stream (both directions); each key's count is its number of occurrences, so at least 1 |
| Aggregator.CountSnoc | wordcount/main.py:69-70 | counting one more word is one more increment |
| Aggregator.IncUndo | wordcount/main.py:69-70 | an increment is undone by restoring the old count, or by removing a word that was new |
| Aggregator.Merge | wordcount/main.py:69-70 | merged keys are the union of the keys, and merged counts are the pointwise sums |
| Aggregator.CorpusTable | wordcount/main.py:53-70 | fixes the grouped table of a corpus as the frequency table of its cleaned word stream |
| Aggregator.CountGet | wordcount/main.py:69-70 | the count of any word, key or not, is its multiplicity in the stream |
| Aggregator.CountAppend | wordcount/main.py:69-70 | the table of two streams, one after the other, is the merge of their tables |
| Aggregator.TableExtensionality | wordcount/main.py:69-70 | two tables without zero counts are equal when they agree on the count of every word |
| Aggregator.CountAppendAt | wordcount/main.py:69-70 | the count of a word in two concatenated streams is the sum of its counts in each |
| Aggregator.CorpusTablePermutation | wordcount/main.py:53-70 | the order of the lines does not matter: corpora with the same multiset of lines have the same table |
| Aggregator.CorpusWordsPermutation | wordcount/main.py:53-64 | reordering the lines reorders the cleaned word stream: its multiset is unchanged |
| Aggregator.WordsStep | wordcount/main.py:53-64 | a line moved from the front of one corpus to anywhere in another brings the same words with it |
| Aggregator.CorpusWordsAround | wordcount/main.py:53-64 | the word stream of a corpus is the stream before a line, that line's words, and the stream after it |
| Aggregator.CountPermutation | wordcount/main.py:69-70 | streams with the same multiset of words have the same table: order does not matter |
| Aggregator.MergeCommutative | wordcount/main.py:69-70 | merging tables is commutative |
| Aggregator.MergeAssociative | wordcount/main.py:69-70 | merging tables is associative |
| Aggregator.MergeIdentity | wordcount/main.py:69-70 | the empty table is the identity of merging |
| Aggregator.ChunkTables | wordcount/main.py:69-70 | there is one partial table per chunk, and each is that chunk's table |
| Aggregator.CorpusTableAppend | wordcount/main.py:53-70 | the table of lines A followed by lines B is the pointwise sum of the tables of A and of B |
| Aggregator.PartitionIndependence | wordcount/main.py:53-70 | cutting the corpus into any consecutive chunks, counting each and merging the tables gives the table of the whole corpus |
| Ranking.WordBeforeIrreflexive | wordcount/main.py:71 | the tie-break order on words is irreflexive |
| Ranking.WordBeforeTransitive | wordcount/main.py:71 | the tie-break order on words is transitive |
| Ranking.WordBeforeTotal | wordcount/main.py:71 | distinct words are always ordered one way or the other |
| Ranking.WordBeforeAsymmetric | wordcount/main.py:71 | the tie-break order on words is asymmetric |
| Ranking.RanksBeforeTransitive | wordcount/main.py:71 | the ranking order on rows is transitive |
| Ranking.RanksBeforeTotal | wordcount/main.py:71 | rows for distinct words are always ordered one way or the other |
| Ranking.RanksBeforeAsymmetric | wordcount/main.py:71 | the ranking order on rows is asymmetric |
| Ranking.TopOf | wordcount/main.py:71 | every non-empty set of keys has a key that ranks before all the others in it |
| Ranking.TopExists | wordcount/main.py:71 | a non-empty table has a top word |
| Ranking.TopUnique | wordcount/main.py:71 | the top word of a table is unique |
| Ranking.Rank | wordcount/main.py:71 | the ranked table lists each (word, count) entry of the table exactly once and nothing else, so it is a permutation of the table; its length is the number of keys; its counts are non-increasing; ties are in word order |
| Ranking.RankStep | wordcount/main.py:71 | the top entry in front of a ranking of the other entries ranks the whole table |
| Ranking.Take | wordcount/main.py:85 | the view has length min(k, length of the listing) and is a prefix of the listing |
| Ranking.TakeAll | wordcount/main.py:85 | a view at least as long as the listing shows all of it |
| Ranking.TopViewBest | wordcount/main.py:85 | every row in the top-k view ranks before every word of the table that the view leaves out |
| Ranking.RankUnfold | wordcount/main.py:71 | the ranking starts with the top entry, followed by the ranking of the rest |
| Ranking.RankUnique | wordcount/main.py:71 | every strictly ranked listing of the table equals the computed ranking |
| Ranking.TailLists | wordcount/main.py:71 | a ranked listing without its first row is a ranked listing of the table without that word |
| Ranking.TotalCountAppend | wordcount/main.py:81 | the total count of two listings, one after the other, is the sum of their totals |
| Ranking.TotalCountSplit | wordcount/main.py:81 | taking one row out of a listing takes its count out of the total |
| Ranking.ListsDecrement | wordcount/main.py:69-70 | lowering one row's count by one lists the table with that word's count lowered by one |
| Ranking.ListsRemove | wordcount/main.py:69-70 | dropping one row lists the table without its word |
| Ranking.ListingTotal | wordcount/main.py:69-81 | the counts of any listing of a stream's table add up to the length of the stream, which is the total occurrences |
| Ranking.SeenLists | wordcount/main.py:69-70 | for a repeated word, lowering its row by one lists the table as it was before that occurrence |
| Ranking.NewLists | wordcount/main.py:69-70 | for a new word, its row has count 1, and dropping it lists the table as it was before that occurrence |
| Ranking.DecrementTotal | wordcount/main.py:81 | lowering one count by one lowers the total by one |
| Ranking.ListsTail | wordcount/main.py:69-70 | a listing without its first row lists the table without that word |
| Ranking.WordsWithRemove | wordcount/main.py:90-91 | removing a word lowers the number of words with its count by one and leaves the other counts alone |
| Ranking.CountOfWords | wordcount/main.py:90-91 | in a listing of the table, the number of rows with count c is the number of distinct words with count c |
| Histogram.TakeDescending | wordcount/main.py:93 | the first rows of a strictly descending distribution are strictly descending |
| Histogram.Group | wordcount/main.py:90-92 | grouping a listing with non-increasing counts gives strictly descending counts, where each bucket holds the number of rows with its count (at least 1) and every count of the listing has a bucket; the words column adds up to the number of rows, and count times words adds up to the total count |
| Histogram.GroupMerged | wordcount/main.py:90-92 | a row whose count equals the first bucket's count joins that bucket, and the distribution properties still hold |
| Histogram.MergedCounts | wordcount/main.py:90-92 | after the join, the buckets stay strictly descending and each still holds the number of rows with its count |
| Histogram.MergedCovers | wordcount/main.py:90-92 | after the join, every count still has a bucket |
| Histogram.BumpSums | wordcount/main.py:90-92 | one more word in a bucket adds one word and that bucket's count of occurrences |
| Histogram.GroupFresh | wordcount/main.py:90-92 | a row with a higher count starts a new first bucket, and the distribution properties still hold |
| Histogram.FreshCounts | wordcount/main.py:90-92 | the new bucket is above all the others, and each bucket holds the number of rows with its count |
| Histogram.FreshCovers | wordcount/main.py:90-92 | with the new bucket, every count still has a bucket |
| Histogram.CountOfAbsent | wordcount/main.py:90-92 | with non-increasing counts, a count above the first occurs in no row |
| Histogram.Distribution | wordcount/main.py:90-92 | the counts are strictly descending; each bucket holds the number of distinct words with its count (at least 1); every word's count has a bucket; the words column sums to the number of unique words, and count times words sums to the total occurrences |
| Histogram.DistributionOccurs | wordcount/main.py:90-92 | only counts that occur are listed: every bucket's count is some word's count |
| Report.TopShown | wordcount/main.py:85 | fixes the number of ranked rows displayed at 20 |
| Report.DistributionShown | wordcount/main.py:93 | fixes the number of distribution rows displayed at 10 |
| Report.PerformWordCount | wordcount/main.py:48-93 | the run fails exactly when the list of lines is empty; otherwise it reports the word count of the lines |
| Report.BlankLines | wordcount/main.py:53-93 | a non-empty list of lines without word characters (blank or punctuation-only lines) is counted and reports zero unique words, zero occurrences and empty views |
| Report.WordCount | wordcount/main.py:48-93 | the report depends on the corpus only through its frequency table, and its occurrence figure is the number of cleaned words |
| Report.UniqueWords | wordcount/main.py:74 | the unique-word figure is the number of distinct cleaned words |
| Report.Summarize | wordcount/main.py:74-93 | the unique figure is the number of table rows and the occurrence figure the total count of the ranking; the top view is the prefix of the ranking of length min(rows, 20); the distribution view is the prefix of the distribution of length min(buckets, 10), in strictly descending order of count |
| Report.ShortReport | wordcount/main.py:85-93 | when the ranking has at most 20 rows and the distribution at most 10, the views show all of both |
| Report.SummarizeShort | wordcount/main.py:85-93 | a table whose views are whole is summarized by its figures, its full ranking and its full distribution |
| Report.SummaryConsistent | wordcount/main.py:74-93 | in the full distribution, the words column equals the unique figure and count times words equals the occurrence figure |
| Report.ReportPartition | wordcount/main.py:53-93 | counting chunks of the corpus separately and merging the tables gives the same report |
| Report.NothingToCount | wordcount/main.py:57-93 | the counting steps turn a corpus without word characters into zero unique words, zero occurrences and empty views; for the empty list of lines this is the value of `WordCount`, which the run never reaches (`Report.PerformWordCount` fails there) |
| Report.NoWords | wordcount/main.py:53-64 | a corpus without word characters has an empty cleaned stream |
| Scenarios.EdgeTokens | wordcount/main.py:58-64 | a line with a leading and a trailing blank splits into an empty token, the word and an empty token, and cleans to the word alone |
| Scenarios.Normalize3 | wordcount/main.py:63 | a three-character token normalizes character by character |
| Scenarios.PunctuationDeleted | wordcount/main.py:63 | the token "a-b" normalizes to "ab" |
| Scenarios.UnderscoreKept | wordcount/main.py:63 | the token "c_d" normalizes to itself |
| Scenarios.CapitalLowered | wordcount/main.py:63 | the token "Hi!" normalizes to "hi" |
| Scenarios.WordNoSpace | wordcount/main.py:58-64 | a cleaned word holds no whitespace |
| Scenarios.SmallCorpus | wordcount/main.py:48-93 | the line "z x y x", for any three distinct words with y before z, reports 3 unique words and 4 occurrences; the ranking is x:2, y:1, z:1, and the distribution is one word seen twice and two words seen once |
| Scenarios.SmallCorpusTable | wordcount/main.py:57-70 | the line "z x y x" counts x twice and y and z once each |
| Scenarios.SmallWords | wordcount/main.py:57-64 | the line "z x y x" cleans to the stream z, x, y, x |
| Scenarios.SmallTable | wordcount/main.py:69-70 | the stream z, x, y, x counts x twice and y and z once each |
| Scenarios.SmallRank | wordcount/main.py:71 | that table ranks as x:2, y:1, z:1 |
| Scenarios.SmallDistribution | wordcount/main.py:90-92 | grouping the ranking x:2, y:1, z:1 gives (2, 1 word) then (1, 2 words) |

## Left out

- Spark session creation and the `IS_BOLT` / Spark Connect switch are not part of this model: they set up the runtime.
- Stopping the session is not part of this model either, for the same reason.
- Logging is left out: the structlog setup and every `logger.info`, including the row counts computed only to be logged (`df.count()`, the cleaned-word count at line 66).
- `main` is left out. It looks up `INPUT_FILE`, reads the file, strips each line and drops blank lines; that is I/O. The list of lines is a parameter of `PerformWordCount`. Stripping removes only whitespace at the ends of a line, and no whitespace character is a word character, so the cleaned words of a kept line stay the same. Dropping the blank lines changes the words of no corpus (`Words.BlankLine`), but it does change the outcome for a file that is empty or all blank: the list of lines becomes empty, and the run fails at line 53 instead of reporting zeros (`Report.PerformWordCount`, `Report.BlankLines`).
- Report.WordCount: for the empty list of lines it returns the empty report, while the program raises at wordcount/main.py:53; `Report.PerformWordCount` is the member that models the run, and it fails there.
- The hard-coded sample sentences are left out; they are constant data.
- Printing is left out: the banners, the two figures as text, and the table rendering of `.show(20)` and `.show(10)`. The model keeps the data shown: the two figures and the two views.
- Distributed and partitioned execution is left out; it is concurrency. `Aggregator.PartitionIndependence` and `Report.ReportPartition` state the property that makes it unobservable.
- Unicode `\w` and locale-dependent lowercasing are left out. Spark's regular expressions are Java's without the Unicode flag, so the ASCII classes are the ones in effect.
- Ranking.Rank: fixes word ascending as the order among equal counts. Spark leaves that order, and therefore which of the tied words fill the top-20 view, unspecified. With several possible orders, the view would only be a prefix of some ranking that is non-increasing in count.
