/**
 Report: the figures `perform_word_count` displays. The number of unique
 words (the number of rows of the counted table), the number of word
 occurrences (the number of rows of the cleaned stream), the first 20 rows
 of the ranked table, and the first 10 rows of the word-frequency
 distribution.
 */
module Report {
  import opened Tokenizer
  import opened Normalizer
  import opened Words
  import opened Aggregator
  import opened Ranking
  import opened Histogram

  /** Rows displayed of the ranked table. */
  const TopShown: nat := 20

  /** Rows displayed of the word-frequency distribution. */
  const DistributionShown: nat := 10

  datatype Summary = Summary(
    uniqueWords: nat,
    totalOccurrences: nat,
    top: seq<Entry>,
    distribution: seq<Bucket>)

  /**
   The word count of a corpus: the number of table rows, the number of
   cleaned words, and the two views of the ranked table. It depends on the
   corpus only through its frequency table: the number of cleaned words is
   the sum of the table's counts.
   */
  function WordCount(lines: seq<string>): (s: Summary)
    ensures s == Summarize(CorpusTable(lines))
    ensures s.totalOccurrences == |CorpusWords(lines)|
  {
    var ws := CorpusWords(lines);
    var t := Count(ws);
    ListingTotal(ws, Rank(t));
    Summary(|t|, |ws|, Take(Rank(t), TopShown), Take(Distribution(t), DistributionShown))
  }

  /**
   What a run of the pipeline ends with. Building the DataFrame of lines
   fails for an empty list of lines, since Spark cannot infer a schema from
   no rows when only the column name is given; any other list is counted
   and reported.
   */
  datatype Outcome = Failed | Reported(summary: Summary)

  /** The pipeline as a whole, with its one error case. */
  function PerformWordCount(lines: seq<string>): (o: Outcome)
    ensures o.Failed? <==> lines == []
    ensures o.Reported? ==> o.summary == WordCount(lines)
  {
    if lines == [] then Failed else Reported(WordCount(lines))
  }

  /** Lines that hold no word characters are still counted, and report nothing. */
  lemma BlankLines(lines: seq<string>)
    requires lines != []
    requires forall k, i :: 0 <= k < |lines| && 0 <= i < |lines[k]| ==> !IsWordChar(lines[k][i])
    ensures PerformWordCount(lines) == Reported(Summary(0, 0, [], []))
  {
    NothingToCount(lines);
  }

  /** The unique figure is the number of distinct cleaned words of the corpus. */
  lemma UniqueWords(lines: seq<string>)
    ensures WordCount(lines).uniqueWords == |set w | w in CorpusWords(lines)|
  {
    var ws := CorpusWords(lines);
    assert Count(ws).Keys == set w | w in ws;
  }

  /**
   The figures as they follow from a frequency table alone. The top view is
   the start of the ranking and the distribution view the start of the
   distribution, each as long as the display allows; the distribution view
   lists frequencies in strictly descending order.
   */
  function Summarize(t: Table): (s: Summary)
    ensures s.uniqueWords == |t|
    ensures |s.top| == if |t| < TopShown then |t| else TopShown
    ensures s.top <= Rank(t)
    ensures s.totalOccurrences == TotalCount(Rank(t))
    ensures |s.distribution| == if |Distribution(t)| < DistributionShown then |Distribution(t)| else DistributionShown
    ensures s.distribution <= Distribution(t)
    ensures Descending(s.distribution)
  {
    TakeDescending(Distribution(t), DistributionShown);
    Summary(|t|, TotalCount(Rank(t)), Take(Rank(t), TopShown), Take(Distribution(t), DistributionShown))
  }

  /** When the table is short enough, the views show the whole ranking and the whole distribution. */
  lemma ShortReport(lines: seq<string>, t: Table, r: seq<Entry>, h: seq<Bucket>)
    requires CorpusTable(lines) == t && Rank(t) == r && Distribution(t) == h
    requires |r| <= TopShown && |h| <= DistributionShown
    ensures WordCount(lines) == Summary(|t|, TotalCount(r), r, h)
  {
    TakeAll(r, TopShown);
    TakeAll(h, DistributionShown);
    SummarizeShort(t, r, h);
  }

  lemma SummarizeShort(t: Table, r: seq<Entry>, h: seq<Bucket>)
    requires Rank(t) == r && Distribution(t) == h
    requires Take(r, TopShown) == r && Take(h, DistributionShown) == h
    ensures Summarize(t) == Summary(|t|, TotalCount(r), r, h)
  {
  }

  /**
   The displayed figures agree with each other: the distribution, in full,
   counts every unique word once and every occurrence once.
   */
  lemma SummaryConsistent(lines: seq<string>)
    ensures var t := CorpusTable(lines);
            && BucketWords(Distribution(t)) == WordCount(lines).uniqueWords
            && BucketOccurrences(Distribution(t)) == WordCount(lines).totalOccurrences
  {
  }

  /** Partition independence of the whole report: counting chunks separately and merging gives the same report. */
  lemma ReportPartition(chunks: seq<seq<string>>)
    ensures WordCount(Flatten(chunks)) == Summarize(MergeAll(ChunkTables(chunks)))
  {
    PartitionIndependence(chunks);
  }

  /** A corpus without word characters (no lines, blank lines, punctuation only) reports nothing. */
  lemma {:induction false} NothingToCount(lines: seq<string>)
    requires forall k, i :: 0 <= k < |lines| && 0 <= i < |lines[k]| ==> !IsWordChar(lines[k][i])
    ensures WordCount(lines) == Summary(0, 0, [], [])
  {
    NoWords(lines);
    assert CorpusTable(lines) == map[];
  }

  lemma {:induction false} NoWords(lines: seq<string>)
    requires forall k, i :: 0 <= k < |lines| && 0 <= i < |lines[k]| ==> !IsWordChar(lines[k][i])
    ensures CorpusWords(lines) == []
  {
    if lines != [] {
      BlankLine(lines[0]);
      NoWords(lines[1..]);
    }
  }
}
