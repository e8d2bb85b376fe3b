/**
  The aggregation side of the log processor.

  A reader numbers the lines of the log from 1 and enqueues them; a worker
  takes one entry at a time, counts each of its words (lower-cased) in the
  occurrence histogram, records the entry's number of words in the word-count
  table, and, when the queue is full at that moment, flushes the table to the
  word-count file and empties it. Each worker iteration is one sequential step
  here; the workers' concurrency and the signal channel are not modelled.
 */
module LogProcessing {
  import opened Text
  import opened RingBuffers

  /** One line of the word-count file: an entry index and that entry's number of words. */
  datatype CountRecord = CountRecord(index: int, count: int)

  /** A Go map read: the zero value for a missing key. */
  function Get<K>(m: map<K, int>, k: K): int {
    if k in m then m[k] else 0
  }

  // ---------------------------------------------------------------------------
  // The histogram

  /** The histogram after counting each word, lower-cased, once more, in order. */
  function Tally(h: map<string, int>, words: seq<string>): map<string, int>
    decreases |words|
  {
    if words == [] then h
    else
      var k := ToLower(words[0]);
      Tally(h[k := Get(h, k) + 1], words[1..])
  }

  /** How many of the words lower-case to `k`. */
  function Occurrences(words: seq<string>, k: string): nat {
    if words == [] then 0
    else (if ToLower(words[0]) == k then 1 else 0) + Occurrences(words[1..], k)
  }

  /**
    Counting words raises the count of each key by the number of words that
    lower-case to it; a key no word lower-cases to keeps its count and its
    presence.
   */
  lemma {:induction false} TallyCounts(h: map<string, int>, words: seq<string>, k: string)
    ensures Get(Tally(h, words), k) == Get(h, k) + Occurrences(words, k)
    ensures k in Tally(h, words) <==> k in h || Occurrences(words, k) > 0
    decreases |words|
  {
    if words != [] {
      var w := ToLower(words[0]);
      TallyCounts(h[w := Get(h, w) + 1], words[1..], k);
    }
  }

  /** Counting two runs of words one after the other is counting their concatenation. */
  lemma {:induction false} TallyAppend(h: map<string, int>, a: seq<string>, b: seq<string>)
    ensures Tally(h, a + b) == Tally(Tally(h, a), b)
    decreases |a|
  {
    if a == [] {
      assert a + b == b;
    } else {
      var w := ToLower(a[0]);
      assert (a + b)[0] == a[0];
      assert (a + b)[1..] == a[1..] + b;
      TallyAppend(h[w := Get(h, w) + 1], a[1..], b);
    }
  }

  /** The words of the entries, entry after entry. */
  function AllWords(entries: seq<LogEntry>): seq<string> {
    if entries == [] then []
    else AllWords(entries[..|entries| - 1]) + Fields(entries[|entries| - 1].data)
  }

  // ---------------------------------------------------------------------------
  // Word-count records

  /** The record a worker makes of one entry. */
  function WordCountRecord(e: LogEntry): CountRecord {
    CountRecord(e.entryIndex, |Fields(e.data)|)
  }

  /** The records the entries justify. */
  function RecordsOf(entries: seq<LogEntry>): set<CountRecord> {
    set e | e in entries :: WordCountRecord(e)
  }

  function EntryIndices(entries: seq<LogEntry>): set<int> {
    set e | e in entries :: e.entryIndex
  }

  function Indices(records: seq<CountRecord>): set<int> {
    set r | r in records :: r.index
  }

  predicate DistinctIndices(records: seq<CountRecord>) {
    forall i, j :: 0 <= i < j < |records| ==> records[i].index != records[j].index
  }

  /**
    What one flush of `table` does when the write numbered `failAt` (counting
    from 0) fails: it emits distinct records, each one a pair of the table; a
    failing write ends it early with the writes before it emitted and the table
    kept; otherwise it emits one record per pair and empties the table.
   */
  predicate Flushed(table: map<int, int>, failAt: Option<nat>, table': map<int, int>, emitted: seq<CountRecord>) {
    && DistinctIndices(emitted)
    && (forall i :: 0 <= i < |emitted| ==> emitted[i].index in table && table[emitted[i].index] == emitted[i].count)
    && if failAt.Some? && failAt.value < |table| then
         |emitted| == failAt.value && table' == table
       else
         Indices(emitted) == table.Keys && |emitted| == |table| && table' == map[]
  }

  /**
    What a worker iteration does to the table `table` (the entry's count
    already set) and the records: when the queue is `full` it flushes, and
    otherwise it leaves both as they are. Records written before are kept.
   */
  predicate FlushedIfFull(full: bool, table: map<int, int>, failAt: Option<nat>, table': map<int, int>,
                          records: seq<CountRecord>, records': seq<CountRecord>) {
    && |records'| >= |records| && records'[..|records|] == records
    && if full then Flushed(table, failAt, table', records'[|records|..])
       else table' == table && records' == records
  }

  /** A successful flush writes every pair of the table, and nothing but them. */
  lemma FlushWritesTable(table: map<int, int>, failAt: Option<nat>, table': map<int, int>, emitted: seq<CountRecord>)
    requires Flushed(table, failAt, table', emitted)
    requires failAt.None? || failAt.value >= |table|
    ensures table' == map[]
    ensures forall k :: k in table ==> CountRecord(k, table[k]) in emitted
    ensures forall r :: r in emitted ==> r.index in table && r == CountRecord(r.index, table[r.index])
  {
    forall k | k in table
      ensures CountRecord(k, table[k]) in emitted
    {
      assert k in Indices(emitted);
      var r :| r in emitted && r.index == k;
    }
  }

  /**
    A failed flush keeps the table, so the next successful flush writes again
    the pairs written before the failure: the records written then hold an index twice.
   */
  lemma RetryAfterFailureRepeats(table: map<int, int>, failAt: nat, table1: map<int, int>, emitted1: seq<CountRecord>,
                                 table2: map<int, int>, emitted2: seq<CountRecord>)
    requires 0 < failAt < |table|
    requires Flushed(table, Some(failAt), table1, emitted1)
    requires Flushed(table1, None, table2, emitted2)
    ensures table1 == table && table2 == map[]
    ensures !DistinctIndices(emitted1 + emitted2)
  {
    var k := emitted1[0].index;
    assert k in Indices(emitted2);
    var r :| r in emitted2 && r.index == k;
    var j :| 0 <= j < |emitted2| && emitted2[j] == r;
    assert (emitted1 + emitted2)[0].index == (emitted1 + emitted2)[|emitted1| + j].index;
  }

  /** A flush of an empty table writes nothing. */
  lemma FlushEmptyWritesNothing(failAt: Option<nat>, table': map<int, int>, emitted: seq<CountRecord>)
    requires Flushed(map[], failAt, table', emitted)
    ensures emitted == [] && table' == map[]
  {
  }

  lemma IndicesAppend(a: seq<CountRecord>, b: seq<CountRecord>)
    ensures Indices(a + b) == Indices(a) + Indices(b)
  {
    forall i | i in Indices(a + b)
      ensures i in Indices(a) + Indices(b)
    {
      var r :| r in a + b && r.index == i;
    }
    forall i | i in Indices(a) + Indices(b)
      ensures i in Indices(a + b)
    {
      var r :| (r in a || r in b) && r.index == i;
      assert r in a + b;
    }
  }

  lemma RecordsGrow(entries: seq<LogEntry>, e: LogEntry)
    ensures RecordsOf(entries + [e]) == RecordsOf(entries) + {WordCountRecord(e)}
  {
    forall x | x in RecordsOf(entries)
      ensures x in RecordsOf(entries + [e])
    {
      var e' :| e' in entries && x == WordCountRecord(e');
      assert e' in entries + [e];
    }
    assert e in entries + [e];
  }

  lemma AllWordsGrow(entries: seq<LogEntry>, e: LogEntry)
    ensures AllWords(entries + [e]) == AllWords(entries) + Fields(e.data)
  {
    assert (entries + [e])[..|entries|] == entries;
  }

  /** Appending distinct records whose indices are new keeps the indices distinct. */
  lemma DistinctAppend(a: seq<CountRecord>, b: seq<CountRecord>)
    requires DistinctIndices(a) && DistinctIndices(b)
    requires Indices(a) !! Indices(b)
    ensures DistinctIndices(a + b)
  {
    forall i, j | 0 <= i < j < |a + b|
      ensures (a + b)[i].index != (a + b)[j].index
    {
      if i < |a| && |a| <= j {
        assert (a + b)[i] in a && (a + b)[j] in b;
        assert (a + b)[i].index in Indices(a) && (a + b)[j].index in Indices(b);
      }
    }
  }

  // ---------------------------------------------------------------------------
  // The reader's numbering

  /** The entries the reader makes of the lines: numbered from 1 in reading order. */
  function Numbered(lines: seq<string>): (entries: seq<LogEntry>)
    ensures |entries| == |lines|
    ensures forall i :: 0 <= i < |lines| ==> entries[i] == LogEntry(i + 1, lines[i])
  {
    if lines == [] then []
    else Numbered(lines[..|lines| - 1]) + [LogEntry(|lines|, lines[|lines| - 1])]
  }

  lemma NumberedSnoc(lines: seq<string>, n: nat)
    requires 0 < n <= |lines|
    ensures Numbered(lines[..n]) == Numbered(lines[..n - 1]) + [LogEntry(n, lines[n - 1])]
  {
    assert lines[..n][..n - 1] == lines[..n - 1];
  }

  /** The reader's indices are strictly increasing and are exactly 1 to the number of lines. */
  lemma NumberedIndices(lines: seq<string>)
    ensures forall i, j :: 0 <= i < j < |lines| ==> Numbered(lines)[i].entryIndex < Numbered(lines)[j].entryIndex
    ensures forall n :: n in EntryIndices(Numbered(lines)) <==> 1 <= n <= |lines|
  {
    var entries := Numbered(lines);
    forall n | 1 <= n <= |lines|
      ensures n in EntryIndices(entries)
    {
      assert entries[n - 1] in entries;
    }
  }

  // ---------------------------------------------------------------------------
  // The processor

  /**
    What the processor's state owes to the entries taken from the queue so far:
    the histogram counts their words; every pair in the table and every record
    written is the record of one of them; and the index of each of them is in
    the table or has been written.
   */
  predicate Aggregates(taken: seq<LogEntry>, histogram: map<string, int>, table: map<int, int>, records: seq<CountRecord>) {
    && histogram == Tally(map[], AllWords(taken))
    && TableJustified(taken, table)
    && RecordsJustified(taken, records)
    && Covered(taken, table, records)
  }

  predicate TableJustified(taken: seq<LogEntry>, table: map<int, int>) {
    forall k :: k in table ==> CountRecord(k, table[k]) in RecordsOf(taken)
  }

  predicate RecordsJustified(taken: seq<LogEntry>, records: seq<CountRecord>) {
    forall i :: 0 <= i < |records| ==> records[i] in RecordsOf(taken)
  }

  predicate Covered(taken: seq<LogEntry>, table: map<int, int>, records: seq<CountRecord>) {
    forall i :: 0 <= i < |taken| ==> taken[i].entryIndex in table.Keys + Indices(records)
  }

  /** Taking one more entry and counting it keeps the state accounted for. */
  lemma ProcessKeepsAggregates(taken: seq<LogEntry>, histogram: map<string, int>, table: map<int, int>,
                               records: seq<CountRecord>, e: LogEntry)
    requires Aggregates(taken, histogram, table, records)
    ensures Aggregates(taken + [e], Tally(histogram, Fields(e.data)), table[e.entryIndex := |Fields(e.data)|], records)
  {
    ProcessKeepsHistogram(taken, histogram, e);
    ProcessKeepsJustified(taken, table, records, e);
    ProcessKeepsCovered(taken, table, records, e);
  }

  lemma ProcessKeepsHistogram(taken: seq<LogEntry>, histogram: map<string, int>, e: LogEntry)
    requires histogram == Tally(map[], AllWords(taken))
    ensures Tally(histogram, Fields(e.data)) == Tally(map[], AllWords(taken + [e]))
  {
    AllWordsGrow(taken, e);
    TallyAppend(map[], AllWords(taken), Fields(e.data));
  }

  lemma ProcessKeepsJustified(taken: seq<LogEntry>, table: map<int, int>, records: seq<CountRecord>, e: LogEntry)
    requires TableJustified(taken, table) && RecordsJustified(taken, records)
    ensures TableJustified(taken + [e], table[e.entryIndex := |Fields(e.data)|])
    ensures RecordsJustified(taken + [e], records)
  {
    RecordsGrow(taken, e);
  }

  lemma ProcessKeepsCovered(taken: seq<LogEntry>, table: map<int, int>, records: seq<CountRecord>, e: LogEntry)
    requires Covered(taken, table, records)
    ensures Covered(taken + [e], table[e.entryIndex := |Fields(e.data)|], records)
  {
    var taken', table' := taken + [e], table[e.entryIndex := |Fields(e.data)|];
    forall i | 0 <= i < |taken'|
      ensures taken'[i].entryIndex in table'.Keys + Indices(records)
    {
      if i < |taken| {
        assert taken'[i] == taken[i];
      }
    }
  }

  /** A flush, failed or not, keeps the state accounted for. */
  lemma FlushKeepsAggregates(taken: seq<LogEntry>, histogram: map<string, int>, table: map<int, int>,
                             records: seq<CountRecord>, failAt: Option<nat>, table': map<int, int>, emitted: seq<CountRecord>)
    requires Aggregates(taken, histogram, table, records)
    requires Flushed(table, failAt, table', emitted)
    ensures Aggregates(taken, histogram, table', records + emitted)
  {
    IndicesAppend(records, emitted);
    forall i | 0 <= i < |records + emitted|
      ensures (records + emitted)[i] in RecordsOf(taken)
    {
      if i >= |records| {
        var r := emitted[i - |records|];
        assert r == CountRecord(r.index, table[r.index]);
      }
    }
  }




  class LogProcessor {
    const buffer: RingBuffer
    var occurrenceCounter: map<string, int>
    var wordCounter: map<int, int>
    /** The records this run has written to the word-count file, in order. */
    var wordCountRecords: seq<CountRecord>

    ghost predicate Valid()
      reads this, buffer
    {
      buffer.Valid()
    }

    constructor (capacity: nat)
      ensures Valid() && fresh(buffer)
      ensures buffer.capacity == capacity && buffer.buffer == [] && buffer.enqueued == []
      ensures occurrenceCounter == map[] && wordCounter == map[] && wordCountRecords == []
    {
      buffer := new RingBuffer(capacity);
      occurrenceCounter := map[];
      wordCounter := map[];
      wordCountRecords := [];
    }

    /**
      The reader: numbers the lines from 1 in reading order and enqueues each
      entry at the tail of the queue.
     */
    method ReadLogFile(lines: seq<string>)
      requires Valid()
      modifies buffer
      ensures Valid()
      ensures buffer.buffer == old(buffer.buffer) + Numbered(lines)
      ensures buffer.enqueued == old(buffer.enqueued) + Numbered(lines)
      ensures buffer.delivered == old(buffer.delivered)
    {
      var lineCount := 0;
      while lineCount < |lines|
        invariant 0 <= lineCount <= |lines|
        invariant buffer.Valid()
        invariant buffer.buffer == old(buffer.buffer) + Numbered(lines[..lineCount])
        invariant buffer.enqueued == old(buffer.enqueued) + Numbered(lines[..lineCount])
        invariant buffer.delivered == old(buffer.delivered)
      {
        var line := lines[lineCount];
        lineCount := lineCount + 1;
        NumberedSnoc(lines, lineCount);
        buffer.Enqueue(LogEntry(lineCount, line));
      }
      assert lines[..lineCount] == lines;
    }

    /**
      One worker iteration, the body of the loop in `processLogLines`: takes
      the head of the queue, counts each of its words lower-cased, records its
      number of words under its index, and flushes the table when the queue is
      full at that moment.
     */
    method ProcessLogLine(failAt: Option<nat>)
      requires Valid() && buffer.size > 0
      modifies this, buffer
      ensures Valid()
      ensures buffer.buffer == old(buffer.buffer)[1..] && buffer.size == old(buffer.size) - 1
      ensures buffer.delivered == old(buffer.delivered) + [old(buffer.buffer)[0]]
      ensures buffer.enqueued == old(buffer.enqueued)
      ensures occurrenceCounter == Tally(old(occurrenceCounter), Fields(old(buffer.buffer)[0].data))
      ensures var e := old(buffer.buffer)[0];
              FlushedIfFull(buffer.IsFull(), old(wordCounter)[e.entryIndex := |Fields(e.data)|], failAt,
                            wordCounter, old(wordCountRecords), wordCountRecords)
    {
      var node := buffer.Dequeue();
      CountEntry(node.value);
      if buffer.IsFull() {
        ghost var table := wordCounter;
        FlushOccurrenceCounts(failAt);
        assert Flushed(table, failAt, wordCounter, wordCountRecords[|old(wordCountRecords)|..]);
      } else {
        assert wordCountRecords[..|old(wordCountRecords)|] == old(wordCountRecords);
      }
    }

    /**
      The workers, taking one entry per signal of the reader until every entry
      enqueued has been processed; the flush of iteration `i`, if any, fails at
      the write `failures[i]`. When the reader numbered its entries from 1, the
      histogram and the records stay accounted for, and with no write failing
      so do the run's distinct indices.
     */
    method ProcessPending(failures: seq<Option<nat>>)
      requires Valid() && |failures| == buffer.size
      requires forall i :: 0 <= i < |buffer.enqueued| ==> buffer.enqueued[i].entryIndex == i + 1
      requires RunAccounted(NoFailures(failures), buffer.delivered, occurrenceCounter, wordCounter, wordCountRecords)
      modifies this, buffer
      ensures Valid() && buffer.buffer == []
      ensures buffer.enqueued == old(buffer.enqueued) && buffer.delivered == buffer.enqueued
      ensures RunAccounted(NoFailures(failures), buffer.delivered, occurrenceCounter, wordCounter, wordCountRecords)
    {
      ghost var entries, distinct := buffer.enqueued, NoFailures(failures);
      var i := 0;
      while buffer.size > 0
        invariant Valid() && buffer.enqueued == entries
        invariant i + buffer.size == |failures|
        invariant RunAccounted(distinct, buffer.delivered, occurrenceCounter, wordCounter, wordCountRecords)
        decreases buffer.size
      {
        ghost var taken, rest := buffer.delivered, buffer.buffer;
        ghost var histogram, table, before := occurrenceCounter, wordCounter, wordCountRecords;
        assert distinct ==> failures[i].None?;
        ProcessLogLine(failures[i]);
        RunStep(entries, taken, rest, buffer.IsFull(), failures[i], distinct, histogram, table, before,
                occurrenceCounter, wordCounter, wordCountRecords);
        i := i + 1;
      }
      assert buffer.buffer == [];
      assert buffer.delivered + [] == buffer.delivered;
    }

    /**
      Counts each word of the entry, lower-cased, once more in the histogram,
      and records the entry's number of words under its index.
     */
    method CountEntry(e: LogEntry)
      modifies this
      ensures occurrenceCounter == Tally(old(occurrenceCounter), Fields(e.data))
      ensures wordCounter == old(wordCounter)[e.entryIndex := |Fields(e.data)|]
      ensures wordCountRecords == old(wordCountRecords)
    {
      var words := Fields(e.data);
      CountWords(words);
      wordCounter := wordCounter[e.entryIndex := |words|];
    }

    /** Counts each word, lower-cased, once more in the histogram. */
    method CountWords(words: seq<string>)
      modifies this
      ensures occurrenceCounter == Tally(old(occurrenceCounter), words)
      ensures wordCounter == old(wordCounter) && wordCountRecords == old(wordCountRecords)
    {
      for i := 0 to |words|
        invariant Tally(occurrenceCounter, words[i..]) == Tally(old(occurrenceCounter), words)
        invariant wordCounter == old(wordCounter) && wordCountRecords == old(wordCountRecords)
      {
        assert words[i..][1..] == words[i + 1..];
        var key := ToLower(words[i]);
        occurrenceCounter := occurrenceCounter[key := Get(occurrenceCounter, key) + 1];
      }
      assert words[|words|..] == [];
    }

    /** The last flush, at the end of the run, made only when the table is not empty. */
    method FlushRemainder(failAt: Option<nat>)
      modifies this
      ensures occurrenceCounter == old(occurrenceCounter)
      ensures old(wordCounter) == map[] ==> wordCounter == map[] && wordCountRecords == old(wordCountRecords)
      ensures |wordCountRecords| >= |old(wordCountRecords)|
      ensures wordCountRecords[..|old(wordCountRecords)|] == old(wordCountRecords)
      ensures Flushed(old(wordCounter), failAt, wordCounter, wordCountRecords[|old(wordCountRecords)|..])
    {
      if |wordCounter| > 0 {
        FlushOccurrenceCounts(failAt);
      } else {
        assert wordCountRecords[|wordCountRecords|..] == [];
      }
    }

    /**
      Writes one record per pair of the word-count table, in an unspecified
      order, then empties the table. The write numbered `failAt`, if there is
      one, fails: the flush stops there and keeps the table.
     */
    method FlushOccurrenceCounts(failAt: Option<nat>)
      modifies this
      ensures occurrenceCounter == old(occurrenceCounter)
      ensures |wordCountRecords| >= |old(wordCountRecords)|
      ensures wordCountRecords[..|old(wordCountRecords)|] == old(wordCountRecords)
      ensures Flushed(old(wordCounter), failAt, wordCounter, wordCountRecords[|old(wordCountRecords)|..])
    {
      var keys := wordCounter.Keys;
      var emitted: seq<CountRecord> := [];
      while keys != {}
        invariant keys <= wordCounter.Keys
        invariant wordCounter == old(wordCounter) && occurrenceCounter == old(occurrenceCounter)
        invariant wordCountRecords == old(wordCountRecords) + emitted
        invariant FlushProgress(wordCounter, keys, failAt, emitted)
        decreases keys
      {
        SomeKey(keys);
        var k :| k in keys;
        if failAt == Some(|emitted|) {
          assert wordCountRecords[|old(wordCountRecords)|..] == emitted;
          return;
        }
        var r := CountRecord(k, wordCounter[k]);
        FlushStep(wordCounter, keys, failAt, emitted, k);
        wordCountRecords := wordCountRecords + [r];
        emitted := emitted + [r];
        keys := keys - {k};
      }
      assert wordCountRecords[|old(wordCountRecords)|..] == emitted;
      wordCounter := map[];
    }
  }

  lemma SomeKey(keys: set<int>)
    requires keys != {}
    ensures exists k :: k in keys
  {
    if forall k :: k !in keys {
      assert false;
    }
  }

  /**
    The state of a flush of `table` part way: `emitted` are the writes so far,
    `keys` the pairs still to write.
   */
  predicate FlushProgress(table: map<int, int>, keys: set<int>, failAt: Option<nat>, emitted: seq<CountRecord>) {
    && DistinctIndices(emitted)
    && (forall i :: 0 <= i < |emitted| ==> emitted[i].index in table && table[emitted[i].index] == emitted[i].count)
    && Indices(emitted) == table.Keys - keys
    && |emitted| + |keys| == |table|
    && (failAt.Some? ==> |emitted| <= failAt.value)
  }

  /** Writing the pair of one more key, when that write does not fail, keeps the flush on track. */
  lemma FlushStep(table: map<int, int>, keys: set<int>, failAt: Option<nat>, emitted: seq<CountRecord>, k: int)
    requires keys <= table.Keys && k in keys
    requires FlushProgress(table, keys, failAt, emitted)
    requires failAt != Some(|emitted|)
    ensures FlushProgress(table, keys - {k}, failAt, emitted + [CountRecord(k, table[k])])
  {
    var r := CountRecord(k, table[k]);
    var emitted' := emitted + [r];
    assert Indices([r]) == {k} by {
      assert r in [r];
    }
    assert DistinctIndices(emitted') by {
      DistinctAppend(emitted, [r]);
    }
    assert Indices(emitted') == table.Keys - (keys - {k}) by {
      IndicesAppend(emitted, [r]);
    }
    assert forall i :: 0 <= i < |emitted'| ==> emitted'[i].index in table && table[emitted'[i].index] == emitted'[i].count by {
      forall i | 0 <= i < |emitted'|
        ensures emitted'[i].index in table && table[emitted'[i].index] == emitted'[i].count
      {
        if i < |emitted| {
          assert emitted'[i] == emitted[i];
        }
      }
    }
    assert |keys - {k}| == |keys| - 1;
  }

  // ---------------------------------------------------------------------------
  // A whole run

  /**
    A run in which the reader enqueues every line, the workers then take the
    entries one at a time until the queue is empty, and the remainder of the
    table is flushed. The flush of worker iteration `i`, if any, fails at the
    write `failures[i]`, and the final one at the write `last`. Whatever fails,
    the histogram counts every word of the log and every record written is the
    correct record of a line. When the final flush completes, every line's
    record has been written; when no write fails, exactly once.
   */
  method SequentialRun(capacity: nat, lines: seq<string>, failures: seq<Option<nat>>, last: Option<nat>)
      returns (histogram: map<string, int>, records: seq<CountRecord>, ghost entries: seq<LogEntry>)
    requires |failures| == |lines|
    ensures |entries| == |lines| && forall i :: 0 <= i < |lines| ==> entries[i] == LogEntry(i + 1, lines[i])
    ensures histogram == Tally(map[], AllWords(entries))
    ensures forall i :: 0 <= i < |records| ==> records[i] in RecordsOf(entries)
    ensures last.None? ==> forall n :: n in Indices(records) <==> 1 <= n <= |lines|
    ensures NoFailures(failures) && last.None? ==> |records| == |lines| && DistinctIndices(records)
  {
    var p;
    p, entries := ReadAndWork(capacity, lines, failures);
    histogram, records := Conclude(p, entries, |lines|, NoFailures(failures), last);
  }

  /**
    The final flush of a run whose workers have taken every entry of
    `entries`, failing at the write `last`.
   */
  method Conclude(p: LogProcessor, ghost entries: seq<LogEntry>, ghost count: int, ghost distinct: bool,
                  last: Option<nat>)
      returns (histogram: map<string, int>, records: seq<CountRecord>)
    requires count == |entries| && NumberedFromOne(entries)
    requires RunAccounted(distinct, entries, p.occurrenceCounter, p.wordCounter, p.wordCountRecords)
    modifies p
    ensures histogram == Tally(map[], AllWords(entries))
    ensures forall i :: 0 <= i < |records| ==> records[i] in RecordsOf(entries)
    ensures last.None? ==> forall n :: n in Indices(records) <==> 1 <= n <= count
    ensures distinct && last.None? ==> |records| == count && DistinctIndices(records)
  {
    ghost var table, before := p.wordCounter, p.wordCountRecords;
    p.FlushRemainder(last);
    histogram, records := p.occurrenceCounter, p.wordCountRecords;
    RunEnd(entries, count, distinct, histogram, table, before, last, p.wordCounter, records);
  }

  /**
    The run up to the final flush: a new processor, the reader enqueueing every
    line, and the workers taking every entry, the flush of iteration `i`
    failing at the write `failures[i]`.
   */
  method ReadAndWork(capacity: nat, lines: seq<string>, failures: seq<Option<nat>>)
      returns (p: LogProcessor, ghost entries: seq<LogEntry>)
    requires |failures| == |lines|
    ensures fresh(p) && fresh(p.buffer) && p.Valid() && p.buffer.buffer == []
    ensures entries == Numbered(lines) && p.buffer.delivered == entries
    ensures |entries| == |lines| && forall i :: 0 <= i < |lines| ==> entries[i] == LogEntry(i + 1, lines[i])
    ensures NumberedFromOne(entries)
    ensures RunAccounted(NoFailures(failures), entries, p.occurrenceCounter, p.wordCounter, p.wordCountRecords)
  {
    p := new LogProcessor(capacity);
    p.ReadLogFile(lines);
    entries := Numbered(lines);
    assert p.buffer.enqueued == entries && p.buffer.delivered == [];
    StartAccounted(p.occurrenceCounter, p.wordCounter, p.wordCountRecords);
    p.ProcessPending(failures);
  }

  /** The entries carry the indices 1, 2, ... in order. */
  predicate NumberedFromOne(entries: seq<LogEntry>) {
    forall i :: 0 <= i < |entries| ==> entries[i].entryIndex == i + 1
  }

  /** Before any entry is taken, the empty histogram, table and records are accounted for. */
  lemma StartAccounted(histogram: map<string, int>, table: map<int, int>, records: seq<CountRecord>)
    requires histogram == map[] && table == map[] && records == []
    ensures Aggregates([], histogram, table, records) && Bookkeeping(0, table, records)
  {
  }

  /**
    The run's accounting after the workers have taken `taken`: `Aggregates`,
    and, when `distinct` (no write has failed), `Bookkeeping`.
   */
  predicate RunAccounted(distinct: bool, taken: seq<LogEntry>, histogram: map<string, int>, table: map<int, int>,
                         records: seq<CountRecord>) {
    Aggregates(taken, histogram, table, records) && (distinct ==> Bookkeeping(|taken|, table, records))
  }

  /** No flush of the run has a failing write. */
  predicate NoFailures(failures: seq<Option<nat>>) {
    forall i :: 0 <= i < |failures| ==> failures[i].None?
  }

  /**
    The run's accounting after `n` entries: no record repeats an index, the
    table and the records share no index, every index among them is one of
    1 to `n`, and together they hold `n` indices.
   */
  predicate Bookkeeping(n: int, table: map<int, int>, records: seq<CountRecord>) {
    && DistinctIndices(records)
    && Indices(records) !! table.Keys
    && (forall k :: k in table ==> 1 <= k <= n)
    && (forall k :: k in Indices(records) ==> 1 <= k <= n)
    && |records| + |table| == n
  }

  /** Entry `n + 1` adds a new key to the table. */
  lemma BookkeepingProcess(n: int, table: map<int, int>, records: seq<CountRecord>, c: int)
    requires Bookkeeping(n, table, records)
    ensures Bookkeeping(n + 1, table[n + 1 := c], records)
  {
    assert n + 1 !in table;
    assert |table[n + 1 := c]| == |table| + 1;
  }

  /** A successful flush moves every key of the table into the records. */
  lemma BookkeepingFlush(n: int, table: map<int, int>, records: seq<CountRecord>, table': map<int, int>, emitted: seq<CountRecord>)
    requires Bookkeeping(n, table, records)
    requires Flushed(table, None, table', emitted)
    ensures Bookkeeping(n, table', records + emitted)
  {
    assert Indices(emitted) == table.Keys && |emitted| == |table| && table' == map[];
    assert DistinctIndices(records + emitted) by {
      DistinctAppend(records, emitted);
    }
    assert Indices(records + emitted) == Indices(records) + table.Keys by {
      IndicesAppend(records, emitted);
    }
    assert forall k :: k in Indices(records + emitted) ==> 1 <= k <= n;
  }

  /**
    One worker iteration keeps the run accounted for, whether or not its flush
    fails; with no write failing it also keeps the run's distinct indices.
   */
  lemma RunStep(entries: seq<LogEntry>, taken: seq<LogEntry>, rest: seq<LogEntry>, full: bool, failAt: Option<nat>, distinct: bool,
                histogram: map<string, int>, table: map<int, int>, records: seq<CountRecord>,
                histogram': map<string, int>, table': map<int, int>, records': seq<CountRecord>)
    requires forall i :: 0 <= i < |entries| ==> entries[i].entryIndex == i + 1
    requires entries == taken + rest && rest != []
    requires RunAccounted(distinct, taken, histogram, table, records) && (distinct ==> failAt.None?)
    requires histogram' == Tally(histogram, Fields(rest[0].data))
    requires FlushedIfFull(full, table[rest[0].entryIndex := |Fields(rest[0].data)|], failAt, table', records, records')
    ensures RunAccounted(distinct, taken + [rest[0]], histogram', table', records')
  {
    RunStepAggregates(taken, rest[0], full, failAt, histogram, table, records, histogram', table', records');
    if distinct {
      assert rest[0].entryIndex == |taken| + 1 by {
        assert rest[0] == entries[|taken|];
      }
      RunStepBookkeeping(|taken|, rest[0], full, table, records, table', records');
    }
  }

  lemma RunStepAggregates(taken: seq<LogEntry>, e: LogEntry, full: bool, failAt: Option<nat>, histogram: map<string, int>,
                          table: map<int, int>, records: seq<CountRecord>,
                          histogram': map<string, int>, table': map<int, int>, records': seq<CountRecord>)
    requires Aggregates(taken, histogram, table, records)
    requires histogram' == Tally(histogram, Fields(e.data))
    requires FlushedIfFull(full, table[e.entryIndex := |Fields(e.data)|], failAt, table', records, records')
    ensures Aggregates(taken + [e], histogram', table', records')
  {
    var t := table[e.entryIndex := |Fields(e.data)|];
    ProcessKeepsAggregates(taken, histogram, table, records, e);
    if full {
      var emitted := records'[|records|..];
      SplitAt(records', records);
      FlushKeepsAggregates(taken + [e], histogram', t, records, failAt, table', emitted);
    }
  }

  lemma RunStepBookkeeping(n: int, e: LogEntry, full: bool, table: map<int, int>, records: seq<CountRecord>,
                           table': map<int, int>, records': seq<CountRecord>)
    requires Bookkeeping(n, table, records)
    requires e.entryIndex == n + 1
    requires FlushedIfFull(full, table[e.entryIndex := |Fields(e.data)|], None, table', records, records')
    ensures Bookkeeping(n + 1, table', records')
  {
    var t := table[e.entryIndex := |Fields(e.data)|];
    BookkeepingProcess(n, table, records, |Fields(e.data)|);
    if full {
      var emitted := records'[|records|..];
      SplitAt(records', records);
      BookkeepingFlush(n + 1, t, records, table', emitted);
    }
  }

  /** A sequence that starts with `prefix` is `prefix` and then the rest. */
  lemma SplitAt<T>(s: seq<T>, prefix: seq<T>)
    requires |s| >= |prefix| && s[..|prefix|] == prefix
    ensures s == prefix + s[|prefix|..]
  {
    assert s == s[..|prefix|] + s[|prefix|..];
  }

  /**
    After the final flush every record written is the correct record of an
    entry. When that flush completes, every entry's index has been written;
    when no write of the run failed (`distinct`), each of them exactly once.
   */
  lemma RunEnd(entries: seq<LogEntry>, count: int, distinct: bool, histogram: map<string, int>, table: map<int, int>,
               records: seq<CountRecord>, last: Option<nat>, table': map<int, int>, records': seq<CountRecord>)
    requires count == |entries| && forall i :: 0 <= i < |entries| ==> entries[i].entryIndex == i + 1
    requires RunAccounted(distinct, entries, histogram, table, records)
    requires |records'| >= |records| && records'[..|records|] == records
    requires Flushed(table, last, table', records'[|records|..])
    ensures histogram == Tally(map[], AllWords(entries))
    ensures forall i :: 0 <= i < |records'| ==> records'[i] in RecordsOf(entries)
    ensures last.None? ==> forall n :: n in Indices(records') <==> 1 <= n <= count
    ensures distinct && last.None? ==> |records'| == count && DistinctIndices(records')
  {
    var emitted := records'[|records|..];
    SplitAt(records', records);
    FlushKeepsAggregates(entries, histogram, table, records, last, table', emitted);
    if last.None? {
      assert table' == map[];
      EveryIndexWritten(entries, count, table', records');
      if distinct {
        BookkeepingFlush(count, table, records, table', emitted);
      }
    }
  }

  /** With the table empty, the records cover exactly the indices 1 to the number of entries. */
  lemma EveryIndexWritten(entries: seq<LogEntry>, count: int, table: map<int, int>, records: seq<CountRecord>)
    requires count == |entries| && forall i :: 0 <= i < |entries| ==> entries[i].entryIndex == i + 1
    requires table == map[] && Covered(entries, table, records) && RecordsJustified(entries, records)
    ensures forall n :: n in Indices(records) <==> 1 <= n <= count
  {
    forall n | 1 <= n <= |entries|
      ensures n in Indices(records)
    {
      assert entries[n - 1].entryIndex == n;
      assert n in table.Keys + Indices(records);
    }
    forall n | n in Indices(records)
      ensures 1 <= n <= |entries|
    {
      var r :| r in records && r.index == n;
      var i :| 0 <= i < |records| && records[i] == r;
      assert r in RecordsOf(entries);
      var e :| e in entries && WordCountRecord(e) == r;
      var j :| 0 <= j < |entries| && entries[j] == e;
    }
  }

  /**
    The log "the Fox" / "the fox ran": the histogram is the:2, fox:2, ran:1,
    case folded, and the entries' word counts are 2 and 3.
   */
  lemma TwoLineExample()
    ensures Tally(map[], AllWords(Numbered(["the Fox", "the fox ran"]))) == map["the" := 2, "fox" := 2, "ran" := 1]
    ensures WordCountRecord(Numbered(["the Fox", "the fox ran"])[0]) == CountRecord(1, 2)
    ensures WordCountRecord(Numbered(["the Fox", "the fox ran"])[1]) == CountRecord(2, 3)
  {
    ExampleEntries();
    ExampleFields();
    TwoEntryWords(LogEntry(1, "the Fox"), LogEntry(2, "the fox ran"));
    ExampleTally();
  }

  lemma ExampleEntries()
    ensures Numbered(["the Fox", "the fox ran"]) == [LogEntry(1, "the Fox"), LogEntry(2, "the fox ran")]
  {
  }

  /** The words of two entries are the first one's and then the second one's. */
  lemma TwoEntryWords(e1: LogEntry, e2: LogEntry)
    ensures AllWords([e1, e2]) == Fields(e1.data) + Fields(e2.data)
  {
    var s := [e1, e2];
    assert s[..1] == [e1];
    assert [e1][..0] == [];
    assert AllWords([e1]) == Fields(e1.data);
  }

  lemma ExampleFields()
    ensures Fields("the Fox") == ["the", "Fox"]
    ensures Fields("the fox ran") == ["the", "fox", "ran"]
  {
    ExampleFieldsOne();
    ExampleFieldsTwo();
  }

  lemma ExampleFieldsOne()
    ensures Fields("the Fox") == ["the", "Fox"]
  {
    assert IsWord("the") && IsWord("Fox");
    assert Join(["the", "Fox"]) == "the Fox";
    FieldsOfJoin(["the", "Fox"]);
  }

  lemma ExampleFieldsTwo()
    ensures Fields("the fox ran") == ["the", "fox", "ran"]
  {
    assert IsWord("the") && IsWord("fox") && IsWord("ran");
    assert Join(["the", "fox", "ran"]) == "the fox ran" by {
      assert Join(["fox", "ran"]) == "fox ran";
      assert "the" + " " + "fox ran" == "the fox ran";
    }
    FieldsOfJoin(["the", "fox", "ran"]);
  }

  lemma ExampleTally()
    ensures Tally(map[], ["the", "Fox"] + ["the", "fox", "ran"]) == map["the" := 2, "fox" := 2, "ran" := 1]
  {
    assert ToLower("the") == "the" && ToLower("fox") == "fox" && ToLower("ran") == "ran" by {
      LowerAlready("the");
      LowerAlready("fox");
      LowerAlready("ran");
    }
    assert ToLower("Fox") == "fox";
    var h1 := Tally(map[], ["the", "Fox"]);
    assert h1 == map["the" := 1, "fox" := 1] by {
      assert ["the", "Fox"][1..] == ["Fox"];
    }
    TallyAppend(map[], ["the", "Fox"], ["the", "fox", "ran"]);
    assert ["the", "fox", "ran"][1..] == ["fox", "ran"];
    assert ["fox", "ran"][1..] == ["ran"];
  }

  /** A string with no upper-case ASCII letter is its own lower-case form. */
  lemma LowerAlready(s: string)
    requires forall i :: 0 <= i < |s| ==> !('A' <= s[i] <= 'Z')
    ensures ToLower(s) == s
  {
  }
}
