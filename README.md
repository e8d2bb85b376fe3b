# Ring-buffer log processor, modelled in Dafny

The original program counts the words of a log file. A reader numbers the
lines from 1 and pushes them into a queue, `RingBuffer`. Workers take one entry
at a time. For each entry a worker:

- splits the line into white-space separated words;
- adds each word, lower-cased, to an occurrence histogram;
- records the entry's number of words in a word-count table keyed by the entry
  index.

When the queue is full at that moment, the worker flushes the table to the
word-count file as `(index, count)` records and empties it. At the end of the
run the remainder of the table is flushed.

This project models that core in three modules:

- `Text` (`text.dfy`): splitting a line into words, as Go's `strings.Fields`
  does, and lower-casing, on characters. Two properties are proved:
  - splitting loses and invents no non-space character;
  - splitting words joined by blanks gives the words back.
- `RingBuffers` (`ring_buffer.dfy`): `LogEntry`, and the class `RingBuffer`,
  with its slice as a `seq` field plus its size and its read and write offsets.
  - Ghost histories of everything enqueued and dequeued make FIFO order, size
    bookkeeping and offset wrap-around exact.
  - Client methods restate the queue's unit tests as proved contracts.
- `LogProcessing` (`log_processor.dfy`): the class `LogProcessor`, with the
  reader's numbering loop, one worker iteration, the flush and the final flush.
  - Pure specifications cover the histogram (`Tally`), the numbering
    (`Numbered`) and a flush (`Flushed`).
  - Lemmas tie these together over a whole run: the histogram counts every
    word of the log, and every record written is the correct record of a
    line. When the final flush completes, every line has a record; when no
    write fails, the records written hold exactly one record per line.

I/O is replaced by parameters. The log file is the sequence of its lines. The
word-count file is the sequence of records written in this run. A failing write
is a parameter `failAt`, the number of the first write that fails. The order in
which Go iterates over a map is a nondeterministic choice.

On a failed write the flush returns early and keeps the table
(ring_buffer.go:195-197). `LogProcessing.RetryAfterFailureRepeats` proves the
consequence: a later successful flush writes the pairs already written again,
so an index appears twice in the records written.

## Model

| member | source | states |
|---|---|---|
| Text.Fields | ring_buffer.go:176 | every word produced is non-empty and contains no white-space character |
| Text.FieldsKeepNonSpace | ring_buffer.go:176 | the words, concatenated, are exactly the non-space characters of the line, in order |
| Text.FieldsOfJoin | ring_buffer.go:176 | splitting words joined by single blanks gives back those words |
| Text.ToLower | ring_buffer.go:179 | lower-casing keeps the length, leaves no ASCII capital, and changes a character only by folding an ASCII capital to its lower-case letter |
| Text.ToLowerIdempotent | ring_buffer.go:179 | lower-casing twice is lower-casing once |
| RingBuffers.Advance | ring_buffer.go:226-231 | an offset below the capacity moves one step and wraps to 0 on reaching the capacity, staying below it; with capacity 0 it never wraps |
| RingBuffers.AdvanceWrapped | ring_buffer.go:247-252 | after n steps from 0 the offset is n modulo the capacity (n itself for capacity 0), for both offsets |
| RingBuffers.RingBuffer.constructor | ring_buffer.go:205-211 | a new queue is empty, has the given capacity, size 0 and both offsets 0 |
| RingBuffers.RingBuffer.IsFull | ring_buffer.go:213-215 | the queue is full exactly when the number of waiting entries equals the capacity, so never once it is past it |
| RingBuffers.RingBuffer.Enqueue | ring_buffer.go:217-232 | the item goes to the tail and is never rejected; size grows by one; the write offset advances and wraps; nothing else changes |
| RingBuffers.RingBuffer.Dequeue | ring_buffer.go:234-255 | on an empty queue it returns None and changes nothing; otherwise it returns the head, removes only it, decrements the size and advances the read offset |
| RingBuffers.OffsetsInRange | ring_buffer.go:226-231 | with a positive capacity each offset is its operation count modulo the capacity, so it lies in [0, capacity) |
| RingBuffers.FifoRoundTrip | ring_buffer.go:217-255 | entries enqueued and then dequeued as many times come back in the order they went in, whatever the capacity |
| RingBuffers.SizeAfterEnqueues | ring_buffer_test.go:7-49 | after k enqueues the size is k, even past the capacity |
| RingBuffers.SizeAfterDequeues | ring_buffer_test.go:51-99 | after k enqueues and p dequeues the size is k - p, or 0 once dequeues run past the end |
| LogProcessing.TallyCounts | ring_buffer.go:178-180 | counting words raises each key's count by the number of words that lower-case to it; every other key keeps its count and its presence |
| LogProcessing.TallyAppend | ring_buffer.go:178-180 | counting two runs of words one after the other is counting their concatenation |
| LogProcessing.Numbered | ring_buffer.go:154-162 | the reader's entries are one per line, the i-th holding line i and numbered i + 1 |
| LogProcessing.NumberedIndices | ring_buffer.go:154-162 | the reader's indices are strictly increasing and are exactly 1 to the number of lines |
| LogProcessing.FlushWritesTable | ring_buffer.go:190-201 | a flush with no failing write writes every pair of the table and nothing else, and empties the table |
| LogProcessing.FlushEmptyWritesNothing | ring_buffer.go:190-201 | flushing an empty table writes nothing and leaves it empty |
| LogProcessing.RetryAfterFailureRepeats | ring_buffer.go:193-200 | a failed flush keeps the table, so the next successful flush writes an index that was already written |
| LogProcessing.ProcessKeepsAggregates | ring_buffer.go:175-184 | counting one more entry keeps the histogram equal to the count of all words taken, and every table pair and written record the record of a taken entry |
| LogProcessing.FlushKeepsAggregates | ring_buffer.go:190-201 | a flush, failed or not, keeps every table pair and written record the record of a taken entry, and every taken index in the table or written |
| LogProcessing.LogProcessor.constructor | ring_buffer.go:90-94 | a new processor has an empty queue of the given capacity, an empty histogram, an empty table and no records |
| LogProcessing.LogProcessor.ReadLogFile | ring_buffer.go:144-168 | the reader enqueues the lines at the tail in reading order, numbered from 1, and takes nothing out |
| LogProcessing.LogProcessor.CountWords | ring_buffer.go:178-180 | the word loop adds the words, lower-cased, to the histogram and changes nothing else |
| LogProcessing.LogProcessor.CountEntry | ring_buffer.go:176-181 | an entry's words, lower-cased, are added to the histogram, and the table maps the entry's index to its number of words; no record is written |
| LogProcessing.LogProcessor.ProcessLogLine | ring_buffer.go:173-186 | one worker iteration takes the head entry and counts its words. It sets the entry's word count in the table. When the queue is then full, the result is the flush of that table; otherwise the records are unchanged |
| LogProcessing.LogProcessor.ProcessPending | ring_buffer.go:170-188 | workers that take one entry per signal until the queue is empty, each flush failing at its own chosen write or not at all, leave every entry taken and keep the run accounted for: histogram exact, table pairs and records justified; with no failing write, indices also distinct and within 1 to the number taken |
| LogProcessing.LogProcessor.FlushOccurrenceCounts | ring_buffer.go:190-201 | the flush appends distinct records, each a pair of the table. A failing write stops it with the earlier writes made and the table kept; otherwise every pair is written and the table emptied |
| LogProcessing.LogProcessor.FlushRemainder | ring_buffer.go:136-138 | the last flush is made only when the table is not empty; an empty table writes nothing |
| LogProcessing.RunStep | ring_buffer.go:173-186 | one worker iteration, whether or not its flush fails, keeps the histogram equal to the count of every word taken and every table pair and record justified by a taken entry; when no write has failed, indices also stay distinct and within 1 to the number taken |
| LogProcessing.RunEnd | ring_buffer.go:136-138 | once all entries are taken, the final flush, failed or not, leaves the histogram of every word and only correct records; when it completes, the indices written are exactly 1 to n; when no write failed at all, there is exactly one record per line |
| LogProcessing.EveryIndexWritten | ring_buffer.go:136-138 | with the table empty after the final flush, the indices written are exactly 1 to the number of lines, in both directions |
| LogProcessing.ReadAndWork | ring_buffer.go:108-122 | after the reader has enqueued every line and the workers have taken every entry, with any failing writes, the queue is empty, the entries taken are the numbered lines and the run is accounted for |
| LogProcessing.Conclude | ring_buffer.go:135-138 | the final flush of a run whose entries are all taken yields the exact histogram and only correct records; every index 1 to n when it completes; exactly once each when no write failed |
| LogProcessing.SequentialRun | ring_buffer.go:89-139 | a whole run, with a failing write or none in each flush, yields the histogram of every word of the log and only correct records of its lines; when the final flush completes, every index 1 to n is written; when no write fails, exactly one record per line |
| LogProcessing.TwoLineExample | ring_buffer.go:175-181 | for the log "the Fox" / "the fox ran" the histogram is the:2, fox:2, ran:1 and the word counts are 2 and 3 |

## Left out

- Concurrency: the worker goroutines, the signal channel, the wait group, the
  done channel and the three mutexes (ring_buffer.go:96-124, 170-187, 218-219,
  235-236). Each worker iteration is one atomic step. `RunStep`'s invariant
  holds whatever entries were taken before, so it does not depend on the
  schedule; only the "reader first, then workers" schedule is modelled as a
  whole run. That schedule cannot happen in the code with more than 4096
  lines, because the reader blocks once the signal channel holds its 4096
  signals (ring_buffer.go:100, 162).
- Text.Fields: approximates Go's `strings.Fields` on Unicode characters, using
  the white-space set of `unicode.IsSpace`. Invalid UTF-8 bytes are not
  modelled.
- Text.ToLower: folds ASCII letters only. The Unicode case mapping of Go's
  `strings.ToLower` is not modelled.
- LogProcessing.LogProcessor.ReadLogFile: the file is the sequence of its
  lines. An open or scan error ends reading early, which is the same as a
  shorter line sequence. The scanner's 1 MiB line-length limit is not modelled.
- LogProcessing.LogProcessor.FlushOccurrenceCounts: the records are the writes
  made to the buffered writer. That writer is never flushed in the code
  (ring_buffer.go:191-198), so whether they reach the file is not modelled.
  The `"%d %d\n"` text format is not modelled.
- LogProcessing.LogProcessor.ProcessLogLine: requires a non-empty queue. The
  code uses the dequeued entry without a nil check
  (ring_buffer.go:175-176), and that crash is not modelled.
- LogProcessing.SequentialRun: a failing write is chosen per flush, as the
  number of the write that fails. Exactly one record per line is proved only
  when no write fails; with failures the records may repeat an index, as
  `RetryAfterFailureRepeats` shows.
- The final dump of the histogram to the occurrences file
  (ring_buffer.go:127-133): file output in Go's unspecified map order. The
  histogram it writes is the one `SequentialRun` proves.
- The 64-bit integers: counts and line numbers are unbounded, and overflow is
  not modelled.
- The word-count file is opened in append mode. Its content from earlier runs
  is not modelled; the records are those of this run.
- `LogEntry` is a value. The Go queue holds references, and aliasing of entries
  is not modelled.
- The capacity is a natural number. A negative capacity makes Go's `make`
  panic in `NewRingBuffer`.
- `main`'s flag parsing, CPU profiling, file creation and timing
  (ring_buffer.go:51-99, 140-141): setup and I/O.
- benchmark_test.go: performance measurement only.
