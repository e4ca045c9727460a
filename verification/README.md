# S3 sink task: buffering and flush engine

This project models the core of a Kafka Connect sink task that writes records
to Amazon S3 (`S3SinkTask`). The sink task validates each record against its
topic's schema and appends the record's text to a per-topic buffer. When the
buffer holds `batchSize` records, or `batchTimeMs` has passed since the topic's
last flush, it flushes the buffer:

1. If an object already exists under the topic's key, it reads that object's
   lines.
2. It appends the buffered records, each followed by `"\n"`.
3. It overwrites the object.
4. Only after a successful write does it clear the buffer and stamp the flush
   time.

Keys are `<topic>/event<counter>-<timestamp>.txt`, built from an `int` counter
that every key generation bumps. On shutdown the sink task flushes every non-empty
buffer.

The model has the following modules:

- `SinkTask` is the sink task as the source has it, with the line-69
  correction listed under Findings: a class `S3SinkTask` whose fields
  `topicBuffers`, `topicLastFlushTimes`, `topicFileKeys` and `eventCounter`
  are updated in place by `Put`, `PutRecord`, `FlushRecords`,
  `GenerateFileKey` and `Stop`. It works over a class `ObjectStore` holding the
  bucket's objects. Each method is proved equal to a function of
  `FlushEngine` or `FileKeys` on the sink task's old state.
- `FlushEngine` defines those functions and proves the engine's properties
  about them:
  - the trigger;
  - append at the tail;
  - old lines first in a merge;
  - the buffer kept whenever a storage call fails;
  - no record lost or duplicated across a batch or a shutdown drain;
  - abort on the first rejected record.
- `FileKeys` covers the 32-bit counter, file keys and object keys, and proves
  that keys are unique in the counter.
- `Numerals` covers `%d` and `Integer.toHexString` formatting.
- `LineFormat` covers how a flush renders lines and how `BufferedReader.readLine`
  splits them back.
- `Payloads` covers record values and the text a record contributes.
- `Scenarios` holds concrete runs.

The outside world is passed in as parameters:

- A `Tick` carries the clock reading, the formatted timestamp and the storage
  fault (if any) met while one record, or one shutdown flush, is processed.
- A `SchemaRegistry` is an oracle that answers whether a topic has a schema and
  whether a payload decodes under it.
- `Stop` returns the order in which it visited the topics. A hash map's
  iteration order is not specified, so the method picks each next topic
  nondeterministically.

A topic never flushed reads last-flush time 0, so with a real clock its first
record already fires the time condition (`Scenarios.FirstRecordFlushesAlone`).
With `batchSize` 2, the records "a" and "b" are written together as "a\nb\n"
only while the clock is below `batchTimeMs` (`Scenarios.SizeTriggerWritesBatch`).

## Model

All source cells refer to `src/main/java/com/example/S3SinkTask.java`.

| member | source | states |
|---|---|---|
| Numerals.Numeral | src/main/java/com/example/S3SinkTask.java:134 | the numeral is a non-empty string of digits of the base, and it is one digit exactly when the number is below the base |
| Numerals.Decimal | src/main/java/com/example/S3SinkTask.java:134 | `%d` text of an int (ASCII digits) starts with '-' exactly when the int is negative, and every other character is a decimal digit |
| Numerals.DigitsInjective | src/main/java/com/example/S3SinkTask.java:134 | distinct naturals have distinct decimal numerals |
| Numerals.DecimalInjective | src/main/java/com/example/S3SinkTask.java:134 | distinct ints have distinct `%d` texts |
| Numerals.Hex | src/main/java/com/example/S3SinkTask.java:69 | `Integer.toHexString` of an unsigned 32-bit value is a non-empty string of hexadecimal digits only |
| LineFormat.Render | src/main/java/com/example/S3SinkTask.java:113-119 | (definition: every line followed by "\n") the text is at least one character per line; `LineFormat.RenderEndsWithNewline`, `LineFormat.RenderAppend` and `LineFormat.LinesOfRender` carry its properties |
| LineFormat.RenderEndsWithNewline | src/main/java/com/example/S3SinkTask.java:113-119 | the rendered text is empty exactly when there are no lines, and otherwise its last character is "\n" |
| LineFormat.LineEnd | src/main/java/com/example/S3SinkTask.java:112 | the first line of a text ends at the first '\n' or '\r', and holds no terminator |
| LineFormat.Lines | src/main/java/com/example/S3SinkTask.java:110-114 | the lines `readLine` returns until null hold no terminator |
| LineFormat.RenderAppend | src/main/java/com/example/S3SinkTask.java:105-120 | rendering the concatenation of two line sequences is rendering the first then the second |
| LineFormat.RenderSnoc | src/main/java/com/example/S3SinkTask.java:113 | appending one line and "\n" renders the sequence with that line added at the end |
| LineFormat.LinesOfRender | src/main/java/com/example/S3SinkTask.java:110-122 | reading back written terminator-free lines gives exactly those lines, in order |
| LineFormat.RereadIsStable | src/main/java/com/example/S3SinkTask.java:110-114 | rewriting an object from its lines and reading it again gives the same lines |
| FileKeys.Inc32 | src/main/java/com/example/S3SinkTask.java:132 | `eventCounter++` on an `int` is the successor reduced to 32-bit two's complement |
| FileKeys.BumpedIsWrapped | src/main/java/com/example/S3SinkTask.java:132 | k increments from c give c + k reduced to 32 bits |
| FileKeys.BumpedDiffers | src/main/java/com/example/S3SinkTask.java:132 | fewer than 2^32 increments never return the counter to its value |
| FileKeys.FileKey | src/main/java/com/example/S3SinkTask.java:134 | (definition: `event%d-%s.txt`) the key's length is ten plus the numeral's and the timestamp's; `FileKeys.FileKeyInjective` carries its property |
| FileKeys.FileKeyInjective | src/main/java/com/example/S3SinkTask.java:134 | file keys from different counter values differ, whatever their timestamps |
| FileKeys.ConsecutiveKeysDiffer | src/main/java/com/example/S3SinkTask.java:131-134 | two keys generated one after the other differ even with the same timestamp |
| FileKeys.ObjectKey | src/main/java/com/example/S3SinkTask.java:103 | (definition: `%s/%s`) the key's length is the topic's plus one plus the file key's; `FileKeys.ObjectKeyInjective` and `FileKeys.ObjectKeysOfTopicsDiffer` carry its properties |
| FileKeys.ObjectKeyInjective | src/main/java/com/example/S3SinkTask.java:103 | under one topic, different file keys give different object keys |
| FileKeys.ObjectKeysOfTopicsDiffer | src/main/java/com/example/S3SinkTask.java:103 | two different topics whose names hold no '/' never share an object key, whatever their file keys |
| Payloads.ValueToString | src/main/java/com/example/S3SinkTask.java:69 | `toString` of a byte array starts with "[B@" and continues with hexadecimal digits only, so it never holds a line terminator |
| Payloads.ToStringIgnoresPayload | src/main/java/com/example/S3SinkTask.java:69 | as written, two byte arrays with the same identity hash buffer the same line whatever they hold |
| Payloads.ToStringLosesPayload | src/main/java/com/example/S3SinkTask.java:69 | as written, payload "a" with identity hash 0x1f is buffered as "[B@1f", which is not "a" |
| Payloads.PayloadText | src/main/java/com/example/S3SinkTask.java:69 | the intended line is free of line terminators exactly when the payload holds no byte 0x0A or 0x0D, which is when the merge read-back applies to it |
| Payloads.PayloadTextInjective | src/main/java/com/example/S3SinkTask.java:69 | the intended line determines the payload |
| FlushEngine.LastFlush | src/main/java/com/example/S3SinkTask.java:71 | (definition: `getOrDefault(topic, 0L)`) a topic never flushed reads 0; `FlushEngine.FirstRecordFiresByTime` carries the consequence |
| FlushEngine.ShouldFlush | src/main/java/com/example/S3SinkTask.java:71 | (definition: size >= batchSize or now - last >= batchTimeMs) `FlushEngine.TriggerMonotone`, `FlushEngine.FirstRecordFiresByTime` and the `FlushEngine.Accept` contract carry its properties |
| FlushEngine.TriggerMonotone | src/main/java/com/example/S3SinkTask.java:71 | once the trigger fires, a larger buffer or a later clock keeps it firing |
| FlushEngine.FlushKey | src/main/java/com/example/S3SinkTask.java:103 | (definition: the stored file key of the topic, else a fresh one, under the topic) `FlushEngine.Flush` and `FlushEngine.Accept` state which key a flush targets, and `FileKeys.ObjectKeyInjective` that distinct file keys give distinct targets |
| FlushEngine.Merged | src/main/java/com/example/S3SinkTask.java:105-122 | for a batch of lines without '\n' or '\r', the written object reads back as the existing lines (none if absent) followed by the batch |
| FlushEngine.Flush | src/main/java/com/example/S3SinkTask.java:100-129 | an empty buffer changes nothing; otherwise the counter is bumped once and the key is the stored key or the fresh one; a successful write merges, clears the buffer and stamps `now`; a failing call changes only the counter and reports the step whose fault it met; the write happens exactly when there is no fault, or a read fault on a key holding no object (which is then never read) |
| FlushEngine.FlushConserves | src/main/java/com/example/S3SinkTask.java:100-129 | for every topic, its buffer before a flush is what the flush wrote for it plus its buffer after |
| FlushEngine.FlushFrame | src/main/java/com/example/S3SinkTask.java:100-129 | a flush leaves every other topic's buffer and the set of topics unchanged |
| FlushEngine.Accept | src/main/java/com/example/S3SinkTask.java:64-79 | rejected exactly when the topic has no schema or the payload is invalid, with the matching error; otherwise the line goes to the tail of the topic's buffer; the flush is attempted exactly when size >= batchSize or now - lastFlush >= batchTimeMs; the attempted key is the stored key or the first fresh one; a written batch is the old buffer plus the line, merged into that key's object, with the buffer cleared and `now` stamped; a triggered flush writes exactly when the tick has no fault, or a read fault on a key holding no object; a failed attempt keeps the buffer, the last-flush times and the objects; other topics are unchanged; after a flush attempt the counter moved twice and the topic holds a fresh key |
| FlushEngine.PutBatch | src/main/java/com/example/S3SinkTask.java:62-85 | a completed batch reports one outcome per record; an aborted one stops at a record of the batch with one outcome per earlier record |
| FlushEngine.AbortPersists | src/main/java/com/example/S3SinkTask.java:80-83 | once a record is rejected, later records change nothing |
| FlushEngine.AbortedAtRejectedRecord | src/main/java/com/example/S3SinkTask.java:63-83 | an aborted batch completed every record before the rejected one, and that record was rejected for the reported reason |
| FlushEngine.PutBatchNext | src/main/java/com/example/S3SinkTask.java:63-83 | one more record either aborts the whole batch there or extends the completed prefix by its step |
| FlushEngine.AcceptConserves | src/main/java/com/example/S3SinkTask.java:69-75 | for every topic, the old buffer plus the accepted line is what was written plus the new buffer |
| FlushEngine.PutConserves | src/main/java/com/example/S3SinkTask.java:62-85 | for every topic, the old buffer plus the batch's lines of that topic, in order, is the batches written plus the new buffer |
| FlushEngine.StopOver | src/main/java/com/example/S3SinkTask.java:137-145 | the drain reports one outcome per topic visited and keeps the set of topics |
| FlushEngine.StopConserves | src/main/java/com/example/S3SinkTask.java:140-144 | for every topic, its old buffer is what the drain wrote for it plus what is left |
| FlushEngine.StopDrains | src/main/java/com/example/S3SinkTask.java:140-144 | a visited topic whose flush met no fault ends empty; one whose exists-check or write failed keeps its whole buffer, whatever other topics met |
| FlushEngine.StopUntouched | src/main/java/com/example/S3SinkTask.java:140-144 | a topic the drain has not reached keeps its buffer |
| FlushEngine.TwoFlushesConcatenate | src/main/java/com/example/S3SinkTask.java:105-122 | for a first batch C1 of lines without '\n' or '\r', writing C1 to an absent key and then C2 to the same key leaves C1's lines followed by C2's |
| FlushEngine.FirstRecordFiresByTime | src/main/java/com/example/S3SinkTask.java:71 | a topic never flushed reads last-flush time 0, so with a clock past batchTimeMs its first accepted record fires the trigger |
| SinkTask.ObjectStore.DoesObjectExist | src/main/java/com/example/S3SinkTask.java:108 | answers whether the key holds an object, unless the call throws |
| SinkTask.ObjectStore.GetObject | src/main/java/com/example/S3SinkTask.java:109 | returns the object's text; throws when the call fails or no object exists |
| SinkTask.ObjectStore.PutObject | src/main/java/com/example/S3SinkTask.java:122 | replaces the key's object with the content, or throws and changes nothing |
| SinkTask.ExistingText | src/main/java/com/example/S3SinkTask.java:110-114 | the read loop builds the stored lines, each followed by "\n" |
| SinkTask.AppendLines | src/main/java/com/example/S3SinkTask.java:118-120 | the append loop adds the buffered records, in order, each followed by "\n" |
| SinkTask.S3SinkTask.Start | src/main/java/com/example/S3SinkTask.java:39-59 | empty maps, counter 0, the configured thresholds |
| SinkTask.S3SinkTask.GenerateFileKey | src/main/java/com/example/S3SinkTask.java:131-135 | the counter moves by one (32-bit) and the key names the new counter and the timestamp |
| SinkTask.S3SinkTask.FlushRecords | src/main/java/com/example/S3SinkTask.java:100-129 | the new task state and the outcome are those of `FlushEngine.Flush` on the old state |
| SinkTask.S3SinkTask.PutRecord | src/main/java/com/example/S3SinkTask.java:64-79 | the step is `FlushEngine.Accept` on the old state; a rejection changes nothing |
| SinkTask.S3SinkTask.Put | src/main/java/com/example/S3SinkTask.java:62-85 | the result and the new state are those of `FlushEngine.PutBatch` on the old state |
| SinkTask.S3SinkTask.Stop | src/main/java/com/example/S3SinkTask.java:137-145 | the visit order lists every old topic exactly once, and the new state and outcomes are those of `FlushEngine.StopOver` in that order |
| Scenarios.SizeTriggerWritesBatch | src/main/java/com/example/S3SinkTask.java:69-74 | with batchSize 2 and a clock below batchTimeMs, "a" waits, "b" fires the flush, the object holds "a\nb\n", the buffer is empty and the topic holds key 2 |
| Scenarios.FirstRecordFlushesAlone | src/main/java/com/example/S3SinkTask.java:71 | with a real clock, "a" is written alone and "b" waits in the buffer |
| Scenarios.MergeKeepsExistingLines | src/main/java/com/example/S3SinkTask.java:105-122 | flushing "y" to a key holding "x\n" leaves "x\ny\n" |
| Scenarios.RetryCarriesFailedBatch | src/main/java/com/example/S3SinkTask.java:122-127 | after a failed write, the next triggered flush of the topic writes the kept batch followed by the new record |

## Left out

- AWS client construction, credentials, region and bucket name (lines 40-48) are not modelled. Storage is the `ObjectStore` object map, and each call may throw as the tick's fault says.
- Schema-registry lookup and Avro decoding (lines 87-98) are an oracle. A topic whose lookup throws and a topic with no schema both count as missing. A value that is not a byte array, which the source's cast rejects, counts as invalid.
- The clock and `SimpleDateFormat` are parameters. One tick serves a whole record, so the trigger's clock read (line 71) and the flush's stamp (line 124) see the same instant, and the two key generations of one record share one timestamp.
- Byte-stream decoding of a stored object (the reader's default charset) is not modelled. Objects are text as written, and reading splits it with `readLine`'s rules.
- `String.format` localisation is not modelled: `Numerals.Decimal` prints ASCII digits, as the JVM does under a default locale whose digits are ASCII; a locale with other digits (such as Thai digits) would change the keys' text but not their uniqueness.
- Long overflow of `now - lastFlush` is not modelled; clock values are unbounded integers.
- Races between task instances on the read-modify-write sequence are not modelled; the model is one sequential task.
- `printStackTrace` and `version()` are not modelled. A swallowed failure is reported as a `Failed` outcome instead.
- S3SinkConfig.java and S3SinkConnector.java are not part of this model; they declare configuration keys and pass configuration through.
- Payload bytes 0x0A and 0x0D: the model buffers the payload's bytes as text, so a payload holding either byte is written as a line that splits into several lines when the object is read back by a later flush. The merge read-back (`FlushEngine.Merged`, `FlushEngine.TwoFlushesConcatenate`) is proved only for lines without such bytes.
- SinkTask.S3SinkTask.Put: requires one tick per record, which the source does not need, because the tick is how the model receives the clock, timestamp and storage faults.
- FlushEngine.Accept: buffers `PayloadText` of the payload rather than the `toString` text the source buffers (see Findings). Its contract therefore speaks of the intended line, not of "[B@…".

## Findings

| source | as written | input that shows it | evidently intended | confidence | as-written member | corrected member |
|---|---|---|---|---|---|---|
| src/main/java/com/example/S3SinkTask.java:69 | buffers `record.value().toString()`. Validation at line 94 casts the value to `byte[]`, so every accepted value is a byte array, and its `toString` is "[B@" plus its identity hash, not its content | the one-byte payload 0x61 ("a") with identity hash 0x1f is buffered as "[B@1f" | buffer the payload's own content as the line | high; not executed | Payloads.ToStringLosesPayload | Payloads.PayloadTextInjective |
