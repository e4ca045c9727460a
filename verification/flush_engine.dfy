/**
 * The buffering-and-flush engine of the S3 sink task, as functions over the
 * task's state: per-topic buffers, the dual flush trigger, the
 * read-merge-write flush, the processing of a batch of records and the
 * shutdown drain. `SinkTask.S3SinkTask` runs these steps in place and is
 * proved to agree with them.
 *
 * The world outside the sink task is passed in: the clock, the formatted
 * timestamp and the storage fault that a flush meets come as a `Tick`, and
 * the schema registry and Avro validation as a `SchemaRegistry` oracle.
 */
module FlushEngine {
  import opened FileKeys
  import opened LineFormat
  import opened Payloads

  /** `s3.batch.size` and `s3.batch.time.ms`, read once at start. */
  datatype Config = Config(batchSize: int, batchTimeMs: int)

  /**
   * The sink task's fields `topicBuffers`, `topicLastFlushTimes`, `topicFileKeys`
   * and `eventCounter`, and the bucket's objects (key to text).
   */
  datatype Task = Task(
    buffers: map<string, seq<string>>,
    lastFlush: map<string, int>,
    fileKeys: map<string, string>,
    counter: int32,
    objects: map<string, string>)

  /** The state right after `start`: no buffers, a counter at 0, the bucket as it is. */
  function Started(objects: map<string, string>): Task
  {
    Task(map[], map[], map[], 0, objects)
  }

  /** The three storage calls of a flush; each may throw. */
  datatype StoreStep = ExistsCheck | Read | Write
  datatype StoreFault = NoFault | FailsAt(step: StoreStep)

  /** What the outside world answers while one record (or one shutdown flush) is processed. */
  datatype Tick = Tick(now: int, stamp: string, fault: StoreFault)

  /** The effect of one `flushRecords` call; the source swallows failures, the model reports them. */
  datatype FlushOutcome =
    | Skipped
    | Written(topic: string, key: string, batch: seq<string>)
    | Failed(topic: string, key: string, step: StoreStep)

  datatype SinkRecord = SinkRecord(topic: string, value: Value)

  /** Schema lookup per topic and Avro decoding of a payload against that schema. */
  datatype SchemaRegistry = SchemaRegistry(hasSchema: string -> bool, conforms: (string, seq<byte>) -> bool)

  datatype PutError = SchemaNotFound(topic: string) | InvalidPayload(topic: string)

  datatype StepResult = Accepted(task: Task, flush: FlushOutcome) | Rejected(error: PutError)

  datatype BatchResult =
    | Completed(task: Task, flushes: seq<FlushOutcome>)
    | Aborted(task: Task, flushes: seq<FlushOutcome>, at: nat, error: PutError)

  /** A topic's buffer; a topic never seen has none, which reads as empty. */
  function Buffer(t: Task, topic: string): seq<string>
  {
    if topic in t.buffers then t.buffers[topic] else []
  }

  /** `topicLastFlushTimes.getOrDefault(topic, 0L)`. */
  function LastFlush(t: Task, topic: string): int
  {
    if topic in t.lastFlush then t.lastFlush[topic] else 0
  }

  /** The dual trigger: enough records, or enough time since the last flush. */
  predicate ShouldFlush(cfg: Config, size: int, now: int, last: int)
  {
    size >= cfg.batchSize || now - last >= cfg.batchTimeMs
  }

  /** Once the trigger fires, more records or a later clock keep it firing. */
  lemma TriggerMonotone(cfg: Config, size: int, now: int, last: int, size': int, now': int)
    requires size <= size' && now <= now'
    ensures ShouldFlush(cfg, size, now, last) ==> ShouldFlush(cfg, size', now', last)
  {
  }

  /** The lines already stored under `key`; none when no object exists there. */
  function Existing(objects: map<string, string>, key: string): seq<string>
  {
    if key in objects then Lines(objects[key]) else []
  }

  /** The text a flush writes: the existing lines, then the batch, each line ended by "\n". */
  function Merged(objects: map<string, string>, key: string, batch: seq<string>): (content: string)
    ensures AllClean(batch) ==> Lines(content) == Existing(objects, key) + batch
  {
    var existing := Existing(objects, key);
    RenderAppend(existing, batch);
    assert AllClean(batch) ==> Lines(Render(existing + batch)) == existing + batch by {
      if AllClean(batch) {
        LinesOfRender(existing + batch);
      }
    }
    Render(existing) + Render(batch)
  }

  /** The key a flush of `topic` targets: the stored file key, else a fresh one made from `counter`. */
  function FlushKey(t: Task, topic: string, counter: int32, stamp: string): string
  {
    ObjectKey(topic, if topic in t.fileKeys then t.fileKeys[topic] else FileKey(counter, stamp))
  }

  /**
   * `flushRecords(topic)`. On a non-empty buffer the default key is always
   * generated first, so the counter moves even when a stored key is used or
   * the flush then fails.
   */
  function Flush(t: Task, topic: string, now: int, stamp: string, fault: StoreFault): (r: (Task, FlushOutcome))
    requires topic in t.buffers
    ensures r.1.Skipped? <==> t.buffers[topic] == []
    ensures r.1.Skipped? ==> r.0 == t
    ensures !r.1.Skipped? ==>
      && r.0.counter == Inc32(t.counter)
      && r.1.topic == topic && r.1.key == FlushKey(t, topic, r.0.counter, stamp)
    ensures r.1.Written? ==>
      && r.1.batch == t.buffers[topic]
      && r.0 == t.(counter := r.0.counter,
                   buffers := t.buffers[topic := []],
                   lastFlush := t.lastFlush[topic := now],
                   objects := t.objects[r.1.key := Merged(t.objects, r.1.key, r.1.batch)])
    ensures r.1.Failed? ==> r.0 == t.(counter := Inc32(t.counter)) && fault == FailsAt(r.1.step)
    ensures !r.1.Skipped? ==>
      (r.1.Written? <==> fault == NoFault || (fault == FailsAt(Read) && r.1.key !in t.objects))
  {
    var batch := t.buffers[topic];
    if batch == [] then (t, Skipped)
    else
      var c := Inc32(t.counter);
      var key := FlushKey(t, topic, c, stamp);
      var t1 := t.(counter := c);
      var written := (t1.(buffers := t.buffers[topic := []],
                          lastFlush := t.lastFlush[topic := now],
                          objects := t.objects[key := Merged(t.objects, key, batch)]),
                      Written(topic, key, batch));
      match fault
      case NoFault => written
      case FailsAt(ExistsCheck) => (t1, Failed(topic, key, ExistsCheck))
      // the object is read only when it exists
      case FailsAt(Read) => if key in t.objects then (t1, Failed(topic, key, Read)) else written
      case FailsAt(Write) => (t1, Failed(topic, key, Write))
  }

  /** A flush of one topic leaves every other topic's buffer, and the set of topics, as it was. */
  lemma FlushFrame(t: Task, topic: string, now: int, stamp: string, fault: StoreFault, other: string)
    requires topic in t.buffers && other != topic
    ensures Buffer(Flush(t, topic, now, stamp, fault).0, other) == Buffer(t, other)
    ensures Flush(t, topic, now, stamp, fault).0.buffers.Keys == t.buffers.Keys
  {
  }

  /** The record passes the schema check: a byte array that decodes under the topic's schema. */
  predicate Validates(registry: SchemaRegistry, record: SinkRecord)
  {
    record.value.Bytes? && registry.conforms(record.topic, record.value.data)
  }

  /** The line a record adds to its topic's buffer. */
  function RecordText(record: SinkRecord): string
  {
    if record.value.Bytes? then PayloadText(record.value.data) else ""
  }

  /**
   * One iteration of `put`'s loop: look up the schema, validate, append to
   * the topic's buffer (creating it first), then flush if the trigger fires
   * and store a fresh key for the topic's next batch.
   */
  function Accept(cfg: Config, registry: SchemaRegistry, t: Task, record: SinkRecord, tick: Tick): (r: StepResult)
    ensures r.Rejected? <==> !registry.hasSchema(record.topic) || !Validates(registry, record)
    ensures r.Rejected? ==>
      && r.error.topic == record.topic
      && (r.error.SchemaNotFound? <==> !registry.hasSchema(record.topic))
    ensures r.Accepted? ==>
      var topic, text := record.topic, RecordText(record);
      && (r.flush.Skipped? <==> !ShouldFlush(cfg, |Buffer(t, topic)| + 1, tick.now, LastFlush(t, topic)))
      && (!r.flush.Written? ==> Buffer(r.task, topic) == Buffer(t, topic) + [text])
      && (r.flush.Written? ==>
            && Buffer(r.task, topic) == [] && r.flush.topic == topic
            && r.flush.batch == Buffer(t, topic) + [text]
            && r.task.lastFlush == t.lastFlush[topic := tick.now])
      && (forall x :: x != topic ==> Buffer(r.task, x) == Buffer(t, x))
      && r.task.buffers.Keys == t.buffers.Keys + {topic}
      && (r.flush.Skipped? ==>
            && r.task.counter == t.counter && r.task.fileKeys == t.fileKeys
            && r.task.objects == t.objects && r.task.lastFlush == t.lastFlush)
      && (r.flush.Written? ==>
            r.task.objects == t.objects[r.flush.key := Merged(t.objects, r.flush.key, r.flush.batch)])
      && (r.flush.Failed? ==> r.task.objects == t.objects && r.task.lastFlush == t.lastFlush)
      && (!r.flush.Skipped? ==>
            && (r.flush.Written? <==> tick.fault == NoFault || (tick.fault == FailsAt(Read) && r.flush.key !in t.objects))
            && r.flush.key == FlushKey(t, topic, Inc32(t.counter), tick.stamp)
            && r.task.counter == Inc32(Inc32(t.counter))
            && r.task.fileKeys == t.fileKeys[topic := FileKey(r.task.counter, tick.stamp)])
  {
    var topic := record.topic;
    if !registry.hasSchema(topic) then Rejected(SchemaNotFound(topic))
    else if !Validates(registry, record) then Rejected(InvalidPayload(topic))
    else
      var buffer := Buffer(t, topic) + [PayloadText(record.value.data)];
      var t1 := t.(buffers := t.buffers[topic := buffer]);
      if ShouldFlush(cfg, |buffer|, tick.now, LastFlush(t1, topic)) then
        var (t2, outcome) := Flush(t1, topic, tick.now, tick.stamp, tick.fault);
        var c := Inc32(t2.counter);
        Accepted(t2.(counter := c, fileKeys := t2.fileKeys[topic := FileKey(c, tick.stamp)]), outcome)
      else
        Accepted(t1, Skipped)
  }

  /**
   * `put(records)`: the records in order until one is rejected; the
   * exception then aborts the rest of the batch, and what earlier records
   * did stays done.
   */
  function PutBatch(cfg: Config, registry: SchemaRegistry, t: Task, records: seq<SinkRecord>, ticks: seq<Tick>): (r: BatchResult)
    requires |ticks| == |records|
    ensures r.Completed? ==> |r.flushes| == |records|
    ensures r.Aborted? ==> r.at < |records| && |r.flushes| == r.at
    decreases |records|
  {
    if records == [] then Completed(t, [])
    else
      var n := |records| - 1;
      var prev := PutBatch(cfg, registry, t, records[..n], ticks[..n]);
      if prev.Aborted? then prev
      else match Accept(cfg, registry, prev.task, records[n], ticks[n])
        case Rejected(e) => Aborted(prev.task, prev.flushes, n, e)
        case Accepted(t', outcome) => Completed(t', prev.flushes + [outcome])
  }

  /** The texts of the records of `topic`, in arrival order. */
  function AcceptedTexts(records: seq<SinkRecord>, topic: string): seq<string>
  {
    if records == [] then []
    else
      var n := |records| - 1;
      AcceptedTexts(records[..n], topic) + (if records[n].topic == topic then [RecordText(records[n])] else [])
  }

  /** The batches written for `topic`, in flush order. */
  function Drained(flushes: seq<FlushOutcome>, topic: string): seq<string>
  {
    if flushes == [] then []
    else
      var n := |flushes| - 1;
      Drained(flushes[..n], topic) + (if flushes[n].Written? && flushes[n].topic == topic then flushes[n].batch else [])
  }

  /** Once a record is rejected, the later ones change nothing and the error stands. */
  lemma {:induction false} AbortPersists(cfg: Config, registry: SchemaRegistry, t: Task, records: seq<SinkRecord>, ticks: seq<Tick>, k: nat)
    requires |ticks| == |records| && k <= |records|
    requires PutBatch(cfg, registry, t, records[..k], ticks[..k]).Aborted?
    ensures PutBatch(cfg, registry, t, records, ticks) == PutBatch(cfg, registry, t, records[..k], ticks[..k])
    decreases |records| - k
  {
    if k < |records| {
      PutBatchPrefix(cfg, registry, t, records, ticks, k);
      if k + 1 == |records| {
        assert records[..k + 1] == records && ticks[..k + 1] == ticks;
      } else {
        AbortPersists(cfg, registry, t, records, ticks, k + 1);
      }
    } else {
      assert records[..k] == records && ticks[..k] == ticks;
    }
  }

  /**
   * An aborted batch stopped exactly at the rejected record: every record
   * before it was fully processed, and that record was rejected for the
   * reason given.
   */
  lemma {:induction false} AbortedAtRejectedRecord(cfg: Config, registry: SchemaRegistry, t: Task, records: seq<SinkRecord>, ticks: seq<Tick>)
    requires |ticks| == |records|
    requires PutBatch(cfg, registry, t, records, ticks).Aborted?
    ensures var r := PutBatch(cfg, registry, t, records, ticks);
      && PutBatch(cfg, registry, t, records[..r.at], ticks[..r.at]) == Completed(r.task, r.flushes)
      && Accept(cfg, registry, r.task, records[r.at], ticks[r.at]) == Rejected(r.error)
    decreases |records|
  {
    var n := |records| - 1;
    var prev := PutBatch(cfg, registry, t, records[..n], ticks[..n]);
    if prev.Aborted? {
      AbortedAtRejectedRecord(cfg, registry, t, records[..n], ticks[..n]);
      assert records[..n][..prev.at] == records[..prev.at];
      assert ticks[..n][..prev.at] == ticks[..prev.at];
      assert records[..n][prev.at] == records[prev.at] && ticks[..n][prev.at] == ticks[prev.at];
    }
  }

  /** One accepted record: the buffer before it plus its line is what was written plus what is left. */
  lemma AcceptConserves(cfg: Config, registry: SchemaRegistry, t: Task, record: SinkRecord, tick: Tick, topic: string)
    requires Accept(cfg, registry, t, record, tick).Accepted?
    ensures var r := Accept(cfg, registry, t, record, tick);
      Buffer(t, topic) + (if record.topic == topic then [RecordText(record)] else [])
        == Drained([r.flush], topic) + Buffer(r.task, topic)
  {
    var x := record.topic;
    var buffer := Buffer(t, x) + [RecordText(record)];
    var t1 := t.(buffers := t.buffers[x := buffer]);
    if ShouldFlush(cfg, |buffer|, tick.now, LastFlush(t1, x)) {
      FlushConserves(t1, x, tick.now, tick.stamp, tick.fault, topic);
    } else {
      assert [Skipped][..0] == [];
    }
  }

  /** A completed batch is its prefix completed and the last record accepted. */
  lemma PutBatchLast(cfg: Config, registry: SchemaRegistry, t: Task, records: seq<SinkRecord>, ticks: seq<Tick>)
    requires |ticks| == |records| && records != []
    requires PutBatch(cfg, registry, t, records, ticks).Completed?
    ensures var n := |records| - 1;
      var prev := PutBatch(cfg, registry, t, records[..n], ticks[..n]);
      && prev.Completed?
      && var step := Accept(cfg, registry, prev.task, records[n], ticks[n]);
      && step.Accepted?
      && PutBatch(cfg, registry, t, records, ticks) == Completed(step.task, prev.flushes + [step.flush])
  {
  }

  /**
   * One more record of a batch whose first `i` records completed: if it is
   * rejected the whole batch aborts there, otherwise the first `i + 1`
   * records complete with its step.
   */
  lemma PutBatchNext(cfg: Config, registry: SchemaRegistry, t: Task, records: seq<SinkRecord>, ticks: seq<Tick>,
                     i: nat, cur: Task, flushes: seq<FlushOutcome>, step: StepResult)
    requires |ticks| == |records| && i < |records|
    requires PutBatch(cfg, registry, t, records[..i], ticks[..i]) == Completed(cur, flushes)
    requires step == Accept(cfg, registry, cur, records[i], ticks[i])
    ensures step.Rejected? ==> PutBatch(cfg, registry, t, records, ticks) == Aborted(cur, flushes, i, step.error)
    ensures step.Accepted? ==>
      PutBatch(cfg, registry, t, records[..i + 1], ticks[..i + 1]) == Completed(step.task, flushes + [step.flush])
  {
    PutBatchPrefix(cfg, registry, t, records, ticks, i);
    if step.Rejected? {
      AbortPersists(cfg, registry, t, records, ticks, i + 1);
    }
  }

  /** The first `i + 1` records of a batch are its first `i` followed by record `i`. */
  lemma PutBatchPrefix(cfg: Config, registry: SchemaRegistry, t: Task, records: seq<SinkRecord>, ticks: seq<Tick>, i: nat)
    requires |ticks| == |records| && i < |records|
    ensures var prev := PutBatch(cfg, registry, t, records[..i], ticks[..i]);
      PutBatch(cfg, registry, t, records[..i + 1], ticks[..i + 1])
        == if prev.Aborted? then prev
           else match Accept(cfg, registry, prev.task, records[i], ticks[i])
             case Rejected(e) => Aborted(prev.task, prev.flushes, i, e)
             case Accepted(t', outcome) => Completed(t', prev.flushes + [outcome])
  {
    assert records[..i + 1][..i] == records[..i] && ticks[..i + 1][..i] == ticks[..i];
  }

  lemma DrainedSnoc(flushes: seq<FlushOutcome>, outcome: FlushOutcome, topic: string)
    ensures Drained(flushes + [outcome], topic) == Drained(flushes, topic) + Drained([outcome], topic)
  {
    assert (flushes + [outcome])[..|flushes|] == flushes;
    assert [outcome][..0] == [];
  }

  /**
   * No record is lost or counted twice by a completed batch: for every topic,
   * the old buffer followed by the batch's records of that topic equals the
   * batches written followed by the new buffer.
   */
  lemma {:induction false} PutConserves(cfg: Config, registry: SchemaRegistry, t: Task, records: seq<SinkRecord>, ticks: seq<Tick>, topic: string)
    requires |ticks| == |records|
    requires PutBatch(cfg, registry, t, records, ticks).Completed?
    ensures var r := PutBatch(cfg, registry, t, records, ticks);
      Buffer(t, topic) + AcceptedTexts(records, topic) == Drained(r.flushes, topic) + Buffer(r.task, topic)
    decreases |records|
  {
    if records != [] {
      var n := |records| - 1;
      PutBatchLast(cfg, registry, t, records, ticks);
      var prev := PutBatch(cfg, registry, t, records[..n], ticks[..n]);
      PutConserves(cfg, registry, t, records[..n], ticks[..n], topic);
      AcceptConserves(cfg, registry, prev.task, records[n], ticks[n], topic);
      var step := Accept(cfg, registry, prev.task, records[n], ticks[n]);
      DrainedSnoc(prev.flushes, step.flush, topic);
      var mine := if records[n].topic == topic then [RecordText(records[n])] else [];
      assert AcceptedTexts(records, topic) == AcceptedTexts(records[..n], topic) + mine;
      ChainStep(Buffer(t, topic), AcceptedTexts(records[..n], topic), mine,
        Drained(prev.flushes, topic), Buffer(prev.task, topic), Drained([step.flush], topic), Buffer(step.task, topic));
    }
  }

  lemma ChainStep(b0: seq<string>, a: seq<string>, mine: seq<string>, d: seq<string>, mid: seq<string>, ds: seq<string>, b1: seq<string>)
    requires b0 + a == d + mid && mid + mine == ds + b1
    ensures b0 + (a + mine) == (d + ds) + b1
  {
    calc {
      b0 + (a + mine);
      (b0 + a) + mine;
      (d + mid) + mine;
      d + (mid + mine);
      d + (ds + b1);
    }
  }

  /**
   * `stop`: every topic, in the map's iteration order `order`, is flushed
   * when its buffer is not empty; one topic's failure does not stop the next.
   */
  function StopOver(t: Task, order: seq<string>, tickFor: string -> Tick): (r: (Task, seq<FlushOutcome>))
    ensures |r.1| == |order|
    ensures r.0.buffers.Keys == t.buffers.Keys
    decreases |order|
  {
    if order == [] then (t, [])
    else
      var n := |order| - 1;
      var (t1, flushes) := StopOver(t, order[..n], tickFor);
      var topic := order[n];
      if topic in t1.buffers && t1.buffers[topic] != [] then
        var tick := tickFor(topic);
        var (t2, outcome) := Flush(t1, topic, tick.now, tick.stamp, tick.fault);
        (t2, flushes + [outcome])
      else
        (t1, flushes + [Skipped])
  }

  /** The drain over one more topic: that topic is flushed after the others when its buffer is not empty. */
  lemma StopOverSnoc(t: Task, order: seq<string>, tickFor: string -> Tick, topic: string)
    ensures var prev := StopOver(t, order, tickFor);
      var tick := tickFor(topic);
      StopOver(t, order + [topic], tickFor)
        == if topic in prev.0.buffers && prev.0.buffers[topic] != [] then
             var step := Flush(prev.0, topic, tick.now, tick.stamp, tick.fault);
             (step.0, prev.1 + [step.1])
           else (prev.0, prev.1 + [Skipped])
  {
    assert (order + [topic])[..|order|] == order;
  }

  /**
   * The shutdown drain keeps every record: each topic's old buffer is what
   * was written for it followed by what is left.
   */
  lemma {:induction false} StopConserves(t: Task, order: seq<string>, tickFor: string -> Tick, topic: string)
    ensures var r := StopOver(t, order, tickFor);
      Buffer(t, topic) == Drained(r.1, topic) + Buffer(r.0, topic)
    decreases |order|
  {
    if order != [] {
      var n := |order| - 1;
      var prev := StopOver(t, order[..n], tickFor);
      var r := StopOver(t, order, tickFor);
      StopConserves(t, order[..n], tickFor, topic);
      StopLastConserves(t, order, tickFor, topic);
      DrainedSnoc(prev.1, r.1[n], topic);
      calc {
        Buffer(t, topic);
        Drained(prev.1, topic) + Buffer(prev.0, topic);
        Drained(prev.1, topic) + (Drained([r.1[n]], topic) + Buffer(r.0, topic));
        (Drained(prev.1, topic) + Drained([r.1[n]], topic)) + Buffer(r.0, topic);
        Drained(r.1, topic) + Buffer(r.0, topic);
      }
    }
  }

  /** The drain's last step: one more outcome, and the buffer before it is what that outcome wrote plus what is left. */
  lemma StopLastConserves(t: Task, order: seq<string>, tickFor: string -> Tick, topic: string)
    requires order != []
    ensures var n := |order| - 1;
      var prev := StopOver(t, order[..n], tickFor);
      var r := StopOver(t, order, tickFor);
      && r.1 == prev.1 + [r.1[n]]
      && Buffer(prev.0, topic) == Drained([r.1[n]], topic) + Buffer(r.0, topic)
  {
    var n := |order| - 1;
    var prev := StopOver(t, order[..n], tickFor);
    var x := order[n];
    if x in prev.0.buffers && prev.0.buffers[x] != [] {
      var tick := tickFor(x);
      FlushConserves(prev.0, x, tick.now, tick.stamp, tick.fault, topic);
    } else {
      assert [Skipped][..0] == [];
    }
  }

  /** One flush moves a topic's buffer into what it wrote, or leaves it where it was. */
  lemma FlushConserves(t: Task, x: string, now: int, stamp: string, fault: StoreFault, topic: string)
    requires x in t.buffers
    ensures var r := Flush(t, x, now, stamp, fault);
      Buffer(t, topic) == Drained([r.1], topic) + Buffer(r.0, topic)
  {
    var r := Flush(t, x, now, stamp, fault);
    assert [r.1][..0] == [];
    if x != topic {
      FlushFrame(t, x, now, stamp, fault, topic);
    }
  }

  /** What the last flush of the drain does to one topic's buffer. */
  lemma StopStep(t: Task, order: seq<string>, tickFor: string -> Tick, topic: string)
    requires order != []
    ensures var n := |order| - 1;
      var before := Buffer(StopOver(t, order[..n], tickFor).0, topic);
      var after := Buffer(StopOver(t, order, tickFor).0, topic);
      && (order[n] != topic ==> after == before)
      && (order[n] == topic && tickFor(topic).fault == NoFault ==> after == [])
      && (order[n] == topic && tickFor(topic).fault in {FailsAt(ExistsCheck), FailsAt(Write)} ==> after == before)
  {
    var n := |order| - 1;
    var prev := StopOver(t, order[..n], tickFor);
    var x := order[n];
    if x in prev.0.buffers && prev.0.buffers[x] != [] && x != topic {
      var tick := tickFor(x);
      FlushFrame(prev.0, x, tick.now, tick.stamp, tick.fault, topic);
    }
  }

  /**
   * After the drain, a topic whose flush met no storage fault is empty, and
   * a topic whose existence check or write failed still holds all it held;
   * other topics' failures make no difference to either.
   */
  lemma {:induction false} StopDrains(t: Task, order: seq<string>, tickFor: string -> Tick, topic: string)
    requires topic in order
    ensures var r := StopOver(t, order, tickFor);
      && (tickFor(topic).fault == NoFault ==> Buffer(r.0, topic) == [])
      && (tickFor(topic).fault in {FailsAt(ExistsCheck), FailsAt(Write)} ==> Buffer(r.0, topic) == Buffer(t, topic))
    decreases |order|
  {
    var n := |order| - 1;
    StopStep(t, order, tickFor, topic);
    if topic in order[..n] {
      StopDrains(t, order[..n], tickFor, topic);
    } else {
      assert order[n] == topic;
      StopUntouched(t, order[..n], tickFor, topic);
    }
  }

  /** A topic the drain has not reached yet is as it was. */
  lemma {:induction false} StopUntouched(t: Task, order: seq<string>, tickFor: string -> Tick, topic: string)
    requires topic !in order
    ensures Buffer(StopOver(t, order, tickFor).0, topic) == Buffer(t, topic)
    decreases |order|
  {
    if order != [] {
      var n := |order| - 1;
      assert topic !in order[..n];
      StopUntouched(t, order[..n], tickFor, topic);
      StopStep(t, order, tickFor, topic);
    }
  }

  /**
   * The merge keeps old content first: writing C1 to a key that holds no
   * object and then C2 to the same key leaves C1's lines followed by C2's.
   */
  lemma TwoFlushesConcatenate(objects: map<string, string>, key: string, c1: seq<string>, c2: seq<string>)
    requires key !in objects && AllClean(c1)
    ensures Merged(objects[key := Merged(objects, key, c1)], key, c2) == Render(c1 + c2)
  {
    var after := objects[key := Merged(objects, key, c1)];
    assert Existing(objects, key) == [];
    assert Merged(objects, key, c1) == Render(c1);
    LinesOfRender(c1);
    assert Existing(after, key) == c1;
    RenderAppend(c1, c2);
  }

  /** A topic never flushed has last-flush time 0, so with a clock past `batchTimeMs` its first record fires the trigger. */
  lemma FirstRecordFiresByTime(cfg: Config, registry: SchemaRegistry, t: Task, record: SinkRecord, tick: Tick)
    requires record.topic !in t.lastFlush && tick.now >= cfg.batchTimeMs
    requires Accept(cfg, registry, t, record, tick).Accepted?
    ensures !Accept(cfg, registry, t, record, tick).flush.Skipped?
  {
  }
}
