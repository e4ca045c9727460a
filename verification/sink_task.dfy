/**
 * The sink task itself: an object whose maps and counter are updated in
 * place by `put`, `flushRecords`, `generateFileKey` and `stop`, over a
 * bucket whose objects the flushes read and overwrite. Each method is proved
 * to do exactly what the matching function of `FlushEngine` describes, so
 * the properties proved there hold of the sink task.
 */
module SinkTask {
  import opened FileKeys
  import opened LineFormat
  import opened Payloads
  import opened FlushEngine

  /** A storage call's answer: a value, or the exception it threw. */
  datatype Reply<T> = Ok(value: T) | Thrown

  /** The bucket, as the sink task's storage client sees it: object keys to their text. */
  class ObjectStore {
    var objects: map<string, string>

    constructor (objects: map<string, string>)
      ensures this.objects == objects
    {
      this.objects := objects;
    }

    /** `doesObjectExist(bucket, key)`; `fails` says whether the call throws. */
    method DoesObjectExist(key: string, fails: bool) returns (r: Reply<bool>)
      ensures r.Ok? <==> !fails
      ensures r.Ok? ==> (r.value <==> key in objects)
    {
      r := if fails then Thrown else Ok(key in objects);
    }

    /** `getObject(bucket, key)`: the object's text; a missing object throws too. */
    method GetObject(key: string, fails: bool) returns (r: Reply<string>)
      ensures r.Ok? <==> !fails && key in objects
      ensures r.Ok? ==> r.value == objects[key]
    {
      r := if fails || key !in objects then Thrown else Ok(objects[key]);
    }

    /** `putObject(bucket, key, content)`: replaces the whole object, or throws and changes nothing. */
    method PutObject(key: string, content: string, fails: bool) returns (r: Reply<()>)
      modifies this
      ensures r.Ok? <==> !fails
      ensures objects == if fails then old(objects) else old(objects)[key := content]
    {
      if fails {
        r := Thrown;
      } else {
        objects := objects[key := content];
        r := Ok(());
      }
    }
  }

  /** The loop of `flushRecords` that reads an object back line by line, each line re-ended by "\n". */
  method ExistingText(stored: string) returns (fileContent: string)
    ensures fileContent == Render(Lines(stored))
  {
    var lines := Lines(stored);
    fileContent := "";
    var i := 0;
    while i < |lines|
      invariant 0 <= i <= |lines|
      invariant fileContent == Render(lines[..i])
    {
      RenderSnoc(lines, i);
      fileContent := fileContent + lines[i] + "\n";
      i := i + 1;
    }
    assert lines[..|lines|] == lines;
  }

  /** The loop of `flushRecords` that appends each buffered record as a line. */
  method AppendLines(existing: string, records: seq<string>) returns (fileContent: string)
    ensures fileContent == existing + Render(records)
  {
    fileContent := existing;
    for j := 0 to |records|
      invariant fileContent == existing + Render(records[..j])
    {
      RenderSnoc(records, j);
      fileContent := fileContent + records[j] + "\n";
    }
    assert records[..|records|] == records;
  }

  class S3SinkTask {
    const store: ObjectStore
    const batchSize: int
    const batchTimeMs: int
    var topicBuffers: map<string, seq<string>>
    var topicLastFlushTimes: map<string, int>
    var topicFileKeys: map<string, string>
    var eventCounter: int32

    function Settings(): Config
    {
      Config(batchSize, batchTimeMs)
    }

    /** The sink task's state, with the bucket's objects, as the engine's functions see it. */
    function State(): Task
      reads this, store
    {
      Task(topicBuffers, topicLastFlushTimes, topicFileKeys, eventCounter, store.objects)
    }

    /** `start(props)`: empty maps, counter at 0, the two thresholds as configured. */
    constructor Start(store: ObjectStore, batchSize: int, batchTimeMs: int)
      ensures this.store == store && Settings() == Config(batchSize, batchTimeMs)
      ensures State() == Started(store.objects)
    {
      this.store := store;
      this.batchSize := batchSize;
      this.batchTimeMs := batchTimeMs;
      topicBuffers := map[];
      topicLastFlushTimes := map[];
      topicFileKeys := map[];
      eventCounter := 0;
    }

    /** `generateFileKey()`: bump the counter, then name the file after it and the timestamp. */
    method GenerateFileKey(stamp: string) returns (fileKey: string)
      modifies this`eventCounter
      ensures eventCounter == Inc32(old(eventCounter))
      ensures fileKey == FileKey(eventCounter, stamp)
    {
      eventCounter := Inc32(eventCounter);
      fileKey := FileKey(eventCounter, stamp);
    }

    /**
     * `flushRecords(topic)`: read the object's existing lines, append the
     * buffered records, overwrite the object, and only then clear the buffer
     * and stamp the flush time. A failing storage call ends the flush where it
     * is, as the source's catch does.
     */
    method FlushRecords(topic: string, now: int, stamp: string, fault: StoreFault) returns (outcome: FlushOutcome)
      requires topic in topicBuffers
      modifies this, store
      ensures (State(), outcome) == Flush(old(State()), topic, now, stamp, fault)
    {
      if topicBuffers[topic] == [] {
        return Skipped;
      }
      var generated := GenerateFileKey(stamp);
      var key := ObjectKey(topic, if topic in topicFileKeys then topicFileKeys[topic] else generated);
      var found := store.DoesObjectExist(key, fault == FailsAt(ExistsCheck));
      if found.Thrown? {
        assert fault == FailsAt(ExistsCheck);
        return Failed(topic, key, ExistsCheck);
      }
      var fileContent := "";
      if found.value {
        var stored := store.GetObject(key, fault == FailsAt(Read));
        if stored.Thrown? {
          assert fault == FailsAt(Read) && key in old(store.objects);
          return Failed(topic, key, Read);
        }
        fileContent := ExistingText(stored.value);
      }
      assert fileContent == Render(Existing(store.objects, key));
      var records := topicBuffers[topic];
      fileContent := AppendLines(fileContent, records);
      var written := store.PutObject(key, fileContent, fault == FailsAt(Write));
      if written.Thrown? {
        assert fault == FailsAt(Write);
        return Failed(topic, key, Write);
      }
      topicBuffers := topicBuffers[topic := []];
      topicLastFlushTimes := topicLastFlushTimes[topic := now];
      ghost var t0 := old(State());
      assert fault != FailsAt(ExistsCheck) && fault != FailsAt(Write);
      assert fault == FailsAt(Read) ==> key !in t0.objects;
      assert State() == t0.(counter := Inc32(t0.counter),
                            buffers := t0.buffers[topic := []],
                            lastFlush := t0.lastFlush[topic := now],
                            objects := t0.objects[key := Merged(t0.objects, key, records)]);
      return Written(topic, key, records);
    }

    /**
     * One iteration of `put`'s loop: look up the schema and validate (a
     * rejection changes nothing), append the record's line to its topic's
     * buffer, and when the trigger fires flush and give the topic a fresh key.
     */
    method PutRecord(record: SinkRecord, tick: Tick, registry: SchemaRegistry) returns (step: StepResult)
      modifies this, store
      ensures step == Accept(Settings(), registry, old(State()), record, tick)
      ensures State() == if step.Accepted? then step.task else old(State())
    {
      var topic := record.topic;
      if !registry.hasSchema(topic) {
        return Rejected(SchemaNotFound(topic));
      }
      if !Validates(registry, record) {
        return Rejected(InvalidPayload(topic));
      }
      var buffer := (if topic in topicBuffers then topicBuffers[topic] else []) + [PayloadText(record.value.data)];
      topicBuffers := topicBuffers[topic := buffer];
      var last := if topic in topicLastFlushTimes then topicLastFlushTimes[topic] else 0;
      var outcome := Skipped;
      if |buffer| >= batchSize || tick.now - last >= batchTimeMs {
        outcome := FlushRecords(topic, tick.now, tick.stamp, tick.fault);
        var next := GenerateFileKey(tick.stamp);
        topicFileKeys := topicFileKeys[topic := next];
      }
      return Accepted(State(), outcome);
    }

    /**
     * `put(records)`: each record in turn, until the first rejected one
     * ends the batch with what earlier records did left in place.
     */
    method Put(records: seq<SinkRecord>, ticks: seq<Tick>, registry: SchemaRegistry) returns (result: BatchResult)
      requires |ticks| == |records|
      modifies this, store
      ensures result == PutBatch(Settings(), registry, old(State()), records, ticks)
      ensures State() == result.task
    {
      var flushes: seq<FlushOutcome> := [];
      for i := 0 to |records|
        invariant PutBatch(Settings(), registry, old(State()), records[..i], ticks[..i]) == Completed(State(), flushes)
      {
        ghost var cur := State();
        var step := PutRecord(records[i], ticks[i], registry);
        PutBatchNext(Settings(), registry, old(State()), records, ticks, i, cur, flushes, step);
        if step.Rejected? {
          return Aborted(State(), flushes, i, step.error);
        }
        flushes := flushes + [step.flush];
      }
      assert records[..|records|] == records && ticks[..|ticks|] == ticks;
      result := Completed(State(), flushes);
    }

    /**
     * `stop()`: flush every topic whose buffer is not empty, in the map's
     * iteration order (returned as `order`), going on after a failed flush.
     */
    method Stop(tickFor: string -> Tick) returns (order: seq<string>, flushes: seq<FlushOutcome>)
      modifies this, store
      ensures forall x :: x in order <==> x in old(topicBuffers)
      ensures forall a, b :: 0 <= a < b < |order| ==> order[a] != order[b]
      ensures (State(), flushes) == StopOver(old(State()), order, tickFor)
    {
      order, flushes := [], [];
      var remaining := topicBuffers.Keys;
      while remaining != {}
        invariant topicBuffers.Keys == old(topicBuffers).Keys
        invariant remaining <= topicBuffers.Keys
        invariant forall x :: x in order <==> x in old(topicBuffers) && x !in remaining
        invariant forall a, b :: 0 <= a < b < |order| ==> order[a] != order[b]
        invariant (State(), flushes) == StopOver(old(State()), order, tickFor)
        decreases remaining
      {
        var topic :| topic in remaining;
        StopOverSnoc(old(State()), order, tickFor, topic);
        var outcome := Skipped;
        if topicBuffers[topic] != [] {
          var tick := tickFor(topic);
          outcome := FlushRecords(topic, tick.now, tick.stamp, tick.fault);
        }
        order := order + [topic];
        flushes := flushes + [outcome];
        remaining := remaining - {topic};
      }
    }
  }
}
