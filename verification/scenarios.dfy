/**
 * Concrete runs of the engine: the size trigger, the time trigger of a
 * topic never flushed, merging into an existing object, and a retry after a
 * failed write.
 */
module Scenarios {
  import opened FileKeys
  import opened LineFormat
  import opened Payloads
  import opened FlushEngine

  /** A registry that knows every topic and accepts every payload. */
  function AcceptAll(): SchemaRegistry
  {
    SchemaRegistry(topic => true, (topic, data) => true)
  }

  function Order(data: seq<byte>, identity: u32): SinkRecord
  {
    SinkRecord("orders", Bytes(data, identity))
  }

  function Cfg(): Config
  {
    Config(2, 1000000)
  }

  /** The state after one record "a" of "orders" that did not fire the trigger. */
  function Holding(): Task
  {
    Started(map[]).(buffers := map["orders" := ["a"]])
  }

  lemma QuietFirstRecord(stamp: string)
    ensures Accept(Cfg(), AcceptAll(), Started(map[]), Order([0x61], 1), Tick(10, stamp, NoFault)) == Accepted(Holding(), Skipped)
  {
    assert PayloadText([0x61]) == "a";
    assert Buffer(Started(map[]), "orders") + ["a"] == ["a"];
  }

  lemma FullSecondRecord(stamp: string)
    ensures var key := ObjectKey("orders", FileKey(1, stamp));
      var r := Accept(Cfg(), AcceptAll(), Holding(), Order([0x62], 2), Tick(20, stamp, NoFault));
      && r.Accepted? && r.flush == Written("orders", key, ["a", "b"])
      && r.task.objects == map[key := "a\nb\n"]
      && Buffer(r.task, "orders") == []
      && r.task.fileKeys == map["orders" := FileKey(2, stamp)]
  {
    assert PayloadText([0x62]) == "b";
    assert Buffer(Holding(), "orders") + ["b"] == ["a", "b"];
    var key := ObjectKey("orders", FileKey(1, stamp));
    assert FlushKey(Holding(), "orders", Inc32(0), stamp) == key;
    assert Render(["a", "b"]) == "a\nb\n" by {
      assert Render(["b"]) == "b\n" + Render([]);
    }
    assert Merged(map[], key, ["a", "b"]) == "a\nb\n";
  }

  /**
   * batchSize 2 and a clock that has not yet passed batchTimeMs: "a" waits,
   * "b" fills the batch, and one object holds exactly "a\nb\n".
   */
  lemma SizeTriggerWritesBatch(stamp: string)
    ensures var r1 := Accept(Cfg(), AcceptAll(), Started(map[]), Order([0x61], 1), Tick(10, stamp, NoFault));
      && r1.Accepted? && r1.flush == Skipped
      && var r2 := Accept(Cfg(), AcceptAll(), r1.task, Order([0x62], 2), Tick(20, stamp, NoFault));
      && r2.Accepted?
      && r2.task.objects == map[ObjectKey("orders", FileKey(1, stamp)) := "a\nb\n"]
      && Buffer(r2.task, "orders") == []
      && r2.task.fileKeys == map["orders" := FileKey(2, stamp)]
  {
    QuietFirstRecord(stamp);
    FullSecondRecord(stamp);
  }

  lemma EarlyFirstRecord(stamp: string)
    ensures var key := ObjectKey("orders", FileKey(1, stamp));
      var r := Accept(Cfg(), AcceptAll(), Started(map[]), Order([0x61], 1), Tick(1700000000000, stamp, NoFault));
      && r.Accepted? && r.flush == Written("orders", key, ["a"])
      && r.task == Task(map["orders" := []], map["orders" := 1700000000000],
                        map["orders" := FileKey(2, stamp)], 2, map[key := "a\n"])
  {
    assert PayloadText([0x61]) == "a";
    assert Buffer(Started(map[]), "orders") + ["a"] == ["a"];
    var key := ObjectKey("orders", FileKey(1, stamp));
    assert Render(["a"]) == "a\n" + Render([]);
    assert Merged(map[], key, ["a"]) == "a\n";
  }

  lemma QuietSecondRecord(t: Task, stamp: string)
    requires t.buffers == map["orders" := []] && t.lastFlush == map["orders" := 1700000000000]
    ensures var r := Accept(Cfg(), AcceptAll(), t, Order([0x62], 2), Tick(1700000000001, stamp, NoFault));
      && r.Accepted? && r.flush == Skipped
      && r.task == t.(buffers := map["orders" := ["b"]])
  {
    assert PayloadText([0x62]) == "b";
    assert Buffer(t, "orders") + ["b"] == ["b"];
  }

  /**
   * With a real clock the time condition holds for a topic's first record
   * (its last-flush time reads as 0), so "a" is written on its own and "b"
   * waits in the buffer.
   */
  lemma FirstRecordFlushesAlone(stamp: string)
    ensures var r1 := Accept(Cfg(), AcceptAll(), Started(map[]), Order([0x61], 1), Tick(1700000000000, stamp, NoFault));
      && r1.Accepted?
      && var r2 := Accept(Cfg(), AcceptAll(), r1.task, Order([0x62], 2), Tick(1700000000001, stamp, NoFault));
      && r2.Accepted?
      && r2.task.objects == map[ObjectKey("orders", FileKey(1, stamp)) := "a\n"]
      && Buffer(r2.task, "orders") == ["b"]
  {
    EarlyFirstRecord(stamp);
    var r1 := Accept(Cfg(), AcceptAll(), Started(map[]), Order([0x61], 1), Tick(1700000000000, stamp, NoFault));
    QuietSecondRecord(r1.task, stamp);
  }

  /** Reading "x\n" back gives the line "x", and merging "y" after it gives "x\ny\n". */
  lemma MergeText(objects: map<string, string>, key: string)
    requires key in objects && objects[key] == "x\n"
    ensures Existing(objects, key) == ["x"]
    ensures Merged(objects, key, ["y"]) == "x\ny\n"
  {
    assert Render(["x"]) == "x\n" + Render([]) == objects[key];
    LinesOfRender(["x"]);
    assert Lines(objects[key]) == ["x"];
    assert Render(["y"]) == "y\n" + Render([]);
  }

  /** The object already holds "x\n"; flushing "y" into it leaves "x\ny\n". */
  lemma MergeKeepsExistingLines(now: int, stamp: string)
    ensures var t := Task(map["orders" := ["y"]], map[], map["orders" := "f.txt"], 5, map["orders/f.txt" := "x\n"]);
      var r := Flush(t, "orders", now, stamp, NoFault);
      r.1 == Written("orders", "orders/f.txt", ["y"]) && r.0.objects == map["orders/f.txt" := "x\ny\n"]
  {
    var t := Task(map["orders" := ["y"]], map[], map["orders" := "f.txt"], 5, map["orders/f.txt" := "x\n"]);
    var key := "orders/f.txt";
    assert Merged(t.objects, key, ["y"]) == "x\ny\n" by {
      MergeText(t.objects, key);
    }
    assert FlushKey(t, "orders", Inc32(5), stamp) == key by {
      assert ObjectKey("orders", "f.txt") == key;
    }
    var r := Flush(t, "orders", now, stamp, NoFault);
    assert r.1 == Written("orders", key, ["y"]);
    assert r.0.objects == t.objects[key := "x\ny\n"];
  }

  /**
   * A failed write keeps the batch; the next triggered flush of the topic
   * writes that batch followed by the record that arrived since.
   */
  lemma RetryCarriesFailedBatch(cfg: Config, registry: SchemaRegistry, t: Task, topic: string, now: int, stamp: string, record: SinkRecord, tick: Tick)
    requires topic in t.buffers && t.buffers[topic] != [] && record.topic == topic
    requires tick.fault == NoFault
    requires var t1 := Flush(t, topic, now, stamp, FailsAt(Write)).0;
      var r := Accept(cfg, registry, t1, record, tick);
      r.Accepted? && !r.flush.Skipped?
    ensures var t1 := Flush(t, topic, now, stamp, FailsAt(Write)).0;
      var r := Accept(cfg, registry, t1, record, tick);
      r.flush.Written? && r.flush.batch == t.buffers[topic] + [RecordText(record)]
  {
  }
}
