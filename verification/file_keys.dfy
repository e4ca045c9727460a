/**
 * Naming of storage objects: the sink task's `eventCounter` (a Java `int`, so it
 * wraps from 2^31 - 1 to -2^31), the file key `event<counter>-<timestamp>.txt`
 * and the object key `<topic>/<fileKey>`.
 */
module FileKeys {
  import opened Numerals

  const MinInt32: int := -0x8000_0000
  const MaxInt32: int := 0x7fff_ffff

  type int32 = x: int | MinInt32 <= x <= MaxInt32

  /** Java's `eventCounter++` on an `int`. */
  function Inc32(c: int32): (r: int32)
    ensures r == Wrap32(c + 1)
  {
    if c == MaxInt32 then MinInt32 else c + 1
  }

  /** Two's-complement reduction of an unbounded integer to 32 bits. */
  function Wrap32(x: int): int32
  {
    (x - MinInt32) % 0x1_0000_0000 + MinInt32
  }

  /** The counter after `k` further increments. */
  function Bumped(c: int32, k: nat): int32
  {
    if k == 0 then c else Inc32(Bumped(c, k - 1))
  }

  /** `String.format("event%d-%s.txt", counter, timestamp)`. */
  function FileKey(counter: int32, stamp: string): (k: string)
    ensures |k| == 10 + |Decimal(counter)| + |stamp|
  {
    "event" + Decimal(counter) + "-" + stamp + ".txt"
  }

  /** `String.format("%s/%s", topic, fileKey)`. */
  function ObjectKey(topic: string, fileKey: string): (k: string)
    ensures |k| == |topic| + 1 + |fileKey|
  {
    topic + "/" + fileKey
  }

  /**
   * Two different topics never share an object key when neither name holds
   * '/', which Kafka's topic naming rules exclude: the first '/' of a key
   * marks where its topic ends.
   */
  lemma ObjectKeysOfTopicsDiffer(t1: string, f1: string, t2: string, f2: string)
    requires '/' !in t1 && '/' !in t2 && t1 != t2
    ensures ObjectKey(t1, f1) != ObjectKey(t2, f2)
  {
    var k1, k2 := ObjectKey(t1, f1), ObjectKey(t2, f2);
    if |t1| < |t2| {
      assert k1[|t1|] == '/' && k2[|t1|] == t2[|t1|];
    } else if |t2| < |t1| {
      assert k2[|t2|] == '/' && k1[|t2|] == t1[|t2|];
    } else {
      assert k1[..|t1|] == t1 && k2[..|t2|] == t2;
    }
  }

  /** `k` increments from `c` land on `c + k` reduced to 32 bits. */
  lemma {:induction false} BumpedIsWrapped(c: int32, k: nat)
    ensures Bumped(c, k) == Wrap32(c + k)
  {
    if k > 0 {
      BumpedIsWrapped(c, k - 1);
      WrapSucc(c + k - 1);
    }
  }

  lemma WrapSucc(x: int)
    ensures Wrap32(Wrap32(x) + 1) == Wrap32(x + 1)
  {
  }

  /** Fewer than 2^32 increments never bring the counter back to a value it had. */
  lemma BumpedDiffers(c: int32, k: nat)
    requires 0 < k < 0x1_0000_0000
    ensures Bumped(c, k) != c
  {
    BumpedIsWrapped(c, k);
  }

  /** A digit string followed by "-" is determined by the whole text. */
  lemma DigitsBeforeDash(d1: string, d2: string, r1: string, r2: string)
    requires forall i :: 0 <= i < |d1| ==> IsDigitOf(d1[i], 10)
    requires forall i :: 0 <= i < |d2| ==> IsDigitOf(d2[i], 10)
    requires d1 + "-" + r1 == d2 + "-" + r2
    ensures d1 == d2
  {
    var s := d1 + "-" + r1;
    assert s[|d1|] == '-' && s[|d2|] == '-';
    assert forall i :: 0 <= i < |d1| ==> s[i] == d1[i];
    assert forall i :: 0 <= i < |d2| ==> s[i] == d2[i];
    assert |d1| == |d2|;
    assert d1 == s[..|d1|];
    assert d2 == s[..|d2|];
  }

  /** Keys made from different counter values differ, whatever timestamps they carry. */
  lemma FileKeyInjective(c1: int32, c2: int32, stamp1: string, stamp2: string)
    requires c1 != c2
    ensures FileKey(c1, stamp1) != FileKey(c2, stamp2)
  {
    if FileKey(c1, stamp1) == FileKey(c2, stamp2) {
      var u, v := Decimal(c1), Decimal(c2);
      var r1, r2 := stamp1 + ".txt", stamp2 + ".txt";
      assert FileKey(c1, stamp1) == "event" + (u + "-" + r1);
      assert FileKey(c2, stamp2) == "event" + (v + "-" + r2);
      assert u + "-" + r1 == FileKey(c1, stamp1)[5..];
      assert v + "-" + r2 == FileKey(c2, stamp2)[5..];
      DecimalBeforeDash(c1, c2, r1, r2);
      DecimalInjective(c1, c2);
    }
  }

  /** A `%d` numeral followed by "-" is determined by the whole text. */
  lemma DecimalBeforeDash(c1: int, c2: int, r1: string, r2: string)
    requires Decimal(c1) + "-" + r1 == Decimal(c2) + "-" + r2
    ensures Decimal(c1) == Decimal(c2)
  {
    var u, v := Decimal(c1), Decimal(c2);
    assert (u + "-" + r1)[0] == u[0] && (v + "-" + r2)[0] == v[0];
    if c1 < 0 && c2 < 0 {
      assert u == "-" + u[1..] && v == "-" + v[1..];
      assert u[1..] + "-" + r1 == (u + "-" + r1)[1..];
      assert v[1..] + "-" + r2 == (v + "-" + r2)[1..];
      DigitsBeforeDash(u[1..], v[1..], r1, r2);
    } else if c1 >= 0 && c2 >= 0 {
      DigitsBeforeDash(u, v, r1, r2);
    }
  }

  /** Two keys generated one after the other differ even within the same timestamp second. */
  lemma ConsecutiveKeysDiffer(c: int32, stamp: string)
    ensures FileKey(c, stamp) != FileKey(Inc32(c), stamp)
  {
    FileKeyInjective(c, Inc32(c), stamp, stamp);
  }

  /** Under one topic, the object key determines the file key. */
  lemma ObjectKeyInjective(topic: string, f1: string, f2: string)
    requires f1 != f2
    ensures ObjectKey(topic, f1) != ObjectKey(topic, f2)
  {
    assert ObjectKey(topic, f1)[|topic| + 1..] == f1;
    assert ObjectKey(topic, f2)[|topic| + 1..] == f2;
  }
}
