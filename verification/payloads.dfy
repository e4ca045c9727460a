/**
 * Record values and the text a record contributes to its topic's buffer.
 *
 * The sink task validates every value as an Avro payload by first casting it to
 * `byte[]`, so any value that reaches the buffer is a byte array. It then
 * buffers `record.value().toString()`, and `toString` of a Java array is
 * `"[B@"` followed by the array's identity hash in hexadecimal: the line that
 * is stored does not depend on the payload at all. `ValueToString` models that
 * as written; `PayloadText` is the evidently intended line (the payload's own
 * bytes as text, one character per byte) and is what the engine buffers.
 */
module Payloads {
  import opened Numerals
  import opened LineFormat

  type byte = x: int | 0 <= x < 256
  type u32 = x: int | 0 <= x < 0x1_0000_0000

  /** A record value: a byte array (with the identity hash the JVM gave it) or any other object. */
  datatype Value = Bytes(data: seq<byte>, identity: u32) | NonBytes(text: string)

  /** `record.value().toString()` as the sink task calls it. */
  function ValueToString(v: Value): (s: string)
    ensures v.Bytes? ==> |s| > 3 && s[..3] == "[B@"
    ensures v.Bytes? ==> forall i :: 3 <= i < |s| ==> IsDigitOf(s[i], 16)
  {
    match v
    case Bytes(_, id) => "[B@" + Hex(id)
    case NonBytes(text) => text
  }

  /** As written, two byte arrays with the same identity hash buffer the same line, whatever they hold. */
  lemma ToStringIgnoresPayload(d1: seq<byte>, d2: seq<byte>, id: u32)
    ensures ValueToString(Bytes(d1, id)) == ValueToString(Bytes(d2, id))
  {
  }

  /** As written, the one-byte payload "a" is buffered as a line that is not "a". */
  lemma ToStringLosesPayload()
    ensures ValueToString(Bytes([0x61], 0x1f)) == "[B@1f"
    ensures ValueToString(Bytes([0x61], 0x1f)) != PayloadText([0x61])
  {
    assert Hex(0x1f) == Numeral(1, 16) + [DigitChar(15)];
  }

  /** The payload's bytes read as text, one character per byte (ISO-8859-1). */
  function PayloadText(data: seq<byte>): (s: string)
    ensures |s| == |data|
    ensures forall i :: 0 <= i < |data| ==> s[i] as int == data[i]
    ensures Clean(s) <==> forall i :: 0 <= i < |data| ==> data[i] != 10 && data[i] != 13
  {
    seq(|data|, i requires 0 <= i < |data| => data[i] as char)
  }

  /** The intended buffered line determines the payload: distinct payloads give distinct lines. */
  lemma PayloadTextInjective(d1: seq<byte>, d2: seq<byte>)
    requires PayloadText(d1) == PayloadText(d2)
    ensures d1 == d2
  {
    var s := PayloadText(d1);
    assert forall i :: 0 <= i < |d1| ==> d1[i] == s[i] as int == d2[i];
  }
}
