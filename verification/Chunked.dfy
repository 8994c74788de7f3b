/** The wire form every decoder reads: chunked framing, section 7.1 of RFC 9112. A size line is any
    line the scripts take a size from, so letter case, leading zeros and chunk extensions are free. */
module Chunked {
  import opened Text

  /** `int(line.split(b";")[0], 16)`: what a decoder takes for the size, None where it raises. */
  function SizeOf(line: string): Option<nat> {
    ParseHex(Before(line, ';'))
  }

  datatype Chunk = Chunk(line: string, data: string)

  predicate IsSizeLine(line: string, n: nat) {
    Find(line, CRLF, 0).None? && SizeOf(line) == Some(n)
  }

  /** A chunk as a sender may write it: a size line naming the length of non-empty data. The data
      may hold any bytes, CRLF included. */
  predicate WellFormed(c: Chunk) {
    c.data != "" && IsSizeLine(c.line, |c.data|)
  }

  predicate AllWellFormed(cs: seq<Chunk>) {
    forall i :: 0 <= i < |cs| ==> WellFormed(cs[i])
  }

  function EncodeChunk(c: Chunk): string {
    c.line + CRLF + c.data + CRLF
  }

  function Encode(cs: seq<Chunk>): string {
    if cs == [] then "" else EncodeChunk(cs[0]) + Encode(cs[1..])
  }

  function Payload(cs: seq<Chunk>): string {
    if cs == [] then "" else cs[0].data + Payload(cs[1..])
  }

  /** The stream of a body without trailers: the chunks, a zero size line and the closing CRLF. */
  function Message(cs: seq<Chunk>, zero: string): string {
    if cs == [] then zero + CRLF + CRLF else EncodeChunk(cs[0]) + Message(cs[1..], zero)
  }

  /** Where in a message the zero chunk's line ends. */
  function ZeroEnd(cs: seq<Chunk>, zero: string): nat {
    if cs == [] then |zero| + 2 else |EncodeChunk(cs[0])| + ZeroEnd(cs[1..], zero)
  }

  lemma {:induction false} MessageEnd(cs: seq<Chunk>, zero: string)
    ensures |Message(cs, zero)| == ZeroEnd(cs, zero) + 2
    ensures Message(cs, zero)[ZeroEnd(cs, zero)..] == CRLF
  {
    if cs != [] {
      MessageEnd(cs[1..], zero);
      assert Message(cs, zero)[ZeroEnd(cs, zero)..] == Message(cs[1..], zero)[ZeroEnd(cs[1..], zero)..];
    }
  }

  lemma SizeLineNotEmpty(line: string, n: nat)
    requires IsSizeLine(line, n)
    ensures line != ""
  {
  }

  // ----- what has been delivered once k bytes of the stream have arrived -------

  /** The bytes of one chunk's data among its first `k` bytes on the wire. */
  function DataArrived(c: Chunk, k: nat): string {
    var head := |c.line| + 2;
    if k <= head then "" else if k <= head + |c.data| then c.data[..k - head] else c.data
  }

  /** Every payload byte among the first `k` bytes of `Encode(cs)`. */
  function Delivered(cs: seq<Chunk>, k: nat): string {
    if cs == [] then ""
    else if k < |EncodeChunk(cs[0])| then DataArrived(cs[0], k)
    else cs[0].data + Delivered(cs[1..], k - |EncodeChunk(cs[0])|)
  }

  /** The data of each chunk whose closing CRLF is among the first `k` bytes. */
  function Completed(cs: seq<Chunk>, k: nat): seq<string> {
    if cs == [] || k < |EncodeChunk(cs[0])| then []
    else [cs[0].data] + Completed(cs[1..], k - |EncodeChunk(cs[0])|)
  }

  /** The data of each chunk all of whose data is among the first `k` bytes. */
  function Arrived(cs: seq<Chunk>, k: nat): seq<string> {
    if cs == [] || k < |EncodeChunk(cs[0])| - 2 then []
    else if k < |EncodeChunk(cs[0])| then [cs[0].data]
    else [cs[0].data] + Arrived(cs[1..], k - |EncodeChunk(cs[0])|)
  }

  /** A cut that falls between two whole chunks, or at either end. */
  predicate OnBoundary(cs: seq<Chunk>, k: nat) {
    k == 0 || (cs != [] && |EncodeChunk(cs[0])| <= k && OnBoundary(cs[1..], k - |EncodeChunk(cs[0])|))
  }

  lemma {:induction false} DeliveredAll(cs: seq<Chunk>, zero: string, k: nat)
    requires ZeroEnd(cs, zero) <= k
    ensures Delivered(cs, k) == Payload(cs)
  {
    if cs != [] {
      DeliveredAll(cs[1..], zero, k - |EncodeChunk(cs[0])|);
    }
  }

  /** More bytes only ever add to what has been delivered. */
  lemma {:induction false} DeliveredGrows(cs: seq<Chunk>, j: nat, k: nat)
    requires j <= k
    ensures Delivered(cs, j) <= Delivered(cs, k)
  {
    if cs != [] && j >= |EncodeChunk(cs[0])| {
      DeliveredGrows(cs[1..], j - |EncodeChunk(cs[0])|, k - |EncodeChunk(cs[0])|);
    }
  }

  /** At every cut the three readings are ordered: whole chunks only, whole data only, every byte. */
  lemma {:induction false} ReadingsOrdered(cs: seq<Chunk>, k: nat)
    ensures Completed(cs, k) <= Arrived(cs, k)
    ensures Concat(Completed(cs, k)) <= Concat(Arrived(cs, k)) <= Delivered(cs, k) <= Payload(cs)
  {
    if cs != [] {
      var d := cs[0].data;
      if k >= |EncodeChunk(cs[0])| {
        var k' := k - |EncodeChunk(cs[0])|;
        ReadingsOrdered(cs[1..], k');
        assert Concat(Completed(cs, k)) == d + Concat(Completed(cs[1..], k'));
        assert Concat(Arrived(cs, k)) == d + Concat(Arrived(cs[1..], k'));
        assert Delivered(cs, k) == d + Delivered(cs[1..], k');
      } else if k >= |EncodeChunk(cs[0])| - 2 {
        assert Concat([d]) == d;
      }
    }
  }

  /** On a chunk boundary the three readings are one. */
  lemma {:induction false} ReadingsAgreeOnBoundary(cs: seq<Chunk>, k: nat)
    requires OnBoundary(cs, k)
    ensures Concat(Completed(cs, k)) == Concat(Arrived(cs, k)) == Delivered(cs, k)
  {
    if k > 0 {
      var k' := k - |EncodeChunk(cs[0])|;
      ReadingsAgreeOnBoundary(cs[1..], k');
      assert Concat(Completed(cs, k)) == cs[0].data + Concat(Completed(cs[1..], k'));
      assert Concat(Arrived(cs, k)) == cs[0].data + Concat(Arrived(cs[1..], k'));
    }
  }

  /** The usual writer, `b"%x\r\n"` and the data, is one of the senders these results cover. */
  lemma PlainChunkWellFormed(data: string)
    requires data != ""
    ensures WellFormed(Chunk(Hex(|data|), data))
  {
    PlainSizeLine(|data|);
  }

  lemma PlainSizeLine(n: nat)
    ensures IsSizeLine(Hex(n), n)
  {
    var s := Hex(n);
    NoSemicolon(s);
    assert Strip(s) == s by { assert IsHex(s[0]) && IsHex(s[|s| - 1]); }
    HexRoundTrip(n);
    if Find(s, CRLF, 0).Some? {
      OccursStart(s, CRLF, Find(s, CRLF, 0).value);
    }
  }

  lemma NoSemicolon(s: string)
    requires AllHex(s)
    ensures Before(s, ';') == s
  {
    var b := Before(s, ';');
    if |b| < |s| {
      assert IsHex(s[|b|]);
    }
    assert b == s[..|b|];
  }
}
