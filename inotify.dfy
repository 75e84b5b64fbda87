/**
 * The buffer layout read from an inotify descriptor, as described in the
 * inotify(7) manual page: a sequence of variable-length records, each a
 * 16-byte struct inotify_event header (wd, mask, cookie, len as 32-bit
 * little-endian words on the plug-in's targets) followed by len bytes of
 * NUL-padded file name.
 */
module Inotify {
  import opened CppString

  type Byte = b: int | 0 <= b < 256

  /** sizeof(struct inotify_event): four 32-bit fields; the name follows. */
  const HEADER_SIZE: nat := 16

  const U32_MOD: nat := 0x1_0000_0000

  /** The 32-bit little-endian word at i. */
  function U32At(buf: seq<Byte>, i: nat): (n: nat)
    requires i + 4 <= |buf|
    ensures n < U32_MOD
  {
    buf[i] as int + 256 * (buf[i + 1] as int) + 65536 * (buf[i + 2] as int) + 16777216 * (buf[i + 3] as int)
  }

  /** The little-endian bytes of a 32-bit word. */
  function LE32(n: nat): (bs: seq<Byte>)
    requires n < U32_MOD
    ensures |bs| == 4
  {
    [n % 256, n / 256 % 256, n / 256 / 256 % 256, n / 256 / 256 / 256]
  }

  lemma U32OfLE32(n: nat)
    requires n < U32_MOD
    ensures U32At(LE32(n), 0) == n
  {
    var q1 := n / 256;
    var q2 := q1 / 256;
    assert n == n % 256 + 256 * q1;
    assert q1 == q1 % 256 + 256 * q2;
    assert q2 == q2 % 256 + 256 * (q2 / 256);
  }

  /** A signed 32-bit int from its two's-complement word, and back. */
  function I32(u: nat): int
    requires u < U32_MOD
  {
    if u < U32_MOD / 2 then u else u - U32_MOD
  }

  function U32Of(i: int): nat
    requires -0x8000_0000 <= i < 0x8000_0000
  {
    if i < 0 then i + U32_MOD else i
  }

  /** One record: the header fields and the len bytes of its name field. */
  datatype Event = Event(wd: int, mask: nat, cookie: nat, name: seq<Byte>)

  predicate ValidEvent(e: Event)
  {
    -0x8000_0000 <= e.wd < 0x8000_0000 && e.mask < U32_MOD && e.cookie < U32_MOD && |e.name| < U32_MOD
  }

  /** event->len of the record at p. */
  function LenAt(buf: seq<Byte>, p: nat): nat
    requires p + HEADER_SIZE <= |buf|
  {
    U32At(buf, p + 12)
  }

  /** Where the record after the one at p starts. */
  function NextAt(buf: seq<Byte>, p: nat): nat
    requires p + HEADER_SIZE <= |buf|
  {
    p + HEADER_SIZE + LenAt(buf, p)
  }

  /**
   * From p on, the buffer is a whole number of records: each header and the
   * name its len announces lie inside the buffer.
   */
  predicate WellFormedFrom(buf: seq<Byte>, p: nat)
    decreases |buf| - p
  {
    p <= |buf|
    && (p == |buf|
        || (p + HEADER_SIZE <= |buf| && NextAt(buf, p) <= |buf| && WellFormedFrom(buf, NextAt(buf, p))))
  }

  /** The whole buffer is a whole number of records (what the kernel hands to read). */
  predicate WellFormed(buf: seq<Byte>)
  {
    WellFormedFrom(buf, 0)
  }

  /** The record whose header starts at p. */
  function EventAt(buf: seq<Byte>, p: nat): (e: Event)
    requires p + HEADER_SIZE <= |buf| && NextAt(buf, p) <= |buf|
    ensures ValidEvent(e)
  {
    Event(I32(U32At(buf, p)), U32At(buf, p + 4), U32At(buf, p + 8), buf[p + HEADER_SIZE..NextAt(buf, p)])
  }

  /** The records from p on, in buffer order. */
  function DecodeFrom(buf: seq<Byte>, p: nat): (es: seq<Event>)
    requires WellFormedFrom(buf, p)
    decreases |buf| - p
  {
    if p == |buf| then [] else [EventAt(buf, p)] + DecodeFrom(buf, NextAt(buf, p))
  }

  /** One step of the walk stays inside the buffer and leaves one record fewer. */
  lemma DecodeStep(buf: seq<Byte>, p: nat)
    requires WellFormedFrom(buf, p) && p < |buf|
    ensures p + HEADER_SIZE <= |buf| && NextAt(buf, p) <= |buf| && WellFormedFrom(buf, NextAt(buf, p))
    ensures |DecodeFrom(buf, p)| == 1 + |DecodeFrom(buf, NextAt(buf, p))|
  {
  }

  /** The records of a buffer, in buffer order. */
  function Decode(buf: seq<Byte>): (es: seq<Event>)
    requires WellFormed(buf)
  {
    DecodeFrom(buf, 0)
  }

  function EncodeEvent(e: Event): (bs: seq<Byte>)
    requires ValidEvent(e)
    ensures |bs| == HEADER_SIZE + |e.name|
  {
    LE32(U32Of(e.wd)) + LE32(e.mask) + LE32(e.cookie) + LE32(|e.name|) + e.name
  }

  /** The buffer the kernel would write for these records. */
  function Encode(es: seq<Event>): seq<Byte>
    requires forall k :: 0 <= k < |es| ==> ValidEvent(es[k])
  {
    if es == [] then [] else EncodeEvent(es[0]) + Encode(es[1..])
  }

  /** A word written with LE32 reads back wherever it sits in a buffer. */
  lemma WordAt(buf: seq<Byte>, i: nat, n: nat)
    requires n < U32_MOD && i + 4 <= |buf| && buf[i..i + 4] == LE32(n)
    ensures U32At(buf, i) == n
  {
    U32OfLE32(n);
    assert buf[i] == LE32(n)[0] && buf[i + 1] == LE32(n)[1];
    assert buf[i + 2] == LE32(n)[2] && buf[i + 3] == LE32(n)[3];
  }

  /** A record encoded after pre decodes, at |pre|, to the event written there. */
  lemma DecodeHead(pre: seq<Byte>, e: Event, rest: seq<Byte>)
    requires ValidEvent(e)
    ensures var buf := pre + EncodeEvent(e) + rest;
            |pre| + HEADER_SIZE <= |buf| && NextAt(buf, |pre|) == |pre| + |EncodeEvent(e)|
            && EventAt(buf, |pre|) == e
  {
    var buf := pre + EncodeEvent(e) + rest;
    var i := |pre|;
    assert buf[i..i + 4] == LE32(U32Of(e.wd));
    assert buf[i + 4..i + 8] == LE32(e.mask);
    assert buf[i + 8..i + 12] == LE32(e.cookie);
    assert buf[i + 12..i + 16] == LE32(|e.name|);
    WordAt(buf, i, U32Of(e.wd));
    WordAt(buf, i + 4, e.mask);
    WordAt(buf, i + 8, e.cookie);
    WordAt(buf, i + 12, |e.name|);
    assert buf[i + HEADER_SIZE..i + HEADER_SIZE + |e.name|] == e.name;
  }

  /** The records encoded after any prefix pre are walked back, from |pre| on, exactly and in order. */
  lemma {:induction false} DecodeEncodeAfter(pre: seq<Byte>, es: seq<Event>)
    requires forall k :: 0 <= k < |es| ==> ValidEvent(es[k])
    ensures WellFormedFrom(pre + Encode(es), |pre|) && DecodeFrom(pre + Encode(es), |pre|) == es
    decreases |es|
  {
    var buf := pre + Encode(es);
    if es == [] {
      assert buf == pre;
    } else {
      var pre' := pre + EncodeEvent(es[0]);
      var rest := Encode(es[1..]);
      assert buf == pre' + rest == pre + EncodeEvent(es[0]) + rest;
      DecodeHead(pre, es[0], rest);
      DecodeEncodeAfter(pre', es[1..]);
      assert NextAt(buf, |pre|) == |pre'|;
      assert DecodeFrom(buf, |pre|) == [es[0]] + es[1..];
    }
  }

  /** Walking a buffer built from records gives back exactly those records, in order. */
  lemma DecodeEncode(es: seq<Event>)
    requires forall k :: 0 <= k < |es| ==> ValidEvent(es[k])
    ensures WellFormed(Encode(es)) && Decode(Encode(es)) == es
  {
    DecodeEncodeAfter([], es);
    assert [] + Encode(es) == Encode(es);
  }

  /** The bytes of a name field, as chars. */
  function Chars(bs: seq<Byte>): (s: string)
    ensures |s| == |bs|
  {
    seq(|bs|, i requires 0 <= i < |bs| => bs[i] as char)
  }
}
