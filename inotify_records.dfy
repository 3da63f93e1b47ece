/**
 * The byte layout of the records a read on an inotify(7) descriptor
 * returns: `struct inotify_event { int wd; uint32_t mask; uint32_t cookie;
 * uint32_t len; char name[]; }`, fields in host (little-endian) order, the
 * `len`-byte name field NUL-terminated and padded. One read returns a run
 * of whole records laid end to end.
 */
module InotifyRecords {
  import opened CStrings

  type byte = x: int | 0 <= x < 256
  type u32 = x: int | 0 <= x < 0x1_0000_0000
  type i32 = x: int | -0x8000_0000 <= x < 0x8000_0000

  /** sizeof(struct inotify_event): the four fixed fields, without the name. */
  const EVENT_SIZE: nat := 16

  /** One decoded record; `name` is the C string held in its name field. */
  datatype Event = Event(wd: i32, mask: u32, cookie: u32, len: u32, name: string)

  function U32At(b: seq<byte>, p: nat): u32
    requires p + 4 <= |b|
  {
    b[p] as int + 256 * (b[p + 1] as int + 256 * (b[p + 2] as int + 256 * b[p + 3] as int))
  }

  function U32Bytes(x: u32): (b: seq<byte>)
    ensures |b| == 4
  {
    var x1 := x / 256;
    var x2 := x1 / 256;
    [x % 256, x1 % 256, x2 % 256, x2 / 256]
  }

  /** The `int` field: the same four bytes read in two's complement. */
  function I32At(b: seq<byte>, p: nat): i32
    requires p + 4 <= |b|
  {
    var u := U32At(b, p);
    if u < 0x8000_0000 then u else u - 0x1_0000_0000
  }

  function I32Bytes(x: i32): (b: seq<byte>)
    ensures |b| == 4
  {
    U32Bytes(if x >= 0 then x else x + 0x1_0000_0000)
  }

  lemma U32RoundTrip(x: u32, rest: seq<byte>)
    ensures U32At(U32Bytes(x) + rest, 0) == x
  {
    var b := U32Bytes(x) + rest;
    var x1 := x / 256;
    var x2 := x1 / 256;
    assert x == x % 256 + 256 * x1;
    assert x1 == x1 % 256 + 256 * x2;
    assert x2 == x2 % 256 + 256 * (x2 / 256);
    assert b[0] == x % 256 && b[1] == x1 % 256 && b[2] == x2 % 256 && b[3] == x2 / 256;
  }

  lemma I32RoundTrip(x: i32, rest: seq<byte>)
    ensures I32At(I32Bytes(x) + rest, 0) == x
  {
    U32RoundTrip(if x >= 0 then x else x + 0x1_0000_0000, rest);
  }

  /** Bytes read as characters, one character per byte. */
  function Chars(b: seq<byte>): (s: string)
    ensures |s| == |b| && forall k :: 0 <= k < |b| ==> s[k] as int == b[k]
  {
    seq(|b|, k requires 0 <= k < |b| => b[k] as char)
  }

  /** A string whose characters all fit in one byte. */
  predicate IsBytes(s: string) {
    forall k :: 0 <= k < |s| ==> s[k] as int < 256
  }

  function BytesOf(s: string): (b: seq<byte>)
    requires IsBytes(s)
    ensures |b| == |s| && forall k :: 0 <= k < |s| ==> b[k] == s[k] as int
  {
    seq(|s|, k requires 0 <= k < |s| => s[k] as int)
  }

  function Zeros(n: nat): (b: seq<byte>)
    ensures |b| == n && forall k :: 0 <= k < n ==> b[k] == 0
  {
    seq(n, k => 0)
  }

  /** The `len` field of the record that starts `buf`. */
  function LenAt(buf: seq<byte>): u32
    requires EVENT_SIZE <= |buf|
  {
    U32At(buf, 12)
  }

  /** Offset of the record after the one that starts `buf`: `EVENT_SIZE + len`. */
  function RecordSize(buf: seq<byte>): nat
    requires EVENT_SIZE <= |buf|
  {
    EVENT_SIZE + LenAt(buf)
  }

  /** The record that starts `buf`, read in place as the C cast does. */
  function EventAt(buf: seq<byte>): Event
    requires EVENT_SIZE <= |buf| && RecordSize(buf) <= |buf|
  {
    Event(I32At(buf, 0), U32At(buf, 4), U32At(buf, 8), LenAt(buf),
          CStr(Chars(buf[EVENT_SIZE..RecordSize(buf)])))
  }

  /** `buf` is a run of whole records: each one's declared size ends inside the buffer. */
  predicate Tiles(buf: seq<byte>)
    decreases |buf|
  {
    buf == [] ||
    (EVENT_SIZE <= |buf| && RecordSize(buf) <= |buf| && Tiles(buf[RecordSize(buf)..]))
  }

  /** The records of a buffer, in the order the walk meets them. */
  function Records(buf: seq<byte>): seq<Event>
    requires Tiles(buf)
    decreases |buf|
  {
    if buf == [] then [] else [EventAt(buf)] + Records(buf[RecordSize(buf)..])
  }

  /** The offsets at which records start, relative to `base`. */
  function Offsets(buf: seq<byte>, base: nat): seq<nat>
    requires Tiles(buf)
    decreases |buf|
  {
    if buf == [] then [] else [base] + Offsets(buf[RecordSize(buf)..], base + RecordSize(buf))
  }

  /** Every record of a tiled buffer has its own offset, strictly after the previous one. */
  lemma {:induction false} OffsetsAdvance(buf: seq<byte>, base: nat)
    requires Tiles(buf)
    ensures |Offsets(buf, base)| == |Records(buf)|
    ensures forall i :: 0 <= i < |Offsets(buf, base)| ==> base <= Offsets(buf, base)[i] < base + |buf|
    ensures forall i, j :: 0 <= i < j < |Offsets(buf, base)| ==> Offsets(buf, base)[i] < Offsets(buf, base)[j]
  {
    if buf != [] {
      OffsetsAdvance(buf[RecordSize(buf)..], base + RecordSize(buf));
    }
  }

  /** A record the kernel can produce: a terminated name that fits its field, or no name and `len == 0`. */
  predicate WellFormed(e: Event) {
    NoNul(e.name) && IsBytes(e.name) &&
    if e.len == 0 then e.name == [] else |e.name| < e.len
  }

  function EncodeEvent(e: Event): (b: seq<byte>)
    requires WellFormed(e)
    ensures |b| == EVENT_SIZE + e.len
  {
    I32Bytes(e.wd) + (U32Bytes(e.mask) + (U32Bytes(e.cookie) + (U32Bytes(e.len)
      + (BytesOf(e.name) + Zeros(e.len - |e.name|)))))
  }

  function Encode(evs: seq<Event>): seq<byte>
    requires forall e :: e in evs ==> WellFormed(e)
  {
    if evs == [] then [] else EncodeEvent(evs[0]) + Encode(evs[1..])
  }

  lemma U32AtShift(a: seq<byte>, b: seq<byte>)
    requires 4 <= |b|
    ensures U32At(a + b, |a|) == U32At(b, 0)
  {
    assert (a + b)[|a|..|a| + 4] == b[..4];
  }

  /** The four fixed fields read back from their encoding, whatever follows them. */
  lemma FixedFieldsRoundTrip(e: Event, tail: seq<byte>)
    ensures var b := I32Bytes(e.wd) + (U32Bytes(e.mask) + (U32Bytes(e.cookie) + (U32Bytes(e.len) + tail)));
      |b| == EVENT_SIZE + |tail| && I32At(b, 0) == e.wd && U32At(b, 4) == e.mask &&
      U32At(b, 8) == e.cookie && U32At(b, 12) == e.len && b[EVENT_SIZE..] == tail
  {
    var m: u32 := e.mask;
    var b3 := U32Bytes(e.len) + tail;
    var b2 := U32Bytes(e.cookie) + b3;
    var b1 := U32Bytes(m) + b2;
    var b := I32Bytes(e.wd) + b1;
    U32RoundTrip(e.len, tail);
    U32RoundTrip(e.cookie, b3);
    U32RoundTrip(m, b2);
    I32RoundTrip(e.wd, b1);
    assert b == I32Bytes(e.wd) + b1;
    U32AtShift(I32Bytes(e.wd), b1);
    assert b == (I32Bytes(e.wd) + U32Bytes(m)) + b2;
    U32AtShift(I32Bytes(e.wd) + U32Bytes(m), b2);
    assert b == (I32Bytes(e.wd) + U32Bytes(m) + U32Bytes(e.cookie)) + b3;
    U32AtShift(I32Bytes(e.wd) + U32Bytes(m) + U32Bytes(e.cookie), b3);
    assert b[EVENT_SIZE..] == tail;
  }

  /** The name field of an encoded record, read as a C string, is the record's name. */
  lemma NameFieldRoundTrip(e: Event)
    requires WellFormed(e)
    ensures CStr(Chars(BytesOf(e.name) + Zeros(e.len - |e.name|))) == e.name
  {
    if e.len != 0 {
      var tail := Chars(Zeros(e.len - |e.name|))[1..];
      assert Chars(BytesOf(e.name) + Zeros(e.len - |e.name|)) == e.name + ['\0'] + tail;
      CStrOfTerminated(e.name, tail);
    }
  }

  lemma EventAtEncode(e: Event, rest: seq<byte>)
    requires WellFormed(e)
    ensures var b := EncodeEvent(e) + rest;
      EVENT_SIZE <= |b| && RecordSize(b) == |EncodeEvent(e)| && RecordSize(b) <= |b| &&
      EventAt(b) == e && b[RecordSize(b)..] == rest
  {
    var field := BytesOf(e.name) + Zeros(e.len - |e.name|);
    var b := EncodeEvent(e) + rest;
    assert b == I32Bytes(e.wd) + (U32Bytes(e.mask) + (U32Bytes(e.cookie) + (U32Bytes(e.len) + (field + rest))));
    FixedFieldsRoundTrip(e, field + rest);
    assert b[EVENT_SIZE..RecordSize(b)] == field;
    NameFieldRoundTrip(e);
    assert EventAt(b) == Event(e.wd, e.mask, e.cookie, e.len, e.name);
  }

  /** Decoding what `Encode` lays out gives back the records, in order. */
  lemma {:induction false} RecordsRoundTrip(evs: seq<Event>)
    requires forall e :: e in evs ==> WellFormed(e)
    ensures Tiles(Encode(evs)) && Records(Encode(evs)) == evs
  {
    if evs != [] {
      var rest := Encode(evs[1..]);
      var b := EncodeEvent(evs[0]) + rest;
      assert Encode(evs) == b;
      EventAtEncode(evs[0], rest);
      RecordsRoundTrip(evs[1..]);
      assert Tiles(b);
      assert Records(b) == [EventAt(b)] + Records(b[RecordSize(b)..]) == [evs[0]] + evs[1..];
      assert [evs[0]] + evs[1..] == evs;
    }
  }
}
