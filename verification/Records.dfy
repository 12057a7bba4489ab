/** FastCGI records (section 3.3 of the FastCGI Specification 1.0) and their byte encoding. */
module Records {
  import opened Bytes
  import Seqs

  const HEADER_LEN := 8
  const MAX_LENGTH := 0xffff

  const BEGIN_REQUEST: Byte := 1
  const END_REQUEST: Byte := 3
  const PARAMS: Byte := 4
  const STDIN: Byte := 5
  const STDOUT: Byte := 6
  const STDERR: Byte := 7

  type RequestId = x: int | 0 <= x < 0x1_0000

  datatype Header = Header(version: Byte, rtype: Byte, id: RequestId, contentLen: nat, paddingLen: nat, reserved: Byte)

  /** One record on the wire. The reserved byte is free: no reader looks at it. */
  datatype Record = Record(rtype: Byte, id: RequestId, content: seq<Byte>, padding: seq<Byte>, reserved: Byte) {
    predicate Valid() {
      |content| <= MAX_LENGTH && |padding| <= 255
    }
  }

  const REQUEST_COMPLETE: Byte := 0
  const CANT_MPX_CONN: Byte := 1

  /** An end-request record with the body MakeEndRequestBody builds. */
  function EndRequest(id: RequestId, appStatus: int, protocolStatus: Byte): (r: Record)
    ensures r.Valid()
  {
    Record(END_REQUEST, id,
           [appStatus / 0x100_0000 % 256, appStatus / 0x1_0000 % 256, appStatus / 0x100 % 256, appStatus % 256,
            protocolStatus, 0, 0, 0], [], 0)
  }

  predicate AllValid(rs: seq<Record>) {
    forall i :: 0 <= i < |rs| ==> rs[i].Valid()
  }

  /** MakeHeader: the eight header bytes of a version 1 record. */
  function MakeHeader(rtype: Byte, id: RequestId, contentLen: nat, paddingLen: nat, reserved: Byte): (h: seq<Byte>)
    requires contentLen <= MAX_LENGTH && paddingLen <= 255
    ensures |h| == HEADER_LEN
  {
    [1, rtype, id / 256, id % 256, contentLen / 256, contentLen % 256, paddingLen, reserved]
  }

  function ParseHeader(h: seq<Byte>): (r: Header)
    requires |h| >= HEADER_LEN
    ensures r.contentLen <= MAX_LENGTH && r.paddingLen <= 255
  {
    Header(h[0], h[1], U16(h[2], h[3]), U16(h[4], h[5]), h[6], h[7])
  }

  function Encode(r: Record): (s: seq<Byte>)
    requires r.Valid()
    ensures |s| == HEADER_LEN + |r.content| + |r.padding|
  {
    MakeHeader(r.rtype, r.id, |r.content|, |r.padding|, r.reserved) + r.content + r.padding
  }

  function EncodeAll(rs: seq<Record>): (s: seq<Byte>)
    requires AllValid(rs)
    ensures |s| >= HEADER_LEN * |rs|
  {
    if rs == [] then [] else Encode(rs[0]) + EncodeAll(rs[1..])
  }

  lemma {:induction false} EncodeAllAppend(a: seq<Record>, b: seq<Record>)
    requires AllValid(a) && AllValid(b)
    ensures AllValid(a + b)
    ensures EncodeAll(a + b) == EncodeAll(a) + EncodeAll(b)
  {
    if a == [] {
      assert a + b == b;
    } else {
      EncodeAllAppend(a[1..], b);
      assert (a + b)[1..] == a[1..] + b;
      var first := Encode(a[0]);
      Seqs.Assoc(first, EncodeAll(a[1..]), EncodeAll(b));
    }
  }

  lemma EncodeAllOne(r: Record)
    requires r.Valid()
    ensures EncodeAll([r]) == Encode(r)
  {
    assert [r][1..] == [];
  }

  lemma HeaderRoundTrip(rtype: Byte, id: RequestId, contentLen: nat, paddingLen: nat, reserved: Byte)
    requires contentLen <= MAX_LENGTH && paddingLen <= 255
    ensures ParseHeader(MakeHeader(rtype, id, contentLen, paddingLen, reserved))
            == Header(1, rtype, id, contentLen, paddingLen, reserved)
  {
    assert U16(id / 256, id % 256) == id;
    assert U16(contentLen / 256, contentLen % 256) == contentLen;
  }

  /** Only the first eight bytes matter to ParseHeader. */
  lemma ParseHeaderPrefix(h: seq<Byte>, tail: seq<Byte>)
    requires |h| >= HEADER_LEN
    ensures ParseHeader(h + tail) == ParseHeader(h)
  {
  }

  /** What an encoded record looks like from the front, whatever follows it. */
  lemma EncodedRecord(r: Record, tail: seq<Byte>)
    requires r.Valid()
    ensures var s := Encode(r) + tail;
            && ParseHeader(s) == Header(1, r.rtype, r.id, |r.content|, |r.padding|, r.reserved)
            && s[HEADER_LEN..] == r.content + (r.padding + tail)
            && s[HEADER_LEN + |r.content| + |r.padding|..] == tail
  {
    var h := MakeHeader(r.rtype, r.id, |r.content|, |r.padding|, r.reserved);
    HeaderRoundTrip(r.rtype, r.id, |r.content|, |r.padding|, r.reserved);
    ParseHeaderPrefix(h, r.content + (r.padding + tail));
    assert Encode(r) + tail == h + (r.content + (r.padding + tail));
  }

  /** The record at the front of s, if all of it is there. */
  function FirstRecord(s: seq<Byte>): (r: Option<Record>)
    ensures r.Some? ==> r.value.Valid() && HEADER_LEN + |r.value.content| + |r.value.padding| <= |s|
  {
    if |s| < HEADER_LEN then None
    else
      var h := ParseHeader(s);
      if |s| < HEADER_LEN + h.contentLen + h.paddingLen then None
      else
        var body := s[HEADER_LEN..];
        Some(Record(h.rtype, h.id, body[..h.contentLen], body[h.contentLen..][..h.paddingLen], h.reserved))
  }

  function Size(r: Record): nat {
    HEADER_LEN + |r.content| + |r.padding|
  }

  /** Framing as a receiver does it: cut whole records off the front while one is complete. */
  function Frames(s: seq<Byte>): (r: (seq<Record>, seq<Byte>))
    ensures AllValid(r.0)
    decreases |s|
  {
    match FirstRecord(s)
    case None => ([], s)
    case Some(rec) =>
      var (recs, rest) := Frames(s[Size(rec)..]);
      ([rec] + recs, rest)
  }

  lemma FirstRecordEncode(r: Record, tail: seq<Byte>)
    requires r.Valid()
    ensures FirstRecord(Encode(r) + tail) == Some(r)
    ensures (Encode(r) + tail)[Size(r)..] == tail
  {
    EncodedRecord(r, tail);
    var body := (Encode(r) + tail)[HEADER_LEN..];
    assert body[..|r.content|] == r.content;
    assert body[|r.content|..] == r.padding + tail;
    assert (r.padding + tail)[..|r.padding|] == r.padding;
  }

  lemma FirstRecordPrefix(a: seq<Byte>, b: seq<Byte>)
    requires FirstRecord(a).Some?
    ensures FirstRecord(a + b) == FirstRecord(a)
    ensures (a + b)[Size(FirstRecord(a).value)..] == a[Size(FirstRecord(a).value)..] + b
  {
    ParseHeaderPrefix(a, b);
    var h := ParseHeader(a);
    assert (a + b)[HEADER_LEN..] == a[HEADER_LEN..] + b;
    var body := a[HEADER_LEN..];
    assert (body + b)[..h.contentLen] == body[..h.contentLen];
    assert (body + b)[h.contentLen..] == body[h.contentLen..] + b;
    assert (body[h.contentLen..] + b)[..h.paddingLen] == body[h.contentLen..][..h.paddingLen];
  }

  lemma FramesCons(r: Record, more: seq<Byte>)
    requires r.Valid()
    ensures Frames(Encode(r) + more) == ([r] + Frames(more).0, Frames(more).1)
  {
    FirstRecordEncode(r, more);
  }

  lemma EncodeAllCons(rs: seq<Record>, tail: seq<Byte>)
    requires rs != [] && AllValid(rs)
    ensures EncodeAll(rs) + tail == Encode(rs[0]) + (EncodeAll(rs[1..]) + tail)
  {
  }

  /** Framing undoes encoding and leaves exactly what followed. */
  lemma {:induction false} FramesEncodeAll(rs: seq<Record>, tail: seq<Byte>)
    requires AllValid(rs)
    ensures Frames(EncodeAll(rs) + tail) == (rs + Frames(tail).0, Frames(tail).1)
  {
    if rs == [] {
      Seqs.EmptyLeft(tail);
      Seqs.EmptyLeft(Frames(tail).0);
    } else {
      EncodeAllCons(rs, tail);
      FramesCons(rs[0], EncodeAll(rs[1..]) + tail);
      FramesEncodeAll(rs[1..], tail);
      Seqs.ConsAppend(rs, Frames(tail).0);
    }
  }

  lemma FramesAll(rs: seq<Record>)
    requires AllValid(rs)
    ensures Frames(EncodeAll(rs)) == (rs, [])
  {
    hide EncodeAll;
    FramesEncodeAll(rs, []);
    Seqs.EmptyLeft(EncodeAll(rs));
    Seqs.EmptyLeft(rs);
  }

  /** Data arriving in two pieces is framed as if it had arrived at once. */
  lemma {:induction false} FramesSplit(a: seq<Byte>, b: seq<Byte>)
    ensures Frames(a + b) == (Frames(a).0 + Frames(Frames(a).1 + b).0, Frames(Frames(a).1 + b).1)
    decreases |a|
  {
    match FirstRecord(a)
    case None =>
      Seqs.EmptyLeft(Frames(a + b).0);
    case Some(rec) =>
      FirstRecordPrefix(a, b);
      FramesSplit(a[Size(rec)..], b);
      var (recs, rest) := Frames(a[Size(rec)..]);
      Seqs.Assoc([rec], recs, Frames(rest + b).0);
  }
}
