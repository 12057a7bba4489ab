/**
 What the libfcgi input stream does to a byte string, as a function of the bytes alone.
 A Cursor is the reader's record state together with all bytes it has not consumed; how the
 bytes were cut into reads is not part of it.
 */
module ReaderSpec {
  import opened Bytes
  import opened Records
  import Seqs

  const UNSUPPORTED_VERSION := -2
  const PROTOCOL_ERROR := -3
  /** Not a code of the library: where the model stops because management records are outside it. */
  const MANAGEMENT := -100

  const BEGIN_BODY_LEN := 8

  datatype State = State(rtype: Byte, requestId: RequestId, begun: bool, role: nat, keep: bool,
                         eorStop: bool, skip: bool, contentLen: nat, paddingLen: nat)

  datatype Cursor = Cursor(st: State, bytes: seq<Byte>)

  /** Why the reader stopped: content to deliver, end of stream, a begin record, or an error. */
  datatype Halt = Content | Eof | Begin | Fail(code: int)

  datatype Settled = Settled(halt: Halt, at: Cursor, reply: seq<Byte>)

  function Failed(code: int, st: State): Settled {
    Settled(Fail(code), Cursor(st.(contentLen := 0, paddingLen := 0, skip := false), []), [])
  }

  /** Run on until there is content to deliver or the stream ends. */
  function Settle(c: Cursor): (s: Settled)
    ensures |s.at.bytes| <= |c.bytes|
    ensures s.halt.Content? ==> s.at.st.contentLen > 0 && !s.at.st.skip && s.at.bytes != []
    ensures c.st.begun || c.st.eorStop ==>
              && !s.halt.Begin? && s.at.st.begun == c.st.begun && s.at.st.eorStop == c.st.eorStop
              && s.at.st.requestId == c.st.requestId
    ensures !c.st.begun ==> (s.at.st.begun <==> s.halt.Begin?)
    decreases |c.bytes|, 1
  {
    if c.bytes == [] then Failed(PROTOCOL_ERROR, c.st)
    else if c.st.contentLen > 0 && !c.st.skip then Settled(Content, c, [])
    else FinishRecord(c)
  }

  /** Drop what is left of a record nobody reads any more and go on to the next header. */
  function FinishRecord(c: Cursor): (s: Settled)
    requires c.st.contentLen > 0 ==> c.st.skip
    ensures |s.at.bytes| <= |c.bytes|
    ensures s.halt.Content? ==> s.at.st.contentLen > 0 && !s.at.st.skip && s.at.bytes != []
    ensures c.st.begun || c.st.eorStop ==>
              && !s.halt.Begin? && s.at.st.begun == c.st.begun && s.at.st.eorStop == c.st.eorStop
              && s.at.st.requestId == c.st.requestId
    ensures !c.st.begun ==> (s.at.st.begun <==> s.halt.Begin?)
    decreases |c.bytes|, 0
  {
    var left := c.st.contentLen + c.st.paddingLen;
    if |c.bytes| < left then Failed(PROTOCOL_ERROR, c.st)
    else
      var st := c.st.(contentLen := 0, paddingLen := 0, skip := c.st.skip && c.st.contentLen == 0);
      var bytes := c.bytes[left..];
      if st.eorStop then Settled(Eof, Cursor(st, bytes), [])
      else if |bytes| < HEADER_LEN then Failed(PROTOCOL_ERROR, st)
      else Interpret(ParseHeader(bytes), st, bytes[HEADER_LEN..])
  }

  datatype Verdict = StreamRecord | SkipRecord(reply: seq<Byte>) | BeginRecord | Refuse(code: int)

  /** ProcessHeader and ProcessBeginRecord: what a header means to a reader in state st. */
  function Classify(h: Header, st: State, bytes: seq<Byte>): (v: Verdict)
    ensures v.Refuse? ==> v.code < 0
    ensures v.BeginRecord? ==> |bytes| >= BEGIN_BODY_LEN && !st.begun
  {
    if h.version != 1 then Refuse(UNSUPPORTED_VERSION)
    else if h.rtype == BEGIN_REQUEST then
      if h.id == 0 || h.contentLen != BEGIN_BODY_LEN then Refuse(PROTOCOL_ERROR)
      else if st.begun then SkipRecord(Encode(EndRequest(h.id, 0, CANT_MPX_CONN)))
      else if st.skip || |bytes| < BEGIN_BODY_LEN then Refuse(PROTOCOL_ERROR)
      else BeginRecord
    else if h.id == 0 then Refuse(MANAGEMENT)
    else if h.id != st.requestId then SkipRecord([])
    else if h.rtype != st.rtype then Refuse(PROTOCOL_ERROR)
    else StreamRecord
  }

  /** The request id a header leaves behind: a begin record that is not refused as a second one sets it. */
  function IdAfter(h: Header, st: State): RequestId {
    if h.version == 1 && h.rtype == BEGIN_REQUEST && h.id != 0 && h.contentLen == BEGIN_BODY_LEN && !st.begun
    then h.id else st.requestId
  }

  /** The state and the bytes once a header has been accepted. */
  function AfterHeader(h: Header, st: State, bytes: seq<Byte>): Cursor {
    var st1 := st.(contentLen := h.contentLen, paddingLen := h.paddingLen);
    if Classify(h, st, bytes).BeginRecord? then
      Cursor(st1.(requestId := h.id, begun := true, role := U16(bytes[0], bytes[1]), keep := bytes[2] % 2 == 1,
             contentLen := 0), bytes[BEGIN_BODY_LEN..])
    else
      Cursor(st1, bytes)
  }

  function Interpret(h: Header, st: State, bytes: seq<Byte>): (s: Settled)
    requires !st.eorStop
    ensures |s.at.bytes| <= |bytes|
    ensures s.halt.Content? ==> s.at.st.contentLen > 0 && !s.at.st.skip && s.at.bytes != []
    ensures st.begun ==> !s.halt.Begin? && s.at.st.begun && !s.at.st.eorStop && s.at.st.requestId == st.requestId
    ensures !st.begun ==> (s.at.st.begun <==> s.halt.Begin?)
    decreases |bytes|, 2
  {
    var at := AfterHeader(h, st, bytes);
    match Classify(h, st, bytes)
    case Refuse(code) => Failed(code, st.(requestId := IdAfter(h, st)))
    case StreamRecord => if h.contentLen == 0 then Settled(Eof, at, []) else Settle(at)
    case SkipRecord(reply) => WithReply(reply, Settle(Cursor(at.st.(skip := true), bytes)))
    case BeginRecord => Settled(Begin, at, [])
  }

  function WithReply(reply: seq<Byte>, s: Settled): Settled {
    s.(reply := reply + s.reply)
  }

  /** Consuming k bytes of a record that is being dropped changes nothing about where the reader ends up. */
  lemma DropSome(c: Cursor, k: nat)
    requires c.st.contentLen > 0 && c.st.skip && k <= c.st.contentLen && k <= |c.bytes|
    ensures FinishRecord(c)
            == FinishRecord(Cursor(c.st.(contentLen := c.st.contentLen - k, skip := k < c.st.contentLen), c.bytes[k..]))
  {
    hide Interpret;
    var left := c.st.contentLen + c.st.paddingLen;
    if |c.bytes| >= left {
      Seqs.DropDrop(c.bytes, k, left - k);
    }
  }

  lemma DropPadding(c: Cursor, k: nat)
    requires c.st.contentLen == 0 && k <= c.st.paddingLen && k <= |c.bytes|
    ensures FinishRecord(c) == FinishRecord(Cursor(c.st.(paddingLen := c.st.paddingLen - k), c.bytes[k..]))
  {
    hide Interpret;
    if |c.bytes| >= c.st.paddingLen {
      Seqs.DropDrop(c.bytes, k, c.st.paddingLen - k);
    }
  }

  /** Outside an end-of-record stop, reading on and finishing the record are the same thing. */
  lemma SettleFinishes(c: Cursor)
    requires c.st.contentLen > 0 ==> c.st.skip
    requires c.bytes != [] || c.st.contentLen + c.st.paddingLen > 0 || !c.st.eorStop
    ensures Settle(c) == FinishRecord(c)
  {
  }

  /** With a whole header at the front and nothing left of the previous record, the header decides. */
  lemma FinishAtHeader(st: State, header: seq<Byte>, bytes: seq<Byte>)
    requires st.contentLen == 0 && st.paddingLen == 0 && !st.eorStop && |header| == HEADER_LEN
    ensures FinishRecord(Cursor(st, header + bytes)) == Interpret(ParseHeader(header), st, bytes)
  {
    hide Interpret;
    ParseHeaderPrefix(header, bytes);
    assert (header + bytes)[0..] == header + bytes;
    assert (header + bytes)[HEADER_LEN..] == bytes;
  }

  // ---------- Reading n bytes ----------

  datatype Fetched = Fetched(data: seq<Byte>, at: Cursor, halt: Halt, reply: seq<Byte>)

  function Advance(c: Cursor, k: nat): Cursor
    requires k <= c.st.contentLen && k <= |c.bytes|
  {
    Cursor(c.st.(contentLen := c.st.contentLen - k), c.bytes[k..])
  }

  /** The next n bytes of the stream, or all that are left before it stops. */
  function Fetch(c: Cursor, n: nat): (f: Fetched)
    ensures |f.data| <= n && (f.halt.Content? <==> |f.data| == n)
    ensures f.at.st.begun == c.st.begun || !(c.st.begun || c.st.eorStop)
    decreases |c.bytes|, n
  {
    if n == 0 then Fetched([], c, Content, [])
    else
      var s := Settle(c);
      if !s.halt.Content? then Fetched([], s.at, s.halt, s.reply)
      else
        var k := Min(n, Min(s.at.st.contentLen, |s.at.bytes|));
        var more := Fetch(Advance(s.at, k), n - k);
        Fetched(s.at.bytes[..k] + more.data, more.at, more.halt, s.reply + more.reply)
  }

  function Before(data: seq<Byte>, reply: seq<Byte>, f: Fetched): Fetched {
    f.(data := data + f.data, reply := reply + f.reply)
  }

  lemma BeforeBefore(a: seq<Byte>, b: seq<Byte>, r: seq<Byte>, q: seq<Byte>, f: Fetched)
    ensures Before(a, r, Before(b, q, f)) == Before(a + b, r + q, f)
  {
    Seqs.Assoc(a, b, f.data);
    Seqs.Assoc(r, q, f.reply);
  }

  /** Fetch from a cursor that stands on content. */
  function FetchHere(c: Cursor, n: nat, k: nat): Fetched
    requires k <= c.st.contentLen && k <= |c.bytes| && k <= n
  {
    Before(c.bytes[..k], [], Fetch(Advance(c, k), n - k))
  }

  predicate OnContent(c: Cursor) {
    c.st.contentLen > 0 && !c.st.skip && c.bytes != []
  }

  lemma FetchOnContent(c: Cursor, n: nat)
    requires OnContent(c) && n > 0
    ensures Fetch(c, n) == FetchHere(c, n, Min(n, Min(c.st.contentLen, |c.bytes|)))
  {
    hide FinishRecord;
    assert Settle(c) == Settled(Content, c, []);
  }

  /** Content may be taken in any piece j: what the whole read yields does not change. */
  lemma FetchPiece(c: Cursor, n: nat, j: nat)
    requires OnContent(c)
    requires 1 <= j <= n && j <= c.st.contentLen && j <= |c.bytes|
    ensures Fetch(c, n) == FetchHere(c, n, j)
  {
    hide Fetch;
    hide Before;
    var k := Min(n, Min(c.st.contentLen, |c.bytes|));
    FetchOnContent(c, n);
    if j < k {
      var c1 := Advance(c, j);
      FetchOnContent(c1, n - j);
      Seqs.DropDrop(c.bytes, j, k - j);
      assert Advance(c1, k - j) == Advance(c, k);
      BeforeBefore(c.bytes[..j], c1.bytes[..k - j], [], [], Fetch(Advance(c, k), n - k));
      Seqs.EmptyLeft<Byte>([]);
    }
  }

  lemma FetchSettle(c: Cursor, n: nat)
    requires Settle(c).halt.Content? && n > 0
    ensures Fetch(c, n) == Before([], Settle(c).reply, Fetch(Settle(c).at, n))
  {
    hide Settle;
    var s := Settle(c);
    FetchOnContent(s.at, n);
    var k := Min(n, Min(s.at.st.contentLen, |s.at.bytes|));
    Seqs.EmptyLeft(s.at.bytes[..k] + Fetch(Advance(s.at, k), n - k).data);
    Seqs.EmptyLeft(Fetch(Advance(s.at, k), n - k).reply);
  }
}
