/** The writing half of libfcgi's FCGX_Stream: bytes are packed into 8-aligned records. */
module StreamWriter {
  import opened Bytes
  import opened Records
  import opened Descriptors
  import Seqs

  function Terminator(t: Byte, id: RequestId): (r: Record)
    ensures r.Valid()
  {
    Record(t, id, [], [], 0)
  }

  /** The record EmptyBuffProc makes of buffered content. */
  function DataRecord(t: Byte, id: RequestId, content: seq<Byte>): Record {
    Record(t, id, content, Zeros(Pad8(|content|)), 0)
  }

  /** A well-formed data record: 1 to 65528 bytes of content, zero padded to a multiple of 8. */
  predicate IsData(r: Record, t: Byte, id: RequestId) {
    1 <= |r.content| <= 65528 && r == DataRecord(t, id, r.content)
  }

  predicate AllData(rs: seq<Record>, t: Byte, id: RequestId) {
    forall i :: 0 <= i < |rs| ==> IsData(rs[i], t, id)
  }

  function Payload(rs: seq<Record>): seq<Byte> {
    if rs == [] then [] else Payload(rs[..|rs| - 1]) + rs[|rs| - 1].content
  }

  lemma PayloadAppend(rs: seq<Record>, r: Record)
    ensures Payload(rs + [r]) == Payload(rs) + r.content
  {
    assert (rs + [r])[..|rs|] == rs;
  }

  /** A record on the descriptor: one of the writers' or a reply of the same request's reader. */
  datatype Sent = Sent(record: Record, reply: bool)

  function AllOf(wire: seq<Sent>): (rs: seq<Record>)
    ensures |rs| == |wire|
  {
    if wire == [] then [] else AllOf(wire[..|wire| - 1]) + [wire[|wire| - 1].record]
  }

  /** What the writers, or the reader, have sent. */
  function SentBy(wire: seq<Sent>, reply: bool): seq<Record> {
    if wire == [] then []
    else
      var last := wire[|wire| - 1];
      SentBy(wire[..|wire| - 1], reply) + (if last.reply == reply then [last.record] else [])
  }

  function Tagged(rs: seq<Record>, reply: bool): (wire: seq<Sent>)
    ensures |wire| == |rs|
  {
    if rs == [] then [] else Tagged(rs[..|rs| - 1], reply) + [Sent(rs[|rs| - 1], reply)]
  }

  /** More records of one kind leave the other kind alone. */
  lemma {:induction false} TaggedAppend(wire: seq<Sent>, rs: seq<Record>, reply: bool)
    ensures var wire' := wire + Tagged(rs, reply);
            && AllOf(wire') == AllOf(wire) + rs
            && SentBy(wire', reply) == SentBy(wire, reply) + rs && SentBy(wire', !reply) == SentBy(wire, !reply)
  {
    if rs == [] {
      Seqs.EmptyLeft(wire);
      Seqs.EmptyLeft(AllOf(wire));
      Seqs.EmptyLeft(SentBy(wire, reply));
    } else {
      var rs0, last := rs[..|rs| - 1], rs[|rs| - 1];
      TaggedAppend(wire, rs0, reply);
      var wire0 := wire + Tagged(rs0, reply);
      Seqs.Assoc(wire, Tagged(rs0, reply), [Sent(last, reply)]);
      OneMore(wire0, Sent(last, reply));
      assert rs == rs0 + [last];
      hide AllOf;
      hide SentBy;
      Seqs.Assoc(AllOf(wire), rs0, [last]);
      Seqs.Assoc(SentBy(wire, reply), rs0, [last]);
      Seqs.EmptyLeft(SentBy(wire, !reply));
    }
  }

  lemma OneMore(wire: seq<Sent>, x: Sent)
    ensures AllOf(wire + [x]) == AllOf(wire) + [x.record]
    ensures SentBy(wire + [x], x.reply) == SentBy(wire, x.reply) + [x.record]
    ensures SentBy(wire + [x], !x.reply) == SentBy(wire, !x.reply) + []
  {
    assert (wire + [x])[..|wire|] == wire;
  }

  /** With no replies the writers' records are all there is. */
  lemma {:induction false} NoReplies(wire: seq<Sent>)
    requires SentBy(wire, true) == []
    ensures AllOf(wire) == SentBy(wire, false)
  {
    if wire != [] {
      NoReplies(wire[..|wire| - 1]);
    }
  }

  lemma NothingEncoded()
    ensures EncodeAll([]) == []
  {
  }

  /** The fields of FCGX_Request that the writers use, the records they have sent, and all that was sent. */
  class OutRequest {
    const conn: Connection
    const requestId: RequestId
    var nWriters: int
    var appStatus: int
    ghost const base: seq<Byte>
    ghost var log: seq<Record>
    ghost var wire: seq<Sent>
    /** What the reader has sent. */
    ghost var replies: seq<Record>
    /** The status the request ends with: the last one set while a writer was open. */
    ghost var endStatus: int

    /** The descriptor holds whole records, the writers' among them. */
    ghost predicate Consistent()
      reads this`wire, this`log, this`replies, conn
    {
      Holds(conn.sent)
    }

    ghost predicate Holds(sent: seq<Byte>)
      reads this`wire, this`log, this`replies
    {
      && AllValid(AllOf(wire)) && sent == base + EncodeAll(AllOf(wire))
      && SentBy(wire, false) == log && SentBy(wire, true) == replies
    }

    constructor (conn: Connection, requestId: RequestId, nWriters: int)
      ensures this.conn == conn && this.requestId == requestId && this.nWriters == nWriters && appStatus == 0
      ensures log == [] && wire == [] && replies == [] && base == conn.sent && Consistent() && endStatus == 0
    {
      this.conn, this.requestId, this.nWriters, this.appStatus := conn, requestId, nWriters, 0;
      base, log, wire, replies, endStatus := conn.sent, [], [], [], 0;
      new;
      Seqs.EmptyLeft(conn.sent);
    }

    /** Once records' bytes have been sent the log may record them. */
    ghost method Note(rs: seq<Record>, sent0: seq<Byte>)
      requires AllValid(rs) && Holds(sent0) && conn.sent == sent0 + EncodeAll(rs)
      modifies this`log, this`wire
      ensures log == old(log) + rs && wire == old(wire) + Tagged(rs, false) && Consistent()
    {
      NoteAll(rs, false);
      log := log + rs;
      wire := wire + Tagged(rs, false);
    }

    /** Replies of the reader go between the writers' records. */
    ghost method NoteReplies(rs: seq<Record>, sent0: seq<Byte>)
      requires AllValid(rs) && Holds(sent0) && conn.sent == sent0 + EncodeAll(rs)
      modifies this`wire, this`replies
      ensures wire == old(wire) + Tagged(rs, true) && replies == old(replies) + rs && Consistent()
    {
      NoteAll(rs, true);
      replies := replies + rs;
      wire := wire + Tagged(rs, true);
    }

    lemma NoteAll(rs: seq<Record>, reply: bool)
      requires AllValid(rs) && AllValid(AllOf(wire))
      ensures var wire' := wire + Tagged(rs, reply);
              && AllValid(AllOf(wire')) && base + EncodeAll(AllOf(wire')) == base + EncodeAll(AllOf(wire)) + EncodeAll(rs)
              && SentBy(wire', reply) == SentBy(wire, reply) + rs && SentBy(wire', !reply) == SentBy(wire, !reply)
    {
      hide EncodeAll;
      hide AllOf;
      TaggedAppend(wire, rs, reply);
      EncodeAllAppend(AllOf(wire), rs);
      Seqs.Assoc(base, EncodeAll(AllOf(wire)), EncodeAll(rs));
    }

    /** FCGX_SetExitStatus. */
    method SetExitStatus(status: int)
      modifies this`appStatus, this`endStatus
      ensures appStatus == status && endStatus == if nWriters > 0 then status else old(endStatus)
    {
      appStatus := status;
      if nWriters > 0 {
        endStatus := status;
      }
    }
  }

  datatype Snap = Snap(raw: bool, live: bool, errno: int, wire: seq<Byte>, log: seq<Record>, pending: seq<Byte>, anything: bool)

  class Writer {
    const buff: array<Byte>
    const req: OutRequest
    const wtype: Byte
    var wrNext: nat
    var stop: nat
    var isClosed: bool
    var wasFCloseCalled: bool
    var errno: int
    var isAnythingWritten: bool
    var rawWrite: bool

    ghost predicate Valid()
      reads this
    {
      && 24 <= buff.Length <= MAX_LENGTH + 1 && buff.Length % 8 == 0
      && wrNext <= stop <= buff.Length
    }

    /** A writer still taking data: the first eight bytes of the buffer are kept for the header. */
    ghost predicate Live()
      reads this
    {
      Valid() && !isClosed && !wasFCloseCalled && !rawWrite && stop == buff.Length && HEADER_LEN <= wrNext && errno == 0
    }

    /** FClose has been called: there is no room and nothing more will be sent. */
    ghost predicate Shut()
      reads this
    {
      Valid() && isClosed && wasFCloseCalled && wrNext == stop && errno == 0
    }

    ghost function Pending(): seq<Byte>
      requires Valid() && HEADER_LEN <= wrNext
      reads this, buff
    {
      buff[HEADER_LEN..wrNext]
    }

    /** In raw mode: everything handed to the descriptor or waiting in the buffer. */
    ghost function Wire(): seq<Byte>
      requires Valid()
      reads this, buff, req.conn
    {
      req.conn.sent + buff[..wrNext]
    }

    /** NewStream for a writer; an unaligned allocation costs eight bytes of buffer. */
    constructor (req: OutRequest, bufflen: nat, aligned: bool, wtype: Byte)
      ensures Live() && fresh(buff) && Pending() == [] && !isAnythingWritten
      ensures this.req == req && this.wtype == wtype
    {
      var size := if bufflen < 32 then 32 else if bufflen > MAX_LENGTH + 1 then MAX_LENGTH + 1 else bufflen;
      size := size + Pad8(size);
      this.buff := new Byte[if aligned then size else size - 8](_ => 0);
      this.req, this.wtype := req, wtype;
      wrNext, stop := HEADER_LEN, if aligned then size else size - 8;
      isClosed, wasFCloseCalled, errno := false, false, 0;
      isAnythingWritten, rawWrite := false, false;
    }

    method SetError(code: int)
      modifies this`errno, this`isClosed
      ensures isClosed && errno == if old(errno) == 0 then code else old(errno)
    {
      if errno == 0 {
        errno := code;
      }
      isClosed := true;
    }

    /** Copy data to wrNext and move past it. */
    method Copy(data: seq<Byte>)
      requires Valid() && |data| <= stop - wrNext
      modifies this`wrNext, buff
      ensures Valid() && wrNext == old(wrNext) + |data|
      ensures buff[..wrNext] == old(buff[..wrNext]) + data
    {
      forall i | 0 <= i < |data| {
        buff[wrNext + i] := data[i];
      }
      wrNext := wrNext + |data|;
    }

    /** EmptyBuffProc, first part: turn buffered content into a whole record at the front of the buffer. */
    method Seal()
      requires Valid() && stop == buff.Length && HEADER_LEN <= wrNext
      modifies this`wrNext, buff
      ensures Valid()
      ensures var rs := DataRecs(old(Pending()));
              AllValid(rs) && AllData(rs, wtype, req.requestId) && buff[..wrNext] == EncodeAll(rs)
      ensures wrNext == 0 <==> old(Pending()) == []
    {
      var cLen := wrNext - HEADER_LEN;
      if cLen > 0 {
        ghost var p := Pending();
        var pad := Pad8(cLen);
        assert buff.Length % 8 == 0 && (HEADER_LEN + cLen + pad) % 8 == 0;
        Copy(Zeros(pad));
        assert buff[HEADER_LEN..wrNext] == p + Zeros(pad) by {
          assert buff[HEADER_LEN..wrNext] == buff[..wrNext][HEADER_LEN..];
          assert old(buff[..wrNext])[HEADER_LEN..] == p;
        }
        PutHeader(MakeHeader(wtype, req.requestId, cLen, pad, 0));
        hide MakeHeader;
        Seqs.Assoc(MakeHeader(wtype, req.requestId, cLen, pad, 0), p, Zeros(pad));
        EncodeAllOne(DataRecord(wtype, req.requestId, p));
      } else {
        wrNext := 0;
      }
    }

    /** Write the header into the eight bytes kept free for it. */
    method PutHeader(header: seq<Byte>)
      requires Valid() && |header| == HEADER_LEN <= wrNext
      modifies buff
      ensures buff[..wrNext] == header + old(buff[HEADER_LEN..wrNext])
    {
      forall i | 0 <= i < HEADER_LEN {
        buff[i] := header[i];
      }
    }

    /** EmptyBuffProc, last part: write the buffer out. */
    method Flush() returns (ok: bool)
      requires Valid()
      modifies this`wrNext, this`isAnythingWritten, this`isClosed, this`errno, req.conn`sent
      ensures Valid() && (!req.conn.faulty ==> ok)
      ensures ok ==> && wrNext == 0 && req.conn.sent == old(Wire())
                     && isAnythingWritten == (old(isAnythingWritten) || old(wrNext) != 0)
                     && isClosed == old(isClosed) && errno == old(errno)
      ensures !ok ==> isClosed
    {
      if wrNext != 0 {
        isAnythingWritten := true;
        ok := req.conn.WriteAll(buff[..wrNext]);
        if !ok {
          SetError(1);
          return;
        }
        wrNext := 0;
      } else {
        Seqs.EmptyLeft(req.conn.sent);
      }
      return true;
    }

    /** The record buffered content becomes, if there is any. */
    function DataRecs(p: seq<Byte>): seq<Record> {
      if p == [] then [] else [DataRecord(wtype, req.requestId, p)]
    }

    /** What closing adds: a terminator unless this is an unused stderr, and the end of the request if last. */
    function CloseRecs(unused: bool, last: bool, appStatus: int): (rs: seq<Record>)
      ensures AllValid(rs)
    {
      (if wtype == STDERR && unused then [] else [Terminator(wtype, req.requestId)])
      + (if last then [EndRequest(req.requestId, appStatus, REQUEST_COMPLETE)] else [])
    }

    /** WriteCloseRecords: in raw mode these records go straight into the buffer. */
    method WriteCloseRecords()
      requires Valid() && stop == buff.Length
      modifies this, buff, req`nWriters, req`log, req`wire, req.conn`sent
      ensures Valid() && stop == buff.Length && rawWrite && wasFCloseCalled == old(wasFCloseCalled)
      ensures req.log == old(req.log) && req.wire == old(req.wire) && req.nWriters == old(req.nWriters) - 1 && req.appStatus == old(req.appStatus)
      ensures !req.conn.faulty && old(!isClosed) ==>
                && !isClosed && errno == old(errno)
                && Wire() == old(Wire()) + EncodeAll(CloseRecs(old(wrNext == 0 && !isAnythingWritten), old(req.nWriters == 1), req.appStatus))
      decreases 2
    {
      hide Encode;
      hide EncodeAll;
      hide req.Consistent;
      NothingEncoded();
      rawWrite := true;
      ghost var first := if wtype == STDERR && wrNext == 0 && !isAnythingWritten then [] else [Terminator(wtype, req.requestId)];
      ghost var second := if req.nWriters == 1 then [EndRequest(req.requestId, req.appStatus, REQUEST_COMPLETE)] else [];
      EncodeAllAppend(first, second);
      Seqs.Assoc(Wire(), EncodeAll(first), EncodeAll(second));
      Seqs.EmptyLeft(Wire());
      if !(wtype == STDERR && wrNext == 0 && !isAnythingWritten) {
        EncodeAllOne(Terminator(wtype, req.requestId));
        var rc := PutStr(Encode(Terminator(wtype, req.requestId)));
      }
      Seqs.EmptyLeft(Wire());
      if req.nWriters == 1 {
        EncodeAllOne(EndRequest(req.requestId, req.appStatus, REQUEST_COMPLETE));
        var rc := PutStr(Encode(EndRequest(req.requestId, req.appStatus, REQUEST_COMPLETE)));
      }
      req.nWriters := req.nWriters - 1;
    }

    /** Records added to the log since log0 are data of this stream, and with the buffer they carry all of data. */
    ghost predicate Carried(log0: seq<Record>, data: seq<Byte>)
      requires Valid() && HEADER_LEN <= wrNext
      reads this, buff, req
    {
      && log0 <= req.log
      && AllData(req.log[|log0|..], wtype, req.requestId)
      && Payload(req.log[|log0|..]) + Pending() == data
    }

    ghost predicate Room()
      reads this
    {
      Valid() && (isClosed || (stop == buff.Length && (!rawWrite ==> HEADER_LEN <= wrNext)))
    }

    /** A copy into the buffer extends both views of it. */
    method Append(data: seq<Byte>)
      requires Valid() && |data| <= stop - wrNext
      modifies this`wrNext, buff
      ensures Valid() && wrNext == old(wrNext) + |data|
      ensures Wire() == old(Wire()) + data
      ensures HEADER_LEN <= old(wrNext) ==> Pending() == old(Pending()) + data
    {
      ghost var front := buff[..wrNext];
      Copy(data);
      Seqs.Assoc(req.conn.sent, front, data);
      if HEADER_LEN <= old(wrNext) {
        assert buff[HEADER_LEN..wrNext] == buff[..wrNext][HEADER_LEN..];
        Seqs.TakeDropAppend(front, data, HEADER_LEN);
        assert front[HEADER_LEN..] == old(buff[HEADER_LEN..wrNext]);
      }
    }

    /** What a sequence of copies and flushes is measured against. */
    ghost function Snapshot(): Snap
      requires Valid()
      reads this, buff, req, req.conn
    {
      Snap(rawWrite && !isClosed, Live() && req.Consistent(), errno, Wire(), req.log,
           if HEADER_LEN <= wrNext then Pending() else [], isAnythingWritten)
    }

    /**
     Since s0, data has been put. In raw mode the bytes follow those before them. On a live writer
     nothing is lost, and only whole data records of this stream have gone out.
     */
    ghost predicate Puts(s0: Snap, data: seq<Byte>)
      requires Valid()
      reads this, buff, req, req.conn
    {
      !req.conn.faulty ==>
        && (s0.raw ==> rawWrite && !isClosed && errno == s0.errno && Wire() == s0.wire + data && req.log == s0.log)
        && (s0.live ==>
              && Live() && req.Consistent() && Carried(s0.log, s0.pending + data)
              && isAnythingWritten == (s0.anything || req.log != s0.log))
    }

    lemma PutStarts()
      requires Valid()
      ensures Puts(Snapshot(), [])
    {
      Seqs.EmptyLeft(Wire());
      if Live() {
        Seqs.EmptyLeft(Pending());
        assert req.log[|req.log|..] == [];
      }
    }

    method PutPiece(ghost s0: Snap, ghost data: seq<Byte>, piece: seq<Byte>)
      requires Room() && |piece| <= stop - wrNext && Puts(s0, data)
      modifies this`wrNext, buff
      ensures Room() && wrNext == old(wrNext) + |piece| && Puts(s0, data + piece)
    {
      ghost var news := Payload(req.log[if |s0.log| <= |req.log| then |s0.log| else 0..]);
      Seqs.Assoc(s0.wire, data, piece);
      Seqs.Assoc(s0.pending, data, piece);
      Seqs.Assoc(news, if HEADER_LEN <= wrNext then Pending() else [], piece);
      Append(piece);
    }

    lemma CarriedFlush(log0: seq<Record>, log: seq<Record>, p: seq<Byte>, data: seq<Byte>)
      requires log0 <= log && AllData(log[|log0|..], wtype, req.requestId) && Payload(log[|log0|..]) + p == data && |p| <= 65528
      ensures var log' := log + DataRecs(p);
              log0 <= log' && AllData(log'[|log0|..], wtype, req.requestId) && Payload(log'[|log0|..]) + [] == data
    {
      Seqs.EmptyLeft(data);
      var log' := log + DataRecs(p);
      Seqs.TakeDropAppend(log, DataRecs(p), |log0|);
      if p == [] {
        Seqs.EmptyLeft(log[|log0|..]);
      } else {
        PayloadAppend(log[|log0|..], DataRecord(wtype, req.requestId, p));
      }
    }

    method PutEmpties(ghost s0: Snap, ghost data: seq<Byte>)
      requires Room() && !isClosed && Puts(s0, data)
      modifies this, buff, req`nWriters, req`log, req`wire, req.conn`sent
      ensures old(req.wire) <= req.wire
      ensures Room() && stop == old(stop) && rawWrite == old(rawWrite) && wasFCloseCalled == old(wasFCloseCalled)
      ensures req.nWriters == old(req.nWriters) && req.appStatus == old(req.appStatus)
      ensures isClosed || wrNext == if rawWrite then 0 else HEADER_LEN
      ensures isClosed || wrNext < stop
      ensures old(rawWrite) ==> req.log == old(req.log) && req.wire == old(req.wire)
      ensures Puts(s0, data)
      decreases 0, 1
    {
      hide DataRecs;
      if s0.live && !req.conn.faulty {
        CarriedFlush(s0.log, req.log, Pending(), s0.pending + data);
        DataRecsEmpty(Pending());
      }
      Seqs.EmptyLeft(req.conn.sent + buff[..wrNext]);
      EmptyBuffProc(false);
      assert buff[..0] == [];
    }

    lemma DataRecsEmpty(p: seq<Byte>)
      ensures DataRecs(p) == [] <==> p == []
    {
    }

    /** FCGX_PutStr. */
    method PutStr(str: seq<Byte>) returns (rc: int)
      requires Room()
      modifies this, buff, req`nWriters, req`log, req`wire, req.conn`sent
      ensures old(req.wire) <= req.wire
      ensures req.nWriters == old(req.nWriters) && req.appStatus == old(req.appStatus)
      ensures Room() && stop == old(stop) && rawWrite == old(rawWrite) && wasFCloseCalled == old(wasFCloseCalled)
      ensures old(rawWrite) ==> req.log == old(req.log) && req.wire == old(req.wire)
      ensures Puts(old(Snapshot()), str)
      ensures !req.conn.faulty && old(Live() && req.Consistent()) ==> rc == |str|
      ensures old(Shut()) ==> Shut() && req.log == old(req.log) && req.wire == old(req.wire) && req.conn.sent == old(req.conn.sent) && (str != [] ==> rc == -1)
      decreases 1
    {
      hide Puts;
      hide req.Consistent;
      ghost var s0 := Snapshot();
      PutStarts();
      Seqs.EmptyLeft(str);
      if |str| <= stop - wrNext {
        PutPiece(s0, [], str);
        return |str|;
      }
      var moved := 0;
      while true
        invariant Room() && 0 <= moved < |str|
        invariant stop == old(stop) && rawWrite == old(rawWrite) && wasFCloseCalled == old(wasFCloseCalled)
        invariant req.nWriters == old(req.nWriters) && old(req.wire) <= req.wire
        invariant old(rawWrite) ==> req.log == old(req.log) && req.wire == old(req.wire)
        invariant Puts(s0, str[..moved])
        invariant old(Shut()) ==> Shut() && req.log == old(req.log) && req.wire == old(req.wire) && req.conn.sent == old(req.conn.sent)
        decreases |str| - moved, if wrNext == stop && !isClosed then 1 else 0
      {
        if wrNext != stop {
          var m := if |str| - moved <= stop - wrNext then |str| - moved else stop - wrNext;
          Seqs.DropDrop(str, moved, m);
          PutPiece(s0, str[..moved], str[moved..][..m]);
          moved := moved + m;
          if moved == |str| {
            Seqs.TakeAll(str);
            return moved;
          }
        }
        if isClosed {
          PutClosed(s0, str[..moved]);
          return -1;
        }
        PutEmpties(s0, str[..moved]);
      }
    }

    lemma PutClosed(s0: Snap, data: seq<Byte>)
      requires Valid() && isClosed && Puts(s0, data)
      ensures forall d :: Puts(s0, d)
      ensures !req.conn.faulty ==> !s0.live
    {
    }

    /** EmptyBuffProc. */
    method EmptyBuffProc(doClose: bool)
      requires Valid() && stop == buff.Length && (if rawWrite then !doClose else HEADER_LEN <= wrNext)
      modifies this, buff, req`nWriters, req`log, req`wire, req.conn`sent
      ensures old(req.wire) <= req.wire
      ensures Valid() && stop == buff.Length && rawWrite == (old(rawWrite) || doClose)
      ensures wasFCloseCalled == old(wasFCloseCalled)
      ensures isClosed || wrNext == if rawWrite then 0 else HEADER_LEN
      ensures old(rawWrite) ==> req.log == old(req.log) && req.wire == old(req.wire)
      ensures !doClose ==> req.nWriters == old(req.nWriters) && req.appStatus == old(req.appStatus)
      ensures !req.conn.faulty && old(rawWrite && !isClosed) ==>
                !isClosed && errno == old(errno) && req.conn.sent == old(Wire())
      ensures !req.conn.faulty && old(Live() && req.Consistent()) ==>
                && req.Consistent() && !isClosed && errno == 0 && req.appStatus == old(req.appStatus)
                && var unused := old(Pending() == [] && !isAnythingWritten);
                   if doClose then
                     && req.log == old(req.log) + DataRecs(old(Pending())) + CloseRecs(unused, old(req.nWriters == 1), req.appStatus)
                     && req.nWriters == old(req.nWriters) - 1
                   else
                     && req.log == old(req.log) + DataRecs(old(Pending())) && Live() && Pending() == []
                     && isAnythingWritten == (old(isAnythingWritten) || old(Pending()) != [])
      decreases if doClose then 3 else 0, 0
    {
      hide EncodeAll;
      hide CloseRecs;
      hide DataRecs;
      hide AllOf;
      hide SentBy;
      hide Tagged;
      hide AllValid;
      hide req.Holds;
      ghost var live := !rawWrite && Live() && req.Consistent() && !req.conn.faulty;
      ghost var sent0 := req.conn.sent;
      ghost var rs := [];
      if !rawWrite {
        rs := DataRecs(Pending());
        Seal();
      }
      if doClose {
        ghost var more := CloseRecs(wrNext == 0 && !isAnythingWritten, req.nWriters == 1, req.appStatus);
        EncodeAllAppend(rs, more);
        Seqs.Assoc(req.conn.sent, EncodeAll(rs), EncodeAll(more));
        ghost var sum := rs + more;
        Seqs.Assoc(req.log, rs, more);
        WriteCloseRecords();
        rs := sum;
      }
      var ok := Flush();
      if !ok {
        return;
      }
      if live {
        req.Note(rs, sent0);
      }
      if !rawWrite {
        wrNext := wrNext + HEADER_LEN;
      }
    }

    /** FCGX_PutChar: the byte, or -1. */
    method PutChar(c: Byte) returns (rc: int)
      requires Room()
      modifies this, buff, req`nWriters, req`log, req`wire, req.conn`sent
      ensures old(req.wire) <= req.wire
      ensures Room() && stop == old(stop) && rawWrite == old(rawWrite) && wasFCloseCalled == old(wasFCloseCalled)
      ensures req.nWriters == old(req.nWriters) && req.appStatus == old(req.appStatus)
      ensures Puts(old(Snapshot()), [c])
      ensures !req.conn.faulty && old(Live() && req.Consistent()) ==> rc == c
      ensures old(Shut()) ==> Shut() && req.log == old(req.log) && req.wire == old(req.wire) && req.conn.sent == old(req.conn.sent) && rc == -1
    {
      hide Puts;
      hide req.Consistent;
      ghost var s0 := Snapshot();
      PutStarts();
      Seqs.EmptyLeft([c]);
      if wrNext != stop {
        PutPiece(s0, [], [c]);
        return c;
      }
      if isClosed {
        PutClosed(s0, []);
        return -1;
      }
      PutEmpties(s0, []);
      if wrNext != stop {
        PutPiece(s0, [], [c]);
        return c;
      }
      PutClosed(s0, []);
      return -1;
    }

    /** FCGX_FFlush. */
    method FFlush() returns (rc: int)
      requires Room()
      modifies this, buff, req`nWriters, req`log, req`wire, req.conn`sent
      ensures old(req.wire) <= req.wire
      ensures Room() && stop == old(stop) && rawWrite == old(rawWrite) && wasFCloseCalled == old(wasFCloseCalled)
      ensures req.nWriters == old(req.nWriters) && req.appStatus == old(req.appStatus)
      ensures Puts(old(Snapshot()), [])
      ensures !req.conn.faulty && old(Live() && req.Consistent()) ==> rc == 0 && Pending() == []
      ensures old(Shut()) ==> Shut() && req.log == old(req.log) && req.wire == old(req.wire) && req.conn.sent == old(req.conn.sent) && rc == 0
    {
      ghost var s0 := Snapshot();
      PutStarts();
      if isClosed {
        return 0;
      }
      PutEmpties(s0, []);
      return if isClosed then -1 else 0;
    }

    /** FCGX_FClose: everything buffered goes out, then the terminator, then the end of the request if last. */
    method FClose() returns (rc: int)
      requires Valid() && (if wasFCloseCalled then isClosed else stop == buff.Length && !rawWrite && HEADER_LEN <= wrNext)
      modifies this, buff, req`nWriters, req`log, req`wire, req.conn`sent
      ensures old(req.wire) <= req.wire
      ensures Valid() && wasFCloseCalled && isClosed
      ensures old(Shut()) ==>
                && Shut() && rc == 0 && req.log == old(req.log) && req.wire == old(req.wire) && req.conn.sent == old(req.conn.sent)
                && req.nWriters == old(req.nWriters) && req.appStatus == old(req.appStatus)
      ensures !req.conn.faulty && old(Live() && req.Consistent()) ==>
                && Shut() && req.Consistent() && rc == 0
                && req.nWriters == old(req.nWriters) - 1 && req.appStatus == old(req.appStatus)
                && req.log == old(req.log) + DataRecs(old(Pending()))
                              + CloseRecs(old(Pending() == [] && !isAnythingWritten), old(req.nWriters == 1), old(req.appStatus))
    {
      hide DataRecs;
      hide CloseRecs;
      if !wasFCloseCalled {
        EmptyBuffProc(true);
        wasFCloseCalled := true;
        isClosed := true;
        stop := wrNext;
      }
      return if errno == 0 then 0 else -1;
    }
  }
}
