/** The reading half of libfcgi's FCGX_Stream: an input buffer over a connection, refilled record by record. */
module StreamReader {
  import opened Bytes
  import opened Records
  import opened ReaderSpec
  import opened Descriptors
  import Seqs

  /** The fields of FCGX_Request that the reader sets. */
  class Request {
    var requestId: RequestId
    var begun: bool
    var role: nat
    var keep: bool

    constructor ()
      ensures requestId == 0 && !begun
    {
      requestId, begun, role, keep := 0, false, 0, false;
    }
  }

  class InStream {
    const buff: array<Byte>
    const req: Request
    const conn: Connection
    var rdNext: nat
    var stop: nat
    var buffStop: nat
    var isClosed: bool
    var errno: int
    var rtype: Byte
    var eorStop: bool
    var skip: bool
    var contentLen: nat
    var paddingLen: nat

    /** Bytes rdNext..stop are ready for the client; rdNext..buffStop have been read from the connection. */
    ghost predicate Valid()
      reads this
    {
      && buff.Length > 0
      && rdNext <= buffStop <= buff.Length
      && (!isClosed ==> rdNext <= stop <= buffStop && (rdNext < stop ==> !skip))
    }

    ghost function Unread(): seq<Byte>
      requires rdNext <= buffStop <= buff.Length
      reads this, buff, conn`pending
    {
      buff[rdNext..buffStop] + conn.pending
    }

    ghost function StateWith(contentLen: nat): State
      reads this, req
    {
      State(rtype, req.requestId, req.begun, req.role, req.keep, eorStop, skip, contentLen, paddingLen)
    }

    /** The abstract position: content already handed out but not taken counts as content still to come. */
    ghost function Abs(): Cursor
      requires Valid() && !isClosed
      reads this, buff, req, conn`pending
    {
      Cursor(StateWith(contentLen + (stop - rdNext)), Unread())
    }

    /** NewStream for a reader; an unaligned allocation costs eight bytes of buffer. */
    constructor (req: Request, conn: Connection, bufflen: nat, aligned: bool, rtype: Byte)
      ensures Valid() && fresh(buff) && !isClosed && errno == 0
      ensures this.req == req && this.conn == conn
      ensures Abs() == Cursor(State(rtype, req.requestId, req.begun, req.role, req.keep, false, false, 0, 0), conn.pending)
    {
      var size := Min(Max(bufflen, 32), MAX_LENGTH + 1);
      size := size + Pad8(size);
      this.buff := new Byte[if aligned then size else size - 8](_ => 0);
      this.req, this.conn := req, conn;
      rdNext, stop, buffStop := 0, 0, 0;
      isClosed, errno := false, 0;
      this.rtype, eorStop, skip, contentLen, paddingLen := rtype, false, false, 0, 0;
      new;
      Seqs.EmptyLeft(conn.pending);
    }

    /** SetReaderType. */
    method SetReaderType(rtype: Byte)
      requires Valid()
      modifies this
      ensures Valid() && !isClosed && rdNext == stop && errno == old(errno)
      ensures Unread() == old(Unread())
      ensures Abs() == Cursor(State(rtype, req.requestId, req.begun, req.role, req.keep, false, false, 0, 0), Unread())
    {
      this.rtype, eorStop, skip, contentLen, paddingLen := rtype, false, false, 0, 0;
      stop := rdNext;
      isClosed := false;
    }

    /** SetError keeps the first error. */
    method SetError(code: int)
      modifies this`errno, this`isClosed
      ensures isClosed && errno == if old(errno) == 0 then code else old(errno)
    {
      if errno == 0 {
        errno := code;
      }
      isClosed := true;
    }

    /** How the stream stands after a halt, for a call that started with error code errno0 and sent0 written. */
    ghost predicate StandsAt(halt: Halt, at: Cursor, reply: seq<Byte>, errno0: int, sent0: seq<Byte>)
      requires Valid()
      reads this, buff, req, conn
    {
      && conn.sent == sent0 + reply
      && req.requestId == at.st.requestId && req.begun == at.st.begun
      && match halt
         case Content => !isClosed && errno == errno0 && Abs() == at
         case Begin => !isClosed && errno == errno0 && rdNext == stop && Abs() == at
         case Eof => isClosed && errno == errno0 && Here() == at
         case Fail(code) => isClosed && errno == if errno0 == 0 then code else errno0
    }

    /** FillBuffProc's position inside its loop, where stop may lag behind. */
    ghost function Here(): Cursor
      requires rdNext <= buffStop <= buff.Length
      reads this, buff, req, conn
    {
      Cursor(StateWith(contentLen), Unread())
    }

    method Refill() returns (ok: bool)
      requires rdNext <= buffStop <= buff.Length && buff.Length > 0
      requires !isClosed
      modifies this`rdNext, this`buffStop, this`errno, this`isClosed, buff, conn`pending
      ensures rdNext <= buffStop <= buff.Length
      ensures Unread() == old(Unread())
      ensures ok ==> rdNext < buffStop && !isClosed && errno == old(errno)
      ensures !ok ==> isClosed && rdNext == buffStop
      ensures !ok && !conn.faulty ==> Unread() == [] && errno == if old(errno) == 0 then PROTOCOL_ERROR else old(errno)
    {
      if rdNext == buffStop {
        var count := conn.Read(buff);
        if count <= 0 {
          SetError(if count == 0 then PROTOCOL_ERROR else 1);
          return false;
        }
        rdNext := 0;
        buffStop := count;
        assert old(conn.pending) == old(conn.pending)[..count] + old(conn.pending)[count..];
      }
      return true;
    }

    /** Step over count bytes of the buffer. */
    method Pass(count: nat)
      requires rdNext + count <= buffStop <= buff.Length
      modifies this`rdNext
      ensures rdNext == old(rdNext) + count
      ensures Unread() == old(Unread())[count..]
    {
      rdNext := rdNext + count;
    }

    /** FillBuffProc, content that is being skipped: true if the buffer ran out before the content did. */
    method DropContent() returns (again: bool)
      requires rdNext < buffStop <= buff.Length
      requires contentLen > 0 ==> skip
      modifies this`rdNext, this`skip, this`contentLen
      ensures old(rdNext) <= rdNext <= buffStop
      ensures again <==> contentLen > 0
      ensures again ==> skip && rdNext == buffStop
      ensures old(contentLen) == 0 ==> rdNext == old(rdNext) && skip == old(skip)
      ensures FinishRecord(Here()) == old(FinishRecord(Here()))
    {
      hide FinishRecord;
      if contentLen > 0 {
        var count := if contentLen <= buffStop - rdNext then contentLen else buffStop - rdNext;
        DropSome(Here(), count);
        Pass(count);
        skip := count < contentLen;
        contentLen := contentLen - count;
      }
      return contentLen > 0;
    }

    /** FillBuffProc, padding: true if the buffer ran out before the padding did. */
    method DropPadding() returns (again: bool)
      requires rdNext <= buffStop <= buff.Length
      requires contentLen == 0
      modifies this`rdNext, this`paddingLen
      ensures old(rdNext) <= rdNext <= buffStop
      ensures again <==> paddingLen > 0
      ensures again ==> rdNext == buffStop
      ensures old(paddingLen) == 0 ==> rdNext == old(rdNext)
      ensures FinishRecord(Here()) == old(FinishRecord(Here()))
    {
      hide FinishRecord;
      if paddingLen > 0 {
        var count := if paddingLen <= buffStop - rdNext then paddingLen else buffStop - rdNext;
        ReaderSpec.DropPadding(Here(), count);
        Pass(count);
        paddingLen := paddingLen - count;
      }
      return paddingLen > 0;
    }

    /** FillBuffProc, content for the client: hand out all of it that is in the buffer. */
    method Deliver()
      requires rdNext < buffStop <= buff.Length && buff.Length > 0 && !isClosed
      requires contentLen > 0 && !skip
      modifies this`contentLen, this`stop
      ensures Valid() && !isClosed && rdNext < stop && Abs() == old(Here())
    {
      var count := if contentLen <= buffStop - rdNext then contentLen else buffStop - rdNext;
      contentLen := contentLen - count;
      stop := rdNext + count;
    }

    /** FillBuffProc, header: copy as much of it as is in the buffer. */
    method CopyHeader(header: seq<Byte>) returns (header': seq<Byte>)
      requires rdNext <= buffStop <= buff.Length && |header| < HEADER_LEN
      modifies this`rdNext
      ensures old(rdNext) <= rdNext <= buffStop && |header'| <= HEADER_LEN
      ensures old(rdNext) < old(buffStop) ==> old(rdNext) < rdNext
      ensures header' + Unread() == header + old(Unread())
      ensures |header'| < HEADER_LEN ==> rdNext == buffStop
    {
      var count := if HEADER_LEN - |header| <= buffStop - rdNext then HEADER_LEN - |header| else buffStop - rdNext;
      header' := header + buff[rdNext..rdNext + count];
      ghost var u := Unread();
      assert buff[rdNext..rdNext + count] == u[..count];
      Pass(count);
      Seqs.Assoc(header, u[..count], u[count..]);
    }

    /** How the stream stands after reading data, for a read that started with errno0 and sent0. */
    ghost predicate FetchedAt(f: Fetched, data: seq<Byte>, errno0: int, sent0: seq<Byte>)
      requires Valid()
      reads this, buff, req, conn
    {
      data == f.data && StandsAt(f.halt, f.at, f.reply, errno0, sent0)
    }

    /** FCGX_GetStr: up to n bytes, fewer only if the stream ends first. */
    method GetStr(n: int) returns (data: seq<Byte>)
      requires Valid() && (req.begun || eorStop)
      modifies this, buff, req, conn
      ensures Valid() && |Unread()| <= old(|Unread()|)
      ensures req.begun == old(req.begun) && eorStop == old(eorStop) && rtype == old(rtype)
      ensures old(isClosed) ==> data == [] && isClosed && errno == old(errno) && conn.sent == old(conn.sent)
      ensures !old(isClosed) && |data| == n ==> !isClosed && errno == old(errno)
      ensures !old(isClosed) && !conn.faulty ==>
                FetchedAt(Fetch(old(Abs()), Max(n, 0)), data, old(errno), old(conn.sent))
      decreases |Unread()|, 1
    {
      hide Fetch;
      hide Toward;
      hide FetchedAt;
      data := [];
      if isClosed {
        return;
      }
      Starts(Max(n, 0));
      ghost var f0 := Fetch(Abs(), Max(n, 0));
      if n <= 0 {
        Arrived(f0, data, conn.sent);
        return;
      }
      while true
        invariant Valid() && !isClosed && |data| < n
        invariant |Unread()| <= old(|Unread()|)
        invariant errno == old(errno) && req.begun == old(req.begun) && eorStop == old(eorStop) && rtype == old(rtype)
        invariant !conn.faulty ==> Toward(f0, data, n - |data|, old(conn.sent))
        decreases |Unread()|, if rdNext == stop then 1 else 0
      {
        data := TakeReady(data, n - |data|, f0, old(conn.sent));
        if |data| == n {
          Arrived(f0, data, old(conn.sent));
          return;
        }
        FillOn(data, n - |data|, f0, old(conn.sent));
        if isClosed {
          return;
        }
      }
    }

    /** FCGX_GetChar: the next byte, or EOF. */
    method GetChar() returns (c: int)
      requires Valid() && (req.begun || eorStop)
      modifies this, buff, req, conn
      ensures Valid() && |Unread()| <= old(|Unread()|) && EOF <= c < 256
      ensures req.begun == old(req.begun) && eorStop == old(eorStop) && rtype == old(rtype)
      ensures old(isClosed) ==> c == EOF && isClosed && errno == old(errno) && conn.sent == old(conn.sent)
      ensures !old(isClosed) ==> (isClosed <==> c == EOF)
      ensures !old(isClosed) && !conn.faulty ==>
                FetchedAt(Fetch(old(Abs()), 1), if c == EOF then [] else [c], old(errno), old(conn.sent))
    {
      hide Fetch;
      hide Toward;
      hide FetchedAt;
      if isClosed {
        return EOF;
      }
      Starts(1);
      ghost var f0 := Fetch(Abs(), 1);
      var data: seq<Byte> := [];
      if rdNext == stop {
        FillOn([], 1, f0, old(conn.sent));
        if isClosed {
          return EOF;
        }
      }
      data := TakeReady([], 1, f0, old(conn.sent));
      Arrived(f0, data, old(conn.sent));
      assert data == [data[0]];
      return data[0];
    }

    /** A read whose outcome will be f0 has collected data so far and wants left more. */
    ghost predicate Toward(f0: Fetched, data: seq<Byte>, left: nat, sent0: seq<Byte>)
      requires Valid() && !isClosed
      reads this, buff, req, conn
    {
      sent0 <= conn.sent && f0 == Before(data, conn.sent[|sent0|..], Fetch(Abs(), left))
    }

    lemma Starts(n: nat)
      requires Valid() && !isClosed
      ensures Toward(Fetch(Abs(), n), [], n, conn.sent)
    {
      Seqs.EmptyLeft(conn.sent);
      BeforeNothing(Fetch(Abs(), n));
    }

    lemma Arrived(f0: Fetched, data: seq<Byte>, sent0: seq<Byte>)
      requires Valid() && !isClosed
      ensures Toward(f0, data, 0, sent0) ==> FetchedAt(f0, data, errno, sent0)
    {
      Seqs.EmptyLeft(data);
      Seqs.EmptyLeft(conn.sent[if |sent0| <= |conn.sent| then |sent0| else 0..]);
    }

    /** GetStr's copying step: take what is ready, up to what is wanted. */
    method TakeReady(data: seq<Byte>, left: nat, ghost f0: Fetched, ghost sent0: seq<Byte>) returns (data': seq<Byte>)
      requires Valid() && !isClosed && left > 0
      modifies this`rdNext
      ensures Valid() && |data'| == |data| + rdNext - old(rdNext) <= |data| + left
      ensures |data'| == |data| + left || rdNext == stop
      ensures |Unread()| == old(|Unread()|) - (rdNext - old(rdNext))
      ensures old(Toward(f0, data, left, sent0)) ==> Toward(f0, data', left - (|data'| - |data|), sent0)
    {
      hide Fetch;
      if rdNext == stop {
        return data;
      }
      var m := if left <= stop - rdNext then left else stop - rdNext;
      FetchPiece(Abs(), left, m);
      var piece := Take(m);
      ghost var reply := conn.sent[if |sent0| <= |conn.sent| then |sent0| else 0..];
      BeforeBefore(data, piece, reply, [], Fetch(Abs(), left - m));
      Seqs.EmptyLeft(reply);
      return data + piece;
    }

    /** GetStr's refilling step. */
    method FillOn(data: seq<Byte>, left: nat, ghost f0: Fetched, ghost sent0: seq<Byte>)
      requires Valid() && !isClosed && rdNext == stop && left > 0
      requires req.begun || eorStop
      modifies this, buff, req, conn
      ensures Valid() && |Unread()| <= old(|Unread()|)
      ensures eorStop == old(eorStop) && rtype == old(rtype) && req.begun == old(req.begun)
      ensures !isClosed ==> rdNext < stop && errno == old(errno)
      ensures !conn.faulty && old(Toward(f0, data, left, sent0)) ==>
                if isClosed then FetchedAt(f0, data, old(errno), sent0) else Toward(f0, data, left, sent0)
      decreases |Unread()|, 0, 1
    {
      hide Fetch;
      hide Settle;
      ghost var c, s, sent1 := Abs(), Settle(Abs()), conn.sent;
      FetchSettled(c, left);
      FillBuffProc();
      if !conn.faulty && sent0 <= sent1 {
        ghost var reply := sent1[|sent0|..];
        assert sent1 == sent0 + reply;
        Seqs.Assoc(sent0, reply, s.reply);
        assert conn.sent[|sent0|..] == reply + s.reply;
        BeforeBefore(data, [], reply, s.reply, Fetch(s.at, left));
        Seqs.EmptyLeft(data);
      }
    }

    /** Hand m bytes that are ready to the client. */
    method Take(m: nat) returns (piece: seq<Byte>)
      requires Valid() && !isClosed && m <= stop - rdNext
      modifies this`rdNext
      ensures Valid() && rdNext == old(rdNext) + m
      ensures m <= |old(Unread())| && piece == old(Unread())[..m] && |piece| == m
      ensures Abs() == Advance(old(Abs()), m)
    {
      piece := buff[rdNext..rdNext + m];
      assert piece == Unread()[..m];
      Pass(m);
    }

    /** FillBuffProc: called when the client has taken everything; runs to the next content, stop or error. */
    method FillBuffProc()
      requires Valid() && !isClosed && rdNext == stop
      modifies this, buff, req, conn
      ensures Valid() && |Unread()| <= old(|Unread()|)
      ensures eorStop == old(eorStop) && rtype == old(rtype)
      ensures old(req.begun || eorStop) ==> req.begun == old(req.begun) && (!isClosed ==> rdNext < stop)
      ensures !isClosed ==> errno == old(errno)
      ensures !conn.faulty ==> var s := Settle(old(Abs()));
                StandsAt(s.halt, s.at, s.reply, old(errno), old(conn.sent))
      decreases |Unread()|, 0, 0
    {
      hide Rolling;
      hide Finishing;
      hide StandsAt;
      hide Settle;
      var header: seq<Byte> := [];
      ghost var s0, sent0 := Settle(Abs()), conn.sent;
      RollStarts();
      while true
        invariant InLoop(header) && errno == old(errno)
        invariant |header| + |Unread()| <= old(|Unread()|)
        invariant eorStop == old(eorStop) && rtype == old(rtype) && req.begun == old(req.begun)
        invariant !conn.faulty ==> Rolling(s0, header, sent0)
        decreases |Unread()|
      {
        var ok := RefillOn(header, s0, sent0);
        if !ok {
          return;
        }
        if contentLen > 0 && !skip {
          DeliverOn(header, s0, sent0);
          return;
        }
        var again := DropOn(header, s0, sent0);
        if again {
          continue;
        }
        if eorStop {
          EndOfRecord(header, s0, sent0);
          return;
        }
        header := CopyHeaderOn(header, s0, sent0);
        if |header| < HEADER_LEN {
          continue;
        }
        var done := HeaderOn(header, s0, sent0);
        if done {
          return;
        }
        header := [];
      }
    }

    /** What holds whenever FillBuffProc's loop goes round, the rest of its state being free. */
    ghost predicate InLoop(header: seq<Byte>)
      reads this
    {
      && rdNext <= buffStop <= buff.Length && buff.Length > 0 && !isClosed && |header| < HEADER_LEN
      && (header != [] ==> contentLen == 0 && paddingLen == 0 && !eorStop)
    }

    ghost function HereWith(header: seq<Byte>): Cursor
      requires rdNext <= buffStop <= buff.Length
      reads this, buff, req, conn
    {
      Cursor(StateWith(contentLen), header + Unread())
    }

    /** A call whose outcome will be s0 has come this far, having sent what follows sent0. */
    ghost predicate Rolling(s0: Settled, header: seq<Byte>, sent0: seq<Byte>)
      requires rdNext <= buffStop <= buff.Length
      reads this, buff, req, conn
    {
      sent0 <= conn.sent && s0 == WithReply(conn.sent[|sent0|..], Settle(HereWith(header)))
    }

    ghost predicate Finishing(s0: Settled, header: seq<Byte>, sent0: seq<Byte>)
      requires rdNext <= buffStop <= buff.Length && contentLen == 0
      reads this, buff, req, conn
    {
      sent0 <= conn.sent && s0 == WithReply(conn.sent[|sent0|..], FinishRecord(HereWith(header)))
    }

    lemma RollStarts()
      requires Valid() && !isClosed && rdNext == stop
      ensures InLoop([]) && Rolling(Settle(Abs()), [], conn.sent)
    {
      Seqs.EmptyLeft(Unread());
      Seqs.EmptyLeft(Settle(Abs()).reply);
      assert conn.sent[|conn.sent|..] == [];
    }

    method RefillOn(header: seq<Byte>, ghost s0: Settled, ghost sent0: seq<Byte>) returns (ok: bool)
      requires InLoop(header)
      modifies this`rdNext, this`buffStop, this`errno, this`isClosed, buff, conn`pending
      ensures rdNext <= buffStop <= buff.Length && |Unread()| == old(|Unread()|)
      ensures ok ==> InLoop(header) && rdNext < buffStop && errno == old(errno)
      ensures !ok ==> Valid() && isClosed
      ensures !conn.faulty && old(Rolling(s0, header, sent0)) ==>
                if ok then Rolling(s0, header, sent0)
                else StandsAt(s0.halt, s0.at, s0.reply, old(errno), sent0)
    {
      hide Settle;
      ok := Refill();
      if !ok && !conn.faulty {
        Seqs.EmptyLeft(header);
        RanOut(HereWith(header));
        if old(Rolling(s0, header, sent0)) {
          Seqs.EmptyLeft(conn.sent[|sent0|..]);
          assert s0 == WithReply(conn.sent[|sent0|..], Failed(PROTOCOL_ERROR, StateWith(contentLen)));
          assert conn.sent == sent0 + conn.sent[|sent0|..];
        }
      }
    }

    method DeliverOn(header: seq<Byte>, ghost s0: Settled, ghost sent0: seq<Byte>)
      requires InLoop(header) && rdNext < buffStop && contentLen > 0 && !skip
      modifies this`contentLen, this`stop
      ensures Valid() && !isClosed && rdNext < stop
      ensures old(Rolling(s0, header, sent0)) ==> StandsAt(s0.halt, s0.at, s0.reply, errno, sent0)
    {
      Seqs.EmptyLeft(Unread());
      assert Settle(Here()) == Settled(Content, Here(), []);
      Seqs.EmptyLeft(conn.sent[if |sent0| <= |conn.sent| then |sent0| else 0..]);
      Deliver();
    }

    method DropOn(header: seq<Byte>, ghost s0: Settled, ghost sent0: seq<Byte>) returns (again: bool)
      requires InLoop(header) && rdNext < buffStop && (contentLen > 0 ==> skip)
      modifies this`rdNext, this`skip, this`contentLen, this`paddingLen
      ensures InLoop(header) && old(rdNext) <= rdNext
      ensures |Unread()| == old(|Unread()|) - (rdNext - old(rdNext))
      ensures again ==> rdNext == buffStop
      ensures !again ==> contentLen == 0 && paddingLen == 0
      ensures rdNext == old(rdNext) || header == []
      ensures old(Rolling(s0, header, sent0)) ==>
                if again then Rolling(s0, header, sent0) else Finishing(s0, header, sent0)
    {
      hide Settle;
      hide FinishRecord;
      SettleFinishes(HereWith(header));
      Seqs.EmptyLeft(Unread());
      again := DropContent();
      if !again {
        again := DropPadding();
      }
      Seqs.EmptyLeft(Unread());
      if again {
        SettleFinishes(HereWith(header));
      }
    }

    method EndOfRecord(header: seq<Byte>, ghost s0: Settled, ghost sent0: seq<Byte>)
      requires InLoop(header) && contentLen == 0 && paddingLen == 0 && eorStop
      modifies this`stop, this`isClosed
      ensures Valid() && isClosed
      ensures old(Finishing(s0, header, sent0)) ==> StandsAt(s0.halt, s0.at, s0.reply, errno, sent0)
    {
      Seqs.EmptyLeft(Unread());
      assert FinishRecord(Here()) == Settled(Eof, Here(), []);
      Seqs.EmptyLeft(conn.sent[if |sent0| <= |conn.sent| then |sent0| else 0..]);
      stop := rdNext;
      isClosed := true;
    }

    method CopyHeaderOn(header: seq<Byte>, ghost s0: Settled, ghost sent0: seq<Byte>) returns (header': seq<Byte>)
      requires InLoop(header) && contentLen == 0 && paddingLen == 0 && !eorStop
      modifies this`rdNext
      ensures old(rdNext) <= rdNext <= buffStop && |header'| <= HEADER_LEN
      ensures old(rdNext) < old(buffStop) ==> old(rdNext) < rdNext
      ensures |header'| + |Unread()| == |header| + old(|Unread()|)
      ensures |header'| < HEADER_LEN ==> InLoop(header')
      ensures old(Finishing(s0, header, sent0)) ==> Finishing(s0, header', sent0) && Rolling(s0, header', sent0)
    {
      hide Settle;
      hide FinishRecord;
      SettleFinishes(HereWith(header));
      header' := CopyHeader(header);
    }

    /** FillBuffProc's last part: interpret a whole header and either return or go round. */
    method HeaderOn(header: seq<Byte>, ghost s0: Settled, ghost sent0: seq<Byte>) returns (done: bool)
      requires rdNext <= buffStop <= buff.Length && buff.Length > 0 && !isClosed && |header| == HEADER_LEN
      requires contentLen == 0 && paddingLen == 0 && !eorStop
      modifies this, buff, req, conn
      ensures rdNext <= buffStop <= buff.Length && |Unread()| <= old(|Unread()|)
      ensures rtype == old(rtype) && !eorStop
      ensures done ==> Valid() && (!isClosed ==> errno == old(errno) && !old(req.begun))
      ensures isClosed || !done ==> req.begun == old(req.begun)
      ensures !done ==> InLoop([]) && errno == old(errno)
      ensures !conn.faulty && old(Finishing(s0, header, sent0)) ==>
                if done then StandsAt(s0.halt, s0.at, s0.reply, old(errno), sent0) else Rolling(s0, [], sent0)
      decreases |Unread()|, 4
    {
      hide StandsAt;
      hide Interpret;
      hide Classify;
      hide AfterHeader;
      hide FinishRecord;
      ghost var st, bytes := StateWith(0), Unread();
      FinishAtHeader(st, header, bytes);
      eorStop := true;
      stop := rdNext;
      var status := ProcessHeader(header);
      eorStop := false;
      isClosed := false;
      done := Act(status, ParseHeader(header), st, bytes, old(errno), old(conn.sent), s0, sent0);
    }

    /** The call's outcome s0 is what is sent already and what the header leads to. */
    static ghost predicate Awaits(h: Header, st: State, bytes: seq<Byte>, sent1: seq<Byte>, s0: Settled, sent0: seq<Byte>)
      requires !st.eorStop
    {
      sent0 <= sent1 && s0 == WithReply(sent1[|sent0|..], Interpret(h, st, bytes))
    }

    /** A record of this stream: its content comes next, or the stream ends. */
    method ActStream(ghost h: Header, ghost st: State, ghost bytes: seq<Byte>, ghost errno0: int,
                     ghost sent1: seq<Byte>, ghost s0: Settled, ghost sent0: seq<Byte>) returns (done: bool)
      requires rdNext <= buffStop <= buff.Length && buff.Length > 0 && !isClosed && !eorStop && !st.eorStop
      modifies this`stop, this`isClosed
      ensures if done then Valid() && isClosed else InLoop([])
      ensures old(Processed(h, st, bytes, STREAM_RECORD, errno0, sent1)) && Awaits(h, st, bytes, sent1, s0, sent0) ==>
                if done then StandsAt(s0.halt, s0.at, s0.reply, errno0, sent0) else Rolling(s0, [], sent0)
    {
      hide Settle;
      hide Classify;
      hide Interpret;
      hide WithReply;
      hide AfterHeader;
      Outcome(h, st, bytes, sent1[Min(|sent0|, |sent1|)..]);
      Seqs.EmptyLeft(sent1);
      if contentLen == 0 {
        stop := rdNext;
        isClosed := true;
        return true;
      }
      Seqs.EmptyLeft(Unread());
      return false;
    }

    /** A record to be skipped, perhaps with a reply sent. */
    method ActSkip(ghost h: Header, ghost st: State, ghost bytes: seq<Byte>, ghost errno0: int,
                   ghost sent1: seq<Byte>, ghost s0: Settled, ghost sent0: seq<Byte>)
      requires rdNext <= buffStop <= buff.Length && buff.Length > 0 && !isClosed && !eorStop && !st.eorStop
      modifies this`skip
      ensures InLoop([])
      ensures old(Processed(h, st, bytes, SKIP, errno0, sent1)) && Awaits(h, st, bytes, sent1, s0, sent0) ==>
                Rolling(s0, [], sent0)
    {
      hide Settle;
      hide Classify;
      hide Interpret;
      hide WithReply;
      hide AfterHeader;
      Outcome(h, st, bytes, sent1[Min(|sent0|, |sent1|)..]);
      SentOn(sent0, sent1, ReplyOf(Classify(h, st, bytes)));
      Seqs.EmptyLeft(Unread());
      skip := true;
    }

    /** An error. */
    method ActError(status: int, ghost h: Header, ghost st: State, ghost bytes: seq<Byte>, ghost errno0: int,
                    ghost sent1: seq<Byte>, ghost s0: Settled, ghost sent0: seq<Byte>)
      requires rdNext <= buffStop <= buff.Length && buff.Length > 0 && !isClosed && !eorStop && !st.eorStop
      requires status != STREAM_RECORD && status != SKIP && status != BEGIN_RECORD
      modifies this`isClosed, this`errno
      ensures Valid() && isClosed
      ensures old(Processed(h, st, bytes, status, errno0, sent1)) && Awaits(h, st, bytes, sent1, s0, sent0) ==>
                StandsAt(s0.halt, s0.at, s0.reply, errno0, sent0)
    {
      hide Settle;
      hide Classify;
      hide Interpret;
      hide WithReply;
      hide AfterHeader;
      Outcome(h, st, bytes, sent1[Min(|sent0|, |sent1|)..]);
      Seqs.EmptyLeft(sent1);
      SetError(status);
    }

    /** FillBuffProc's switch on ProcessHeader's status. */
    method Act(status: int, ghost h: Header, ghost st: State, ghost bytes: seq<Byte>, ghost errno0: int,
               ghost sent1: seq<Byte>, ghost s0: Settled, ghost sent0: seq<Byte>) returns (done: bool)
      requires rdNext <= buffStop <= buff.Length && buff.Length > 0 && !isClosed && !eorStop && !st.eorStop
      requires status == BEGIN_RECORD ==> Valid()
      modifies this`skip, this`stop, this`isClosed, this`errno
      ensures done ==> Valid() && (!isClosed ==> errno == old(errno) && status == BEGIN_RECORD)
      ensures !done ==> InLoop([]) && errno == old(errno) && (status == STREAM_RECORD || status == SKIP)
      ensures isClosed ==> status != BEGIN_RECORD
      ensures old(Processed(h, st, bytes, status, errno0, sent1)) && Awaits(h, st, bytes, sent1, s0, sent0) ==>
                if done then StandsAt(s0.halt, s0.at, s0.reply, errno0, sent0) else Rolling(s0, [], sent0)
    {
      hide Settle;
      hide Classify;
      hide Interpret;
      hide WithReply;
      hide AfterHeader;
      if status == STREAM_RECORD {
        done := ActStream(h, st, bytes, errno0, sent1, s0, sent0);
      } else if status == SKIP {
        ActSkip(h, st, bytes, errno0, sent1, s0, sent0);
        done := false;
      } else if status == BEGIN_RECORD {
        Outcome(h, st, bytes, sent1[Min(|sent0|, |sent1|)..]);
        Seqs.EmptyLeft(sent1);
        done := true;
      } else {
        ActError(status, h, st, bytes, errno0, sent1, s0, sent0);
        done := true;
      }
    }

    /** ProcessHeader. */
    method ProcessHeader(header: seq<Byte>) returns (status: int)
      requires |header| == HEADER_LEN
      requires Valid() && !isClosed && rdNext == stop && eorStop && contentLen == 0 && paddingLen == 0
      modifies this, buff, req, conn
      ensures rdNext <= buffStop <= buff.Length && |Unread()| <= old(|Unread()|) && rtype == old(rtype)
      ensures status >= 0 ==> errno == old(errno)
      ensures status == BEGIN_RECORD ==> Valid() && !isClosed && !old(req.begun)
      ensures status != BEGIN_RECORD ==> req.begun == old(req.begun)
      ensures !conn.faulty ==> Processed(ParseHeader(header), old(StateWith(0).(eorStop := false)), old(Unread()),
                                         status, old(errno), old(conn.sent))
      decreases |Unread()|, 3
    {
      var h := ParseHeader(header);
      Seqs.EmptyLeft(conn.sent);
      if h.version != 1 {
        return UNSUPPORTED_VERSION;
      }
      contentLen, paddingLen := h.contentLen, h.paddingLen;
      if h.rtype == BEGIN_REQUEST {
        status := ProcessBeginRecord(h, h.id);
        return;
      }
      if h.id == 0 {
        return MANAGEMENT;
      }
      if h.id != req.requestId {
        return SKIP;
      }
      if h.rtype != rtype {
        return PROTOCOL_ERROR;
      }
      return STREAM_RECORD;
    }

    /** ProcessHeader's result when the header means v to the reader. */
    static function StatusOf(v: Verdict): int {
      match v
      case StreamRecord => STREAM_RECORD
      case SkipRecord(_) => SKIP
      case BeginRecord => BEGIN_RECORD
      case Refuse(code) => code
    }

    static function ReplyOf(v: Verdict): seq<Byte> {
      if v.SkipRecord? then v.reply else []
    }

    /** What ProcessHeader leaves behind, for a stream that stood at st with these bytes ahead. */
    ghost predicate Processed(h: Header, st: State, bytes: seq<Byte>, status: int, errno0: int, sent0: seq<Byte>)
      requires rdNext <= buffStop <= buff.Length
      reads this, buff, req, conn
    {
      var v := Classify(h, st, bytes);
      && status == StatusOf(v)
      && conn.sent == sent0 + ReplyOf(v)
      && if v.Refuse? then
           req.requestId == IdAfter(h, st) && req.begun == st.begun && (errno == errno0 || (errno0 == 0 && errno == v.code))
         else
           && Cursor(StateWith(contentLen).(eorStop := false), Unread()) == AfterHeader(h, st, bytes)
           && errno == errno0
           && (v.BeginRecord? ==> rdNext == stop)
    }

    /** ProcessBeginRecord, on a header already known to be a version 1 begin record. */
    method ProcessBeginRecord(ghost h: Header, requestId: RequestId) returns (status: int)
      requires Valid() && !isClosed && rdNext == stop && eorStop
      requires h == Header(1, BEGIN_REQUEST, requestId, contentLen, paddingLen, h.reserved)
      modifies this, buff, req, conn
      ensures rdNext <= buffStop <= buff.Length && |Unread()| <= old(|Unread()|)
      ensures status >= 0 ==> errno == old(errno)
      ensures rtype == old(rtype)
      ensures status == BEGIN_RECORD ==> Valid() && !isClosed && !old(req.begun)
      ensures status != BEGIN_RECORD ==> req.begun == old(req.begun)
      ensures !conn.faulty ==>
                Processed(h, old(StateWith(0).(eorStop := false, paddingLen := 0)), old(Unread()), status, old(errno), old(conn.sent))
      decreases |Unread()|, 2
    {
      if requestId == 0 || contentLen != BEGIN_BODY_LEN {
        return PROTOCOL_ERROR;
      }
      if req.begun {
        var ok := conn.WriteAll(Encode(EndRequest(requestId, 0, CANT_MPX_CONN)));
        if !ok {
          SetError(1);
          return -1;
        }
        return SKIP;
      }
      req.requestId := requestId;
      hide Fetch;
      ghost var c := Abs();
      var body := GetStr(BEGIN_BODY_LEN);
      BeginBody(c);
      if |body| != BEGIN_BODY_LEN {
        return PROTOCOL_ERROR;
      }
      req.keep := body[2] % 2 == 1;
      req.role := U16(body[0], body[1]);
      req.begun := true;
      return BEGIN_RECORD;
    }
  }

  lemma SentOn(sent0: seq<Byte>, sent1: seq<Byte>, more: seq<Byte>)
    ensures sent0 <= sent1 ==> sent0 <= sent1 + more && (sent1 + more)[|sent0|..] == sent1[|sent0|..] + more
  {
  }

  lemma BeforeNothing(f: Fetched)
    ensures Before([], [], f) == f
  {
    Seqs.EmptyLeft(f.data);
    Seqs.EmptyLeft(f.reply);
  }

  /** Settling first is what a read does anyway. */
  lemma FetchSettled(c: Cursor, n: nat)
    requires n > 0
    ensures var s := Settle(c);
            Fetch(c, n) == if s.halt.Content? then Before([], s.reply, Fetch(s.at, n)) else Fetched([], s.at, s.halt, s.reply)
  {
    if Settle(c).halt.Content? {
      FetchSettle(c, n);
    }
  }

  /** The outcome of a header, case by case, with what had been replied before it. */
  lemma Outcome(h: Header, st: State, bytes: seq<Byte>, reply: seq<Byte>)
    requires !st.eorStop
    ensures var s := WithReply(reply, Interpret(h, st, bytes));
            var at := AfterHeader(h, st, bytes);
            match Classify(h, st, bytes)
            case Refuse(code) =>
              s.halt == Fail(code) && s.reply == reply && s.at.st.requestId == IdAfter(h, st) && s.at.st.begun == st.begun
            case StreamRecord => s == if at.st.contentLen == 0 then Settled(Eof, at, reply) else WithReply(reply, Settle(at))
            case SkipRecord(more) => s == WithReply(reply + more, Settle(Cursor(at.st.(skip := true), at.bytes)))
            case BeginRecord => s == Settled(Begin, at, reply)
  {
    Seqs.EmptyLeft(reply);
    var v := Classify(h, st, bytes);
    if v.SkipRecord? {
      var at := AfterHeader(h, st, bytes);
      Seqs.Assoc(reply, v.reply, Settle(Cursor(at.st.(skip := true), at.bytes)).reply);
    }
  }

  lemma RanOut(c: Cursor)
    requires c.bytes == [] || (|c.bytes| < HEADER_LEN && c.st.contentLen == 0 && c.st.paddingLen == 0 && !c.st.eorStop)
    ensures Settle(c) == Failed(PROTOCOL_ERROR, c.st)
  {
  }

  /** Reading a begin record's body under the end-of-record stop. */
  lemma BeginBody(c: Cursor)
    requires c.st.eorStop && c.st.contentLen == BEGIN_BODY_LEN
    ensures var f := Fetch(c, BEGIN_BODY_LEN);
            && f.reply == [] && f.at.st.requestId == c.st.requestId && f.at.st.begun == c.st.begun
            && (if c.st.skip || |c.bytes| < BEGIN_BODY_LEN then
                  |f.data| < BEGIN_BODY_LEN && (f.halt.Eof? || f.halt == Fail(PROTOCOL_ERROR))
                else
                  f == Fetched(c.bytes[..BEGIN_BODY_LEN], Advance(c, BEGIN_BODY_LEN), Content, []))
  {
    hide Interpret;
    if c.bytes != [] && !c.st.skip {
      var k := Min(BEGIN_BODY_LEN, |c.bytes|);
      FetchPiece(c, BEGIN_BODY_LEN, k);
      if k < BEGIN_BODY_LEN {
        assert Fetch(Advance(c, k), BEGIN_BODY_LEN - k).halt == Fail(PROTOCOL_ERROR);
      } else {
        Seqs.EmptyLeft(c.bytes[..k]);
      }
    } else {
      assert Settle(c).halt.Eof? || Settle(c).halt == Fail(PROTOCOL_ERROR);
    }
  }

  const EOF := -1

  const STREAM_RECORD := 0
  const SKIP := 1
  const BEGIN_RECORD := 2
}
