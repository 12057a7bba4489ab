/** One request of libfcgi with its three streams in use at once: `in` is read while `out` and `err` are written. */
module RequestRuns {
  import opened Bytes
  import opened Records
  import opened Descriptors
  import opened ReaderSpec
  import opened ReaderTheorems
  import opened StreamReader
  import opened StreamWriter
  import RC = ReaderClient
  import RW = RequestWriters
  import Seqs

  // ---------- What the reader sends ----------

  /** Refusals of second begin records. */
  ghost predicate Refusals(rs: seq<Record>) {
    AllValid(rs) && forall i :: 0 <= i < |rs| ==> rs[i] == EndRequest(rs[i].id, 0, CANT_MPX_CONN)
  }

  lemma {:induction false} SettleReplies(c: Cursor) returns (rs: seq<Record>)
    ensures Refusals(rs) && Settle(c).reply == EncodeAll(rs)
    decreases |c.bytes|, 1
  {
    if c.bytes == [] || (c.st.contentLen > 0 && !c.st.skip) {
      rs := [];
    } else {
      rs := FinishReplies(c);
    }
  }

  lemma {:induction false} FinishReplies(c: Cursor) returns (rs: seq<Record>)
    requires c.st.contentLen > 0 ==> c.st.skip
    ensures Refusals(rs) && FinishRecord(c).reply == EncodeAll(rs)
    decreases |c.bytes|, 0
  {
    hide Interpret;
    rs := [];
    var left := c.st.contentLen + c.st.paddingLen;
    if left + HEADER_LEN <= |c.bytes| && !c.st.eorStop {
      var st := c.st.(contentLen := 0, paddingLen := 0, skip := c.st.skip && c.st.contentLen == 0);
      var bytes := c.bytes[left..];
      rs := InterpretReplies(ParseHeader(bytes), st, bytes[HEADER_LEN..]);
    }
  }

  lemma {:induction false} InterpretReplies(h: Header, st: State, bytes: seq<Byte>) returns (rs: seq<Record>)
    requires !st.eorStop
    ensures Refusals(rs) && Interpret(h, st, bytes).reply == EncodeAll(rs)
    decreases |bytes|, 2
  {
    hide Settle;
    hide Encode;
    var at := AfterHeader(h, st, bytes);
    var v := Classify(h, st, bytes);
    rs := [];
    if v.StreamRecord? && h.contentLen > 0 {
      rs := SettleReplies(at);
    } else if v.SkipRecord? {
      var more := SettleReplies(Cursor(at.st.(skip := true), bytes));
      rs := if v.reply == [] then more else [EndRequest(h.id, 0, CANT_MPX_CONN)] + more;
      if v.reply == [] {
        Seqs.EmptyLeft(EncodeAll(more));
      } else {
        EncodeAllAppend([EndRequest(h.id, 0, CANT_MPX_CONN)], more);
        EncodeAllOne(EndRequest(h.id, 0, CANT_MPX_CONN));
      }
    }
  }

  lemma {:induction false} FetchReplies(c: Cursor, n: nat) returns (rs: seq<Record>)
    ensures Refusals(rs) && Fetch(c, n).reply == EncodeAll(rs)
    decreases |c.bytes|, n
  {
    hide Settle;
    hide EncodeAll;
    if n == 0 {
      rs := [];
      NothingEncoded();
    } else {
      rs := SettleReplies(c);
      var s := Settle(c);
      if s.halt.Content? {
        var k := Min(n, Min(s.at.st.contentLen, |s.at.bytes|));
        var more := FetchReplies(Advance(s.at, k), n - k);
        EncodeAllAppend(rs, more);
        rs := rs + more;
      }
    }
  }

  // ---------- Calls ----------

  datatype Call = Writing(write: RW.Call) | Reading(read: RC.Call)

  /** The calls on the writers. */
  function Writes(calls: seq<Call>): seq<RW.Call> {
    if calls == [] then []
    else
      var c := calls[|calls| - 1];
      Writes(calls[..|calls| - 1]) + (if c.Writing? then [c.write] else [])
  }

  /** Both writers have been closed. */
  predicate Ended(calls: seq<RW.Call>) {
    RW.PutTo(calls, false).1 && RW.PutTo(calls, true).1
  }

  /** What the reading calls of a run do, from the bytes and the calls alone; late is what they send once both writers are closed. */
  datatype Course = Course(open: bool, at: Cursor, data: seq<Byte>, replied: seq<Byte>, late: seq<Byte>)

  function AfterRead(k: Course, n: nat, ended: bool): Course {
    if !k.open then k
    else
      var f := Fetch(k.at, n);
      Course(f.halt.Content?, f.at, k.data + f.data, k.replied + f.reply, if ended then k.late + f.reply else k.late)
  }

  function CourseOf(c: Cursor, calls: seq<Call>): Course {
    if calls == [] then Course(true, c, [], [], [])
    else
      var front, last := calls[..|calls| - 1], calls[|calls| - 1];
      var k := CourseOf(c, front);
      if last.Writing? then k else AfterRead(k, RC.Asked(last.read), Ended(Writes(front)))
  }

  lemma CallsNext(c: Cursor, calls: seq<Call>, i: nat)
    requires i < |calls|
    ensures Writes(calls[..i + 1]) == Writes(calls[..i]) + (if calls[i].Writing? then [calls[i].write] else [])
    ensures var k := CourseOf(c, calls[..i]);
            CourseOf(c, calls[..i + 1])
            == if calls[i].Writing? then k else AfterRead(k, RC.Asked(calls[i].read), Ended(Writes(calls[..i])))
  {
    assert calls[..i + 1][..i] == calls[..i];
  }

  /** The data read is that of the stream, from the front, and all of it once a call came up short. */
  lemma {:induction false} CourseReads(c: Cursor, calls: seq<Call>)
    ensures var k, d := CourseOf(c, calls), Drain(c);
            if !k.open then k.data == d.data
            else |k.data| <= |d.data| && k.data == d.data[..|k.data|] && Drain(k.at) == d.(data := d.data[|k.data|..])
  {
    hide Drain;
    hide Fetch;
    var d := Drain(c);
    if calls == [] {
      Seqs.TakeAll(d.data);
    } else {
      var front, last := calls[..|calls| - 1], calls[|calls| - 1];
      var k := CourseOf(c, front);
      CourseReads(c, front);
      if last.Reading? && k.open {
        var n := RC.Asked(last.read);
        FetchTakesFromDrain(k.at, n);
        FetchStops(k.at, n);
        ReadOnward(d, k.data, n);
      }
    }
  }

  /** A read that comes up short stops for a reason. */
  lemma FetchStops(c: Cursor, n: nat)
    ensures n > |Drain(c).data| ==> !Fetch(c, n).halt.Content?
  {
    hide Drain;
    FetchTakesFromDrain(c, n);
  }

  lemma ReadOnward(d: Drained, out: seq<Byte>, n: nat)
    requires |out| <= |d.data| && out == d.data[..|out|]
    ensures n <= |d.data| - |out| ==>
              out + d.data[|out|..][..n] == d.data[..|out| + n] && d.data[|out|..][n..] == d.data[|out| + n..]
    ensures out + d.data[|out|..] == d.data
  {
    if n <= |d.data| - |out| {
      Seqs.DropDrop(d.data, |out|, n);
    }
  }

  // ---------- Where the end-request record stands ----------

  /** Before both writers are closed nothing is late; then the end-request record is last until something late follows it. */
  ghost predicate EndPlaced(wire: seq<Sent>, ended: bool, end: Record, late: seq<Byte>) {
    if !ended then late == []
    else wire != [] && if late == [] then wire[|wire| - 1] == Sent(end, false) else wire[|wire| - 1].reply
  }

  lemma PlacedRead(wire: seq<Sent>, ended: bool, end: Record, late: seq<Byte>, rs: seq<Record>)
    requires EndPlaced(wire, ended, end, late) && AllValid(rs)
    ensures EndPlaced(wire + Tagged(rs, true), ended, end, if ended then late + EncodeAll(rs) else late)
  {
    if rs == [] {
      Seqs.EmptyLeft(wire);
      Seqs.EmptyLeft(late);
    } else {
      assert Tagged(rs, true)[|rs| - 1] == Sent(rs[|rs| - 1], true);
    }
  }

  lemma {:induction false} SentByGrows(wire0: seq<Sent>, wire: seq<Sent>, reply: bool)
    requires wire0 <= wire
    ensures |SentBy(wire0, reply)| <= |SentBy(wire, reply)|
    decreases |wire|
  {
    if |wire0| < |wire| {
      SentByGrows(wire0, wire[..|wire| - 1], reply);
    } else {
      assert wire0 == wire;
    }
  }

  /** If the writers alone have sent something since, their last record is the last on the descriptor. */
  lemma WriterLast(wire0: seq<Sent>, wire: seq<Sent>)
    requires wire0 <= wire && SentBy(wire0, true) == SentBy(wire, true) && SentBy(wire0, false) != SentBy(wire, false)
    ensures wire != [] && SentBy(wire, false) != []
    ensures wire[|wire| - 1] == Sent(SentBy(wire, false)[|SentBy(wire, false)| - 1], false)
  {
    assert wire0 != wire;
    SentByGrows(wire0, wire[..|wire| - 1], true);
  }

  lemma {:induction false} OfTypeLast(log: seq<Record>, t: Byte)
    requires log != [] && log[|log| - 1].rtype == t
    ensures RW.OfType(log, t) != []
  {
  }

  lemma InvWire(w: Writer, o: Writer, pw: seq<Byte>, po: seq<Byte>)
    requires RW.Inv(w, o, pw, po)
    ensures w.req == o.req && SentBy(w.req.wire, false) == w.req.log && SentBy(w.req.wire, true) == w.req.replies
    ensures RW.EndOk(w.req.log, !w.isClosed || !o.isClosed, w.req.requestId, w.req.endStatus)
  {
  }

  function EndRecord(id: RequestId, status: int): Record {
    EndRequest(id, status, REQUEST_COMPLETE)
  }

  /** A step of the writers keeps the end-request record in its place, or puts it there. */
  lemma PlacedWrite(wire0: seq<Sent>, wire: seq<Sent>, log0: seq<Record>, log: seq<Record>, id: RequestId,
                    status0: int, status: int, ended0: bool, ended: bool, late: seq<Byte>)
    requires EndPlaced(wire0, ended0, EndRecord(id, status0), late) && wire0 <= wire && (ended0 ==> ended)
    requires SentBy(wire0, true) == SentBy(wire, true) && SentBy(wire0, false) == log0 && SentBy(wire, false) == log
    requires RW.EndOk(log0, !ended0, id, status0) && RW.EndOk(log, !ended, id, status)
    requires ended0 ==> wire == wire0 && status == status0
    ensures EndPlaced(wire, ended, EndRecord(id, status), late)
  {
    hide RW.OfType;
    hide SentBy;
    if !ended0 && ended {
      OfTypeLast(log, END_REQUEST);
      WriterLast(wire0, wire);
    }
  }

  // ---------- Reading between writes ----------

  /** The stream stands where the course has come to. */
  ghost predicate Follows(s: InStream, k: Course)
    reads s, s.buff, s.req, s.conn`pending
  {
    && s.Valid() && s.req.begun && !s.eorStop && !s.conn.faulty
    && (k.open <==> !s.isClosed) && (k.open ==> s.Abs() == k.at)
  }

  /** One reading call; what it sends are refusals. */
  method ReadCall(s: InStream, call: RC.Call, ghost k: Course, ghost ended: bool)
    returns (data: seq<Byte>, ghost rs: seq<Record>)
    requires Follows(s, k)
    modifies s, s.buff, s.req, s.conn
    ensures Refusals(rs) && s.conn.sent == old(s.conn.sent) + EncodeAll(rs)
    ensures var k' := AfterRead(k, RC.Asked(call), ended);
            && Follows(s, k') && k'.data == k.data + data && k'.replied == k.replied + EncodeAll(rs)
            && k'.late == (if ended then k.late + EncodeAll(rs) else k.late)
  {
    hide Drain;
    hide Fetch;
    hide EncodeAll;
    rs := [];
    NothingEncoded();
    Seqs.EmptyLeft(s.conn.sent);
    Seqs.EmptyLeft(k.data);
    Seqs.EmptyLeft(k.replied);
    Seqs.EmptyLeft(k.late);
    if s.isClosed {
      if call.CallGetChar? {
        var c := s.GetChar();
        assert c == EOF;
        data := [];
      } else {
        data := s.GetStr(call.n);
      }
      return;
    }
    rs := FetchReplies(s.Abs(), RC.Asked(call));
    data := RC.ReadOne(s, call);
  }

  /** Reading leaves the writers alone, and its replies follow what is on the descriptor. */
  method ReadBetween(s: InStream, call: RC.Call, ghost k: Course, ghost ended: bool,
                     w: Writer, o: Writer, ghost pw: seq<Byte>, ghost po: seq<Byte>)
    returns (data: seq<Byte>, ghost rs: seq<Record>)
    requires Follows(s, k) && RW.Inv(w, o, pw, po) && s.conn == w.req.conn
    requires s.buff != w.buff && s.buff != o.buff
    modifies s, s.buff, s.req, s.conn, w.req`wire, w.req`replies
    ensures RW.Inv(w, o, pw, po)
    ensures Refusals(rs) && w.req.replies == old(w.req.replies) + rs && w.req.wire == old(w.req.wire) + Tagged(rs, true)
    ensures var k' := AfterRead(k, RC.Asked(call), ended);
            && Follows(s, k') && k'.data == k.data + data && k'.replied == k.replied + EncodeAll(rs)
            && k'.late == (if ended then k.late + EncodeAll(rs) else k.late)
  {
    hide Follows;
    hide AfterRead;
    hide RW.OfType;
    hide RW.WriterOk;
    hide EncodeAll;
    hide Refusals;
    ghost var sent0 := s.conn.sent;
    data, rs := ReadCall(s, call, k, ended);
    RefusalsValid(rs);
    w.req.NoteReplies(rs, sent0);
  }

  lemma RefusalsValid(rs: seq<Record>)
    requires Refusals(rs)
    ensures AllValid(rs)
  {
  }

  // ---------- Whole requests ----------

  /** One more call on a writer, as the summaries see it. */
  lemma SummaryNext(calls: seq<RW.Call>, c: RW.Call, status: int, onErr: bool)
    ensures var (put, closed) := RW.PutTo(calls, onErr);
            RW.PutTo(calls + [c], onErr)
            == if c.onErr != onErr || closed then (put, closed) else (put + RW.Offered(c.op), c.op.OpClose?)
    ensures RW.StatusOf(calls + [c], status)
            == if c.op.OpStatus? && !(RW.PutTo(calls, false).1 && RW.PutTo(calls, true).1) then c.op.status
               else RW.StatusOf(calls, status)
  {
    assert (calls + [c])[..|calls|] == calls;
  }

  ghost predicate Summed(calls: seq<RW.Call>, out: Writer, err: Writer, po: seq<Byte>, pe: seq<Byte>, status: int)
    reads out`isClosed, err`isClosed, out.req`endStatus
  {
    && RW.PutTo(calls, false) == (po, out.isClosed) && RW.PutTo(calls, true) == (pe, err.isClosed)
    && RW.StatusOf(calls, status) == out.req.endStatus
  }

  /** The replies are the course's, and the end-request record is where it says. */
  ghost predicate Placed(req: OutRequest, k: Course, ended: bool)
    reads req
  {
    && Refusals(req.replies) && EncodeAll(req.replies) == k.replied
    && EndPlaced(req.wire, ended, EndRecord(req.requestId, req.endStatus), k.late)
  }

  /** A call on either writer. */
  method WriteCall(out: Writer, err: Writer, c: RW.Call, ghost po: seq<Byte>, ghost pe: seq<Byte>,
                   ghost calls: seq<RW.Call>, ghost status: int, ghost k: Course)
    returns (ghost po': seq<Byte>, ghost pe': seq<Byte>)
    requires RW.Inv(out, err, po, pe) && Summed(calls, out, err, po, pe, status)
    requires Placed(out.req, k, out.isClosed && err.isClosed)
    modifies out, err, out.buff, err.buff, out.req`nWriters, out.req`log, out.req`wire, out.req`appStatus, out.req`endStatus, out.req.conn`sent
    ensures RW.Inv(out, err, po', pe') && Summed(calls + [c], out, err, po', pe', status)
    ensures Placed(out.req, k, out.isClosed && err.isClosed)
  {
    hide RW.Inv;
    hide RW.PutTo;
    hide RW.StatusOf;
    hide RW.EndOk;
    hide EndPlaced;
    hide EndRecord;
    hide Refusals;
    hide EncodeAll;
    SummaryNext(calls, c, status, false);
    SummaryNext(calls, c, status, true);
    InvWire(out, err, po, pe);
    RW.InvSwap(out, err, po, pe);
    ghost var wire0, log0, status0, ended0 := out.req.wire, out.req.log, out.req.endStatus, out.isClosed && err.isClosed;
    po', pe' := po, pe;
    if c.onErr {
      pe' := RW.Apply(err, out, c.op, pe, po);
      RW.InvSwap(err, out, pe', po);
    } else {
      po' := RW.Apply(out, err, c.op, po, pe);
    }
    InvWire(out, err, po', pe');
    PlacedWrite(wire0, out.req.wire, log0, out.req.log, out.req.requestId, status0, out.req.endStatus,
                ended0, out.isClosed && err.isClosed, k.late);
  }

  /** Replies noted, as the course sees it. */
  lemma PlacedReplies(req: OutRequest, wire0: seq<Sent>, replies0: seq<Record>, k: Course, k': Course, ended: bool, rs: seq<Record>)
    requires Refusals(replies0) && EncodeAll(replies0) == k.replied && Refusals(rs)
    requires EndPlaced(wire0, ended, EndRecord(req.requestId, req.endStatus), k.late)
    requires req.replies == replies0 + rs && req.wire == wire0 + Tagged(rs, true)
    requires k'.replied == k.replied + EncodeAll(rs) && k'.late == (if ended then k.late + EncodeAll(rs) else k.late)
    ensures Placed(req, k', ended)
  {
    hide EncodeAll;
    hide EndPlaced;
    EncodeAllAppend(replies0, rs);
    PlacedRead(wire0, ended, EndRecord(req.requestId, req.endStatus), k.late, rs);
  }

  /** A call on any of the three streams. */
  method OneCall(s: InStream, out: Writer, err: Writer, c: Call, ghost k: Course, ghost po: seq<Byte>, ghost pe: seq<Byte>,
                 ghost calls: seq<RW.Call>, ghost status: int)
    returns (data: seq<Byte>, ghost k': Course, ghost po': seq<Byte>, ghost pe': seq<Byte>)
    requires Follows(s, k) && RW.Inv(out, err, po, pe) && Summed(calls, out, err, po, pe, status)
    requires s.conn == out.req.conn && s.buff != out.buff && s.buff != err.buff && Placed(out.req, k, out.isClosed && err.isClosed)
    modifies out, err, out.buff, err.buff, out.req, s, s.buff, s.req, s.conn
    ensures k' == if c.Writing? then k else AfterRead(k, RC.Asked(c.read), Ended(calls))
    ensures Follows(s, k') && k'.data == k.data + data && RW.Inv(out, err, po', pe')
    ensures Summed(calls + (if c.Writing? then [c.write] else []), out, err, po', pe', status)
    ensures Placed(out.req, k', out.isClosed && err.isClosed)
  {
    hide Follows;
    hide AfterRead;
    hide RW.Inv;
    hide RW.PutTo;
    hide RW.StatusOf;
    hide Refusals;
    hide EndPlaced;
    hide EncodeAll;
    data, k', po', pe' := [], k, po, pe;
    Seqs.EmptyLeft(k.data);
    if c.Writing? {
      po', pe' := WriteCall(out, err, c.write, po, pe, calls, status, k);
    } else {
      Seqs.EmptyLeft(calls);
      ghost var wire0, replies0 := out.req.wire, out.req.replies;
      k' := AfterRead(k, RC.Asked(c.read), Ended(calls));
      ghost var rs;
      data, rs := ReadBetween(s, c.read, k, Ended(calls), out, err, po, pe);
      PlacedReplies(out.req, wire0, replies0, k, k', Ended(calls), rs);
    }
  }

  /** Any sequence of calls on the three streams. */
  method RunCalls(s: InStream, out: Writer, err: Writer, calls: seq<Call>, ghost status: int)
    returns (input: seq<Byte>, ghost po: seq<Byte>, ghost pe: seq<Byte>)
    requires RC.Open(s) && s.conn == out.req.conn && s.buff != out.buff && s.buff != err.buff
    requires RW.Inv(out, err, [], []) && Placed(out.req, CourseOf(s.Abs(), []), out.isClosed && err.isClosed)
    requires Summed([], out, err, [], [], status)
    modifies out, err, out.buff, err.buff, out.req, s, s.buff, s.req, s.conn
    ensures var k := CourseOf(old(s.Abs()), calls);
            && Follows(s, k) && input == k.data && RW.Inv(out, err, po, pe)
            && Summed(Writes(calls), out, err, po, pe, status) && Placed(out.req, k, out.isClosed && err.isClosed)
  {
    hide RW.Inv;
    hide Summed;
    hide Placed;
    ghost var c := s.Abs();
    ghost var k := CourseOf(c, []);
    assert Follows(s, k);
    hide Follows;
    input, po, pe := [], [], [];
    var i := 0;
    while i < |calls|
      invariant 0 <= i <= |calls| && k == CourseOf(c, calls[..i]) && input == k.data
      invariant Follows(s, k) && RW.Inv(out, err, po, pe)
      invariant Summed(Writes(calls[..i]), out, err, po, pe, status)
      invariant Placed(out.req, k, out.isClosed && err.isClosed)
    {
      CallsNext(c, calls, i);
      var data;
      data, k, po, pe := OneCall(s, out, err, calls[i], k, po, pe, Writes(calls[..i]), status);
      input := input + data;
      i := i + 1;
    }
    assert calls[..|calls|] == calls;
  }

  /** FCGX_Finish_r with the end-request record in view. */
  method FinishPlaced(out: Writer, err: Writer, ghost po: seq<Byte>, ghost pe: seq<Byte>, ghost k: Course)
    requires RW.Inv(out, err, po, pe) && Placed(out.req, k, out.isClosed && err.isClosed)
    modifies out, err, out.buff, err.buff, out.req`nWriters, out.req`log, out.req`wire, out.req.conn`sent
    ensures RW.Inv(out, err, po, pe) && out.isClosed && err.isClosed && Placed(out.req, k, true)
  {
    hide RW.Inv;
    hide RW.EndOk;
    hide EndPlaced;
    hide EndRecord;
    hide Refusals;
    hide EncodeAll;
    InvWire(out, err, po, pe);
    ghost var wire0, log0, ended0 := out.req.wire, out.req.log, out.isClosed && err.isClosed;
    RW.FinishRequest(out, err, po, pe);
    InvWire(out, err, po, pe);
    PlacedWrite(wire0, out.req.wire, log0, out.req.log, out.req.requestId, out.req.endStatus, out.req.endStatus,
                ended0, true, k.late);
  }

  /** Any sequence of calls, then FCGX_Finish_r. */
  method RunAndFinish(s: InStream, out: Writer, err: Writer, calls: seq<Call>, ghost status: int) returns (input: seq<Byte>)
    requires RC.Open(s) && s.conn == out.req.conn && s.buff != out.buff && s.buff != err.buff
    requires RW.Inv(out, err, [], []) && Placed(out.req, CourseOf(s.Abs(), []), out.isClosed && err.isClosed)
    requires out.wtype == STDOUT && err.wtype == STDERR && Summed([], out, err, [], [], status)
    modifies out, err, out.buff, err.buff, out.req, s, s.buff, s.req, s.conn
    ensures var k := CourseOf(old(s.Abs()), calls);
            && input == k.data && (k.open <==> !s.isClosed)
            && Refusals(out.req.replies) && EncodeAll(out.req.replies) == k.replied
            && AllOf(out.req.wire) != []
            && (AllOf(out.req.wire)[|out.req.wire| - 1] == EndRecord(out.req.requestId, RW.StatusOf(Writes(calls), status))
                <==> k.late == [])
    ensures out.req.Consistent() && EndsWith(out.req.log, out.req.requestId, Writes(calls), status)
  {
    hide RW.Inv;
    hide RW.EndOk;
    hide RW.Finished;
    hide RW.OfType;
    hide RW.PutTo;
    hide RW.StatusOf;
    hide CourseOf;
    hide AllOf;
    hide SentBy;
    hide EncodeAll;
    hide Refusals;
    ghost var c := s.Abs();
    ghost var po, pe;
    input, po, pe := RunCalls(s, out, err, calls, status);
    InvWire(out, err, po, pe);
    FinishPlaced(out, err, po, pe, CourseOf(c, calls));
    RW.InvFinished(out, err, po, pe);
    LastOfAll(out.req.wire, out.req.requestId, out.req.endStatus, CourseOf(c, calls).late);
  }

  /** The writers' records of a finished run of these calls. */
  ghost predicate EndsWith(log: seq<Record>, id: RequestId, calls: seq<RW.Call>, status: int) {
    && RW.Finished(RW.OfType(log, STDOUT), STDOUT, id, RW.PutTo(calls, false).0)
    && RW.Finished(RW.OfType(log, STDERR), STDERR, id, RW.PutTo(calls, true).0)
    && RW.EndOk(log, false, id, RW.StatusOf(calls, status))
  }

  /**
   A request read and written at once, in any order of calls, then finished. Reading returns the input from the front,
   all of it once a call came up short, as if nobody were writing. On the descriptor, apart from refusals
   of second begin records, stand exactly the records a run of the writing calls alone would have sent:
   each stream's data and terminator, and one end-request record with the right status, last of these. The
   refusals are exactly those the reading calls owe, and the end-request record is the last record of
   all if and only if no call made after both writers were closed owed one.
   */
  method RunWhole(req: OutRequest, s: InStream, calls: seq<Call>, alignedOut: bool, alignedErr: bool) returns (input: seq<Byte>)
    requires !req.conn.faulty && req.Consistent() && req.log == [] && req.nWriters == 2 && req.appStatus == req.endStatus
    requires RC.Open(s) && s.conn == req.conn && req.replies == []
    modifies req, s, s.buff, s.req, s.conn
    ensures var k, d := CourseOf(old(s.Abs()), calls), Drain(old(s.Abs()));
            && input == k.data && (k.open <==> !s.isClosed)
            && (if k.open then |input| <= |d.data| && input == d.data[..|input|] else input == d.data)
    ensures req.Consistent() && Refusals(req.replies) && EncodeAll(req.replies) == CourseOf(old(s.Abs()), calls).replied
    ensures RW.Finished(RW.OfType(req.log, STDOUT), STDOUT, req.requestId, RW.PutTo(Writes(calls), false).0)
    ensures RW.Finished(RW.OfType(req.log, STDERR), STDERR, req.requestId, RW.PutTo(Writes(calls), true).0)
    ensures RW.EndOk(req.log, false, req.requestId, RW.StatusOf(Writes(calls), old(req.appStatus)))
    ensures var rs, end := AllOf(req.wire), EndRequest(req.requestId, RW.StatusOf(Writes(calls), old(req.appStatus)), REQUEST_COMPLETE);
            rs != [] && (rs[|rs| - 1] == end <==> CourseOf(old(s.Abs()), calls).late == [])
  {
    hide RW.Inv;
    hide RW.PutTo;
    hide RW.StatusOf;
    hide RW.OfType;
    hide RW.EndOk;
    hide RW.Finished;
    hide Drain;
    hide CourseOf;
    hide AllOf;
    hide SentBy;
    hide EncodeAll;
    hide Refusals;
    ghost var c, status := s.Abs(), req.appStatus;
    var out := new Writer(req, 8192, alignedOut, STDOUT);
    var err := new Writer(req, 512, alignedErr, STDERR);
    RW.InvStarts(out, err);
    NoCalls(status, c);
    CourseReads(c, calls);
    input := RunAndFinish(s, out, err, calls, status);
  }

  /** A refusal is not an end-request record of this request, so the bytes tell which is last. */
  lemma {:induction false} LastOfAll(wire: seq<Sent>, id: RequestId, status: int, late: seq<Byte>)
    requires EndPlaced(wire, true, EndRecord(id, status), late) && Refusals(SentBy(wire, true))
    ensures AllOf(wire) != [] && (AllOf(wire)[|wire| - 1] == EndRecord(id, status) <==> late == [])
  {
    hide Refusals;
    hide SentBy;
    assert AllOf(wire)[|wire| - 1] == wire[|wire| - 1].record;
    if late != [] {
      LastReply(wire, id, status);
    }
  }

  lemma {:induction false} LastReply(wire: seq<Sent>, id: RequestId, status: int)
    requires wire != [] && wire[|wire| - 1].reply && Refusals(SentBy(wire, true))
    ensures wire[|wire| - 1].record != EndRecord(id, status)
  {
    var replies := SentBy(wire, true);
    var r := replies[|replies| - 1];
    assert r == EndRequest(r.id, 0, CANT_MPX_CONN);
    assert r.content[4] == CANT_MPX_CONN;
  }

  lemma NoCalls(status: int, c: Cursor)
    ensures RW.PutTo([], false) == ([], false) && RW.PutTo([], true) == ([], false) && RW.StatusOf([], status) == status
    ensures Writes([]) == [] && CourseOf(c, []) == Course(true, c, [], [], []) && Refusals([]) && EncodeAll([]) == []
  {
  }

  // ---------- The end-request record need not be last ----------

  /** Both writers are closed, and then one byte of input is asked for. */
  function LateRead(): seq<Call> {
    [Writing(RW.Call(false, RW.OpClose)), Writing(RW.Call(true, RW.OpClose)), Reading(RC.CallGetChar)]
  }

  /** A second begin record in front of the end of the input. */
  function SecondBegin(): seq<Record> {
    [Record(BEGIN_REQUEST, 2, Zeros(8), [], 0), Record(STDIN, 1, [], [], 0)]
  }

  lemma LateRefusal(st: State)
    requires Ready(st, 1, STDIN) && st.paddingLen == 0 && !st.skip
    ensures AllValid(SecondBegin())
    ensures CourseOf(Cursor(st, EncodeAll(SecondBegin())), LateRead()).late == Encode(EndRequest(2, 0, CANT_MPX_CONN)) != []
  {
    var c := Cursor(st, EncodeAll(SecondBegin()));
    RefusedOnce(st);
    var calls := LateRead();
    assert calls[..2] == [calls[0], calls[1]];
    assert calls[..2][..1] == [calls[0]];
    assert [calls[0]][..0] == [];
    assert Writes([calls[0]]) == [calls[0].write];
    assert Writes(calls[..2]) == [calls[0].write, calls[1].write];
    ClosedBoth(calls[0].write, calls[1].write);
    assert CourseOf(c, [calls[0]]) == Course(true, c, [], [], []);
    assert CourseOf(c, calls[..2]) == Course(true, c, [], [], []);
    Seqs.EmptyLeft(Encode(EndRequest(2, 0, CANT_MPX_CONN)));
  }

  lemma ClosedBoth(a: RW.Call, b: RW.Call)
    requires a == RW.Call(false, RW.OpClose) && b == RW.Call(true, RW.OpClose)
    ensures Ended([a, b])
  {
    assert [a, b][..1] == [a];
    assert [a][..0] == [];
  }

  /** The empty record ends the input and owes nothing. */
  lemma EndSettles(st: State, end: Record)
    requires Ready(st, 1, STDIN) && st.paddingLen == 0 && !st.skip && end == Record(STDIN, 1, [], [], 0)
    ensures Settle(Cursor(st, Encode(end))).halt.Eof? && Settle(Cursor(st, Encode(end))).reply == []
  {
    hide Encode;
    hide Settle;
    SettleRecord(st, [], end, []);
    Seqs.EmptyLeft(Encode(end));
    Seqs.EmptyLeft(Encode(end) + []);
  }

  /** A second begin record is refused and dropped. */
  lemma BeginSettles(st: State, begin: Record, more: seq<Byte>)
    requires Ready(st, 1, STDIN) && st.paddingLen == 0 && !st.skip && begin == Record(BEGIN_REQUEST, 2, Zeros(8), [], 0) && more != []
    ensures Settle(Cursor(st, Encode(begin) + more))
            == WithReply(Encode(EndRequest(2, 0, CANT_MPX_CONN)), Settle(Cursor(st, more)))
  {
    hide Encode;
    hide Settle;
    SettleRecord(st, [], begin, more);
    Seqs.EmptyLeft(Encode(begin) + more);
    Seqs.EmptyLeft(more);
    SettleDropped(st.(contentLen := 8), begin.content, more);
  }

  lemma RefusedOnce(st: State)
    requires Ready(st, 1, STDIN) && st.paddingLen == 0 && !st.skip
    ensures AllValid(SecondBegin())
    ensures Fetch(Cursor(st, EncodeAll(SecondBegin())), 1).reply == Encode(EndRequest(2, 0, CANT_MPX_CONN))
  {
    hide Encode;
    hide Settle;
    var begin, end := SecondBegin()[0], SecondBegin()[1];
    assert SecondBegin()[1..] == [end];
    EncodeAllOne(end);
    BeginSettles(st, begin, Encode(end));
    EndSettles(st, end);
    Seqs.EmptyLeft(Encode(EndRequest(2, 0, CANT_MPX_CONN)));
  }
}
