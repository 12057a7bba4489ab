/** The two writers of one request, from FCGX_Accept_r to FCGX_Finish_r. */
module RequestWriters {
  import opened Bytes
  import opened Records
  import opened Descriptors
  import opened StreamWriter
  import Seqs

  /** The records of one stream, in the order they were sent. */
  function OfType(log: seq<Record>, t: Byte): seq<Record> {
    if log == [] then []
    else
      var last := log[|log| - 1];
      OfType(log[..|log| - 1], t) + (if last.rtype == t then [last] else [])
  }

  lemma {:induction false} OfTypeAppend(a: seq<Record>, b: seq<Record>, t: Byte)
    ensures OfType(a + b, t) == OfType(a, t) + OfType(b, t)
  {
    if b == [] {
      Seqs.EmptyLeft(a);
      Seqs.EmptyLeft(OfType(a, t));
    } else {
      var b0, last := b[..|b| - 1], b[|b| - 1];
      assert (a + b)[..|a + b| - 1] == a + b0;
      OfTypeAppend(a, b0, t);
      Seqs.Assoc(OfType(a, t), OfType(b0, t), if last.rtype == t then [last] else []);
    }
  }

  lemma {:induction false} OfTypeUniform(rs: seq<Record>, u: Byte, t: Byte)
    requires forall i :: 0 <= i < |rs| ==> rs[i].rtype == u
    ensures OfType(rs, t) == if u == t then rs else []
  {
    if rs != [] {
      OfTypeUniform(rs[..|rs| - 1], u, t);
      assert rs[..|rs| - 1] + [rs[|rs| - 1]] == rs;
      Seqs.EmptyLeft<Record>([]);
    }
  }

  lemma {:induction false} PayloadConcat(a: seq<Record>, b: seq<Record>)
    ensures Payload(a + b) == Payload(a) + Payload(b)
  {
    if b == [] {
      Seqs.EmptyLeft(a);
      Seqs.EmptyLeft(Payload(a));
    } else {
      var b0, last := b[..|b| - 1], b[|b| - 1];
      assert (a + b)[..|a + b| - 1] == a + b0;
      PayloadConcat(a, b0);
      Seqs.Assoc(Payload(a), Payload(b0), last.content);
    }
  }

  lemma {:induction false} DataNonEmpty(rs: seq<Record>, t: Byte, id: RequestId)
    requires AllData(rs, t, id)
    ensures Payload(rs) == [] <==> rs == []
  {
    if rs != [] {
      assert IsData(rs[|rs| - 1], t, id);
    }
  }

  /** A finished stream: data records carrying exactly what was put, then one terminator; nothing for an unused stderr. */
  predicate Finished(rs: seq<Record>, t: Byte, id: RequestId, put: seq<Byte>) {
    if t == STDERR && put == [] then rs == []
    else
      && rs != [] && rs[|rs| - 1] == Terminator(t, id)
      && AllData(rs[..|rs| - 1], t, id) && Payload(rs[..|rs| - 1]) == put
  }

  /** A stream still open: data records and the buffer carry exactly what was put. */
  ghost predicate Underway(w: Writer, rs: seq<Record>, put: seq<Byte>)
    requires w.Live()
    reads w, w.buff
  {
    && AllData(rs, w.wtype, w.req.requestId)
    && Payload(rs) + w.Pending() == put
    && (w.isAnythingWritten <==> rs != [])
  }

  /** Writer w stands right, rs being its records in the log and put what has been put to it. */
  ghost predicate WriterOk(w: Writer, rs: seq<Record>, put: seq<Byte>)
    reads w, w.buff
  {
    && (w.Live() || w.Shut())
    && (w.Live() ==> Underway(w, rs, put))
    && (w.Shut() ==> Finished(rs, w.wtype, w.req.requestId, put))
  }

  /** The end-request record: absent while a writer is open, and then the very last record. */
  ghost predicate EndOk(log: seq<Record>, open: bool, id: RequestId, status: int) {
    if open then OfType(log, END_REQUEST) == []
    else
      && log != [] && OfType(log[..|log| - 1], END_REQUEST) == []
      && log[|log| - 1] == EndRequest(id, status, REQUEST_COMPLETE)
  }

  /** What every operation on the two writers keeps, pw and po being what has been put to each so far. */
  ghost predicate Inv(w: Writer, o: Writer, pw: seq<Byte>, po: seq<Byte>)
    reads w, o, w.buff, o.buff, w.req, o.req, w.req.conn
  {
    && w != o && w.buff != o.buff && w.req == o.req && !w.req.conn.faulty
    && ((w.wtype == STDOUT && o.wtype == STDERR) || (w.wtype == STDERR && o.wtype == STDOUT))
    && w.req.Consistent()
    && WriterOk(w, OfType(w.req.log, w.wtype), pw) && WriterOk(o, OfType(w.req.log, o.wtype), po)
    && w.req.nWriters == (if w.isClosed then 0 else 1) + (if o.isClosed then 0 else 1)
    && EndOk(w.req.log, !w.isClosed || !o.isClosed, w.req.requestId, w.req.endStatus)
    && (!w.isClosed || !o.isClosed ==> w.req.appStatus == w.req.endStatus)
  }

  /** What adding data records of one stream does to the log's three views. */
  lemma DataAdded(log: seq<Record>, log': seq<Record>, t: Byte, id: RequestId)
    requires log <= log' && AllData(log'[|log|..], t, id) && t != END_REQUEST
    ensures OfType(log', t) == OfType(log, t) + log'[|log|..]
    ensures forall u :: u != t ==> OfType(log', u) == OfType(log, u)
  {
    var news := log'[|log|..];
    assert log' == log + news;
    assert forall i :: 0 <= i < |news| ==> IsData(news[i], t, id);
    OfTypeAppend(log, news, t);
    OfTypeUniform(news, t, t);
    forall u | u != t ensures OfType(log', u) == OfType(log, u) {
      OfTypeAppend(log, news, u);
      OfTypeUniform(news, t, u);
      Seqs.EmptyLeft(OfType(log, u));
    }
  }

  lemma UnderwayAfterPut(w: Writer, rs: seq<Record>, log0: seq<Record>, put: seq<Byte>, pending0: seq<Byte>, data: seq<Byte>, anything0: bool)
    requires w.Live() && w.Carried(log0, pending0 + data)
    requires AllData(rs, w.wtype, w.req.requestId) && Payload(rs) + pending0 == put && (anything0 <==> rs != [])
    requires w.isAnythingWritten == (anything0 || w.req.log != log0)
    ensures Underway(w, rs + w.req.log[|log0|..], put + data)
  {
    var news := w.req.log[|log0|..];
    PayloadConcat(rs, news);
    Seqs.Assoc(Payload(rs), Payload(news), w.Pending());
    Seqs.Assoc(Payload(rs), pending0, data);
    assert w.req.log == log0 + news;
  }

  /** Any put or flush on an open writer, the other one being left alone. */
  lemma PutKeepsInv(w: Writer, s0: Snap, put: seq<Byte>, data: seq<Byte>)
    requires w.Valid() && w.Puts(s0, data) && s0.live && !w.req.conn.faulty && w.wtype != END_REQUEST
    requires var rs := OfType(s0.log, w.wtype);
             AllData(rs, w.wtype, w.req.requestId) && Payload(rs) + s0.pending == put && (s0.anything <==> rs != [])
    ensures w.Live() && w.req.Consistent() && WriterOk(w, OfType(w.req.log, w.wtype), put + data)
    ensures forall u :: u != w.wtype ==> OfType(w.req.log, u) == OfType(s0.log, u)
  {
    DataAdded(s0.log, w.req.log, w.wtype, w.req.requestId);
    UnderwayAfterPut(w, OfType(s0.log, w.wtype), s0.log, put, s0.pending, data, s0.anything);
  }

  lemma {:induction false} AppendOne(log: seq<Record>, r: Record, t: Byte)
    ensures OfType(log + [r], t) == OfType(log, t) + (if r.rtype == t then [r] else [])
  {
    assert (log + [r])[..|log|] == log;
  }

  /** What closing a writer does to its own records. */
  lemma CloseFinishes(w: Writer, rs: seq<Record>, pending: seq<Byte>, put: seq<Byte>, unused: bool)
    requires AllData(rs, w.wtype, w.req.requestId) && Payload(rs) + pending == put && |pending| <= 65528
    requires unused <==> rs == [] && pending == []
    ensures Finished(rs + w.DataRecs(pending) + (if w.wtype == STDERR && unused then [] else [Terminator(w.wtype, w.req.requestId)]),
                     w.wtype, w.req.requestId, put)
  {
    var all := rs + w.DataRecs(pending);
    PayloadConcat(rs, w.DataRecs(pending));
    DataNonEmpty(rs, w.wtype, w.req.requestId);
    Seqs.EmptyLeft(Payload(rs));
    if pending != [] {
      PayloadAppend([], DataRecord(w.wtype, w.req.requestId, pending));
      Seqs.EmptyLeft(w.DataRecs(pending));
      Seqs.EmptyLeft(pending);
    }
    assert Payload(all) == put;
    var term := Terminator(w.wtype, w.req.requestId);
    assert (all + [term])[..|all|] == all;
    Seqs.EmptyLeft(all);
  }

  /** The log's views after a close. */
  lemma CloseViews(w: Writer, log: seq<Record>, pending: seq<Byte>, unused: bool, last: bool, status: int, u: Byte)
    requires w.wtype == STDOUT || w.wtype == STDERR
    ensures var term := if w.wtype == STDERR && unused then [] else [Terminator(w.wtype, w.req.requestId)];
            var end := EndRequest(w.req.requestId, status, REQUEST_COMPLETE);
            var body := log + w.DataRecs(pending) + term;
            && log + w.DataRecs(pending) + w.CloseRecs(unused, last, status) == (if last then body + [end] else body)
            && OfType(body, u) == if u == w.wtype then OfType(log, u) + w.DataRecs(pending) + term else OfType(log, u)
  {
    hide OfType;
    var term := if w.wtype == STDERR && unused then [] else [Terminator(w.wtype, w.req.requestId)];
    var end := EndRequest(w.req.requestId, status, REQUEST_COMPLETE);
    var d := w.DataRecs(pending);
    Seqs.Assoc(log + d, term, if last then [end] else []);
    Seqs.EmptyLeft(log + d + term);
    OfTypeAppend(log + d, term, u);
    OfTypeAppend(log, d, u);
    OfTypeUniform(d, w.wtype, u);
    OfTypeUniform(term, w.wtype, u);
    Seqs.EmptyLeft(OfType(log, u));
  }

  /** A close as the three views see it. */
  lemma CloseLog(w: Writer, other: Byte, log: seq<Record>, p: seq<Byte>, pw: seq<Byte>, anything: bool, last: bool, status: int)
    requires (w.wtype == STDOUT && other == STDERR) || (w.wtype == STDERR && other == STDOUT)
    requires var rs := OfType(log, w.wtype);
             AllData(rs, w.wtype, w.req.requestId) && Payload(rs) + p == pw && |p| <= 65528 && (anything <==> rs != [])
    ensures var log' := log + w.DataRecs(p) + w.CloseRecs(p == [] && !anything, last, status);
            var end := EndRequest(w.req.requestId, status, REQUEST_COMPLETE);
            && Finished(OfType(log', w.wtype), w.wtype, w.req.requestId, pw)
            && OfType(log', other) == OfType(log, other)
            && (last ==> log' != [] && log'[|log'| - 1] == end && OfType(log'[..|log'| - 1], END_REQUEST) == OfType(log, END_REQUEST))
            && (!last ==> OfType(log', END_REQUEST) == OfType(log, END_REQUEST))
  {
    hide OfType;
    hide Finished;
    var unused := p == [] && !anything;
    var end := EndRequest(w.req.requestId, status, REQUEST_COMPLETE);
    CloseFinishes(w, OfType(log, w.wtype), p, pw, unused);
    CloseViews(w, log, p, unused, last, status, w.wtype);
    CloseViews(w, log, p, unused, last, status, other);
    CloseViews(w, log, p, unused, last, status, END_REQUEST);
    if last {
      var log' := log + w.DataRecs(p) + w.CloseRecs(unused, last, status);
      var body := log'[..|log'| - 1];
      AppendOne(body, end, w.wtype);
      AppendOne(body, end, other);
      Seqs.EmptyLeft(OfType(body, w.wtype));
      Seqs.EmptyLeft(OfType(body, other));
    }
  }

  datatype Op = OpPut(data: seq<Byte>) | OpPutChar(c: Byte) | OpFlush | OpClose | OpStatus(status: int)

  function Offered(op: Op): seq<Byte> {
    match op
    case OpPut(data) => data
    case OpPutChar(c) => [c]
    case _ => []
  }

  /** FCGX_FClose on one writer, as the log sees it. */
  method CloseOne(w: Writer, other: Byte, ghost pw: seq<Byte>)
    requires (w.wtype == STDOUT && other == STDERR) || (w.wtype == STDERR && other == STDOUT)
    requires !w.req.conn.faulty && w.req.Consistent() && WriterOk(w, OfType(w.req.log, w.wtype), pw)
    modifies w, w.buff, w.req`nWriters, w.req`log, w.req`wire, w.req.conn`sent
    ensures old(w.req.wire) <= w.req.wire
    ensures w.req.Consistent() && WriterOk(w, OfType(w.req.log, w.wtype), pw) && w.isClosed
    ensures OfType(w.req.log, other) == OfType(old(w.req.log), other)
    ensures w.req.nWriters == old(w.req.nWriters) - (if old(w.isClosed) then 0 else 1)
    ensures old(w.isClosed) ==> w.req.log == old(w.req.log) && w.req.wire == old(w.req.wire)
    ensures !old(w.isClosed) && old(w.req.nWriters) != 1 ==> OfType(w.req.log, END_REQUEST) == OfType(old(w.req.log), END_REQUEST)
    ensures !old(w.isClosed) && old(w.req.nWriters) == 1 ==>
              && w.req.log != []
              && w.req.log[|w.req.log| - 1] == EndRequest(w.req.requestId, old(w.req.appStatus), REQUEST_COMPLETE)
              && OfType(w.req.log[..|w.req.log| - 1], END_REQUEST) == OfType(old(w.req.log), END_REQUEST)
  {
    hide OfType;
    hide Finished;
    hide EncodeAll;
    if w.Live() {
      CloseLog(w, other, w.req.log, w.Pending(), pw, w.isAnythingWritten, w.req.nWriters == 1, w.req.appStatus);
    }
    var rc := w.FClose();
  }

  /** FCGX_FClose on either writer. */
  method Close(w: Writer, o: Writer, ghost pw: seq<Byte>, ghost po: seq<Byte>)
    requires Inv(w, o, pw, po)
    modifies w, w.buff, w.req`nWriters, w.req`log, w.req`wire, w.req.conn`sent
    ensures old(w.req.wire) <= w.req.wire
    ensures Inv(w, o, pw, po) && w.isClosed && o.isClosed == old(o.isClosed)
    ensures old(w.isClosed) ==> w.req.log == old(w.req.log) && w.req.wire == old(w.req.wire)
    ensures !old(w.isClosed && o.isClosed) && w.isClosed && o.isClosed ==>
              w.req.log[|w.req.log| - 1] == EndRequest(w.req.requestId, old(w.req.appStatus), REQUEST_COMPLETE)
  {
    hide OfType;
    hide WriterOk;
    hide w.req.Consistent;
    OkClosed(w, OfType(w.req.log, w.wtype), pw);
    OkClosed(o, OfType(w.req.log, o.wtype), po);
    CloseOne(w, o.wtype, pw);
  }

  lemma OkClosed(w: Writer, rs: seq<Record>, put: seq<Byte>)
    requires WriterOk(w, rs, put)
    ensures w.Valid() && (w.isClosed <==> w.Shut()) && (!w.isClosed <==> w.Live())
  {
  }

  /** A put or a flush on one writer, as the log sees it. */
  method PutOne(w: Writer, op: Op, ghost pw: seq<Byte>)
    requires (w.wtype == STDOUT || w.wtype == STDERR) && !op.OpClose? && !op.OpStatus?
    requires !w.req.conn.faulty && w.req.Consistent() && WriterOk(w, OfType(w.req.log, w.wtype), pw)
    modifies w, w.buff, w.req`nWriters, w.req`log, w.req`wire, w.req.conn`sent
    ensures old(w.req.wire) <= w.req.wire
    ensures w.req.Consistent() && w.isClosed == old(w.isClosed) && w.req.nWriters == old(w.req.nWriters)
    ensures WriterOk(w, OfType(w.req.log, w.wtype), if w.isClosed then pw else pw + Offered(op))
    ensures forall u :: u != w.wtype ==> OfType(w.req.log, u) == OfType(old(w.req.log), u)
    ensures w.isClosed ==> w.req.log == old(w.req.log) && w.req.wire == old(w.req.wire)
  {
    hide OfType;
    hide Finished;
    hide EncodeAll;
    hide w.Puts;
    ghost var open, s0 := w.Live(), w.Snapshot();
    if op.OpPut? {
      var rc := w.PutStr(op.data);
    } else if op.OpPutChar? {
      var rc := w.PutChar(op.c);
    } else {
      var rc := w.FFlush();
    }
    if open {
      PutKeepsInv(w, s0, pw, Offered(op));
    }
  }

  /** Any call on writer w: on an open stream it adds what it offers, on a closed one it sends nothing. */
  method Apply(w: Writer, o: Writer, op: Op, ghost pw: seq<Byte>, ghost po: seq<Byte>) returns (ghost pw': seq<Byte>)
    requires Inv(w, o, pw, po)
    modifies w, w.buff, w.req`nWriters, w.req`log, w.req`wire, w.req`appStatus, w.req`endStatus, w.req.conn`sent
    ensures old(w.req.wire) <= w.req.wire
    ensures w.req.endStatus == if op.OpStatus? && !(old(w.isClosed) && old(o.isClosed)) then op.status else old(w.req.endStatus)
    ensures pw' == if old(w.isClosed) then pw else pw + Offered(op)
    ensures Inv(w, o, pw', po) && o.isClosed == old(o.isClosed) && (w.isClosed <==> old(w.isClosed) || op.OpClose?)
    ensures old(w.isClosed) ==> w.req.log == old(w.req.log) && w.req.wire == old(w.req.wire)
  {
    hide OfType;
    hide WriterOk;
    hide w.req.Consistent;
    Seqs.EmptyLeft(pw);
    if op.OpClose? {
      Close(w, o, pw, po);
      return pw;
    }
    if op.OpStatus? {
      w.req.SetExitStatus(op.status);
      return pw;
    }
    pw' := if w.isClosed then pw else pw + Offered(op);
    PutOne(w, op, pw);
  }

  /** FCGX_Finish_r: close stderr, then stdout. */
  method FinishRequest(out: Writer, err: Writer, ghost po: seq<Byte>, ghost pe: seq<Byte>)
    requires Inv(out, err, po, pe)
    modifies out, err, out.buff, err.buff, out.req`nWriters, out.req`log, out.req`wire, out.req.conn`sent
    ensures old(out.req.wire) <= out.req.wire
    ensures Inv(out, err, po, pe) && out.isClosed && err.isClosed
    ensures old(out.isClosed && err.isClosed) ==> out.req.log == old(out.req.log) && out.req.wire == old(out.req.wire)
  {
    hide Inv;
    InvSame(out, err, po, pe);
    InvSwap(out, err, po, pe);
    Close(err, out, pe, po);
    InvSwap(err, out, pe, po);
    Close(out, err, po, pe);
  }

  /** A call on one of the two streams of the request. */
  datatype Call = Call(onErr: bool, op: Op)

  /** What a run of calls has put to one stream: everything offered before its first close. */
  function PutTo(calls: seq<Call>, onErr: bool): (r: (seq<Byte>, bool)) {
    if calls == [] then ([], false)
    else
      var (put, closed) := PutTo(calls[..|calls| - 1], onErr);
      var c := calls[|calls| - 1];
      if c.onErr != onErr || closed then (put, closed) else (put + Offered(c.op), c.op.OpClose?)
  }

  /** The status a run of calls ends the request with: the last one set before both streams were closed. */
  function StatusOf(calls: seq<Call>, status: int): int {
    if calls == [] then status
    else
      var front, op := calls[..|calls| - 1], calls[|calls| - 1].op;
      if op.OpStatus? && !(PutTo(front, false).1 && PutTo(front, true).1) then op.status else StatusOf(front, status)
  }

  /**
   Any interleaving of puts, flushes, status settings and closes on the two writers followed by FCGX_Finish_r: the
   descriptor has received whole records, stdout's carry exactly what was put before its first close
   and end in one terminator, stderr's likewise unless it was never used, and the last record is
   the only end-request record.
   */
  method RunRequest(req: OutRequest, calls: seq<Call>, alignedOut: bool, alignedErr: bool)
    requires !req.conn.faulty && req.Consistent() && req.log == [] && req.nWriters == 2 && req.appStatus == req.endStatus
    requires req.replies == []
    modifies req, req.conn`sent
    ensures AllValid(req.log) && req.conn.sent == req.base + EncodeAll(req.log)
    ensures Finished(OfType(req.log, STDOUT), STDOUT, req.requestId, PutTo(calls, false).0)
    ensures Finished(OfType(req.log, STDERR), STDERR, req.requestId, PutTo(calls, true).0)
    ensures EndOk(req.log, false, req.requestId, StatusOf(calls, old(req.appStatus)))
  {
    hide Finished;
    hide Inv;
    hide OfType;
    hide EndOk;
    hide AllOf;
    hide SentBy;
    hide EncodeAll;
    hide WriterOk;
    var out := new Writer(req, 8192, alignedOut, STDOUT);
    var err := new Writer(req, 512, alignedErr, STDERR);
    ghost var po, pe := [], [];
    InvStarts(out, err);
    var i := 0;
    while i < |calls|
      invariant 0 <= i <= |calls| && Inv(out, err, po, pe) && out.req == req
      invariant fresh(out) && fresh(err) && fresh(out.buff) && fresh(err.buff)
      invariant PutTo(calls[..i], false) == (po, out.isClosed) && PutTo(calls[..i], true) == (pe, err.isClosed)
      invariant req.endStatus == StatusOf(calls[..i], old(req.appStatus)) && req.replies == []
    {
      InvSwap(out, err, po, pe);
      assert calls[..i + 1][..i] == calls[..i];
      if calls[i].onErr {
        pe := Apply(err, out, calls[i].op, pe, po);
        InvSwap(err, out, pe, po);
      } else {
        po := Apply(out, err, calls[i].op, po, pe);
      }
      InvSame(out, err, po, pe);
      i := i + 1;
    }
    assert calls[..|calls|] == calls;
    FinishRequest(out, err, po, pe);
    InvFinished(out, err, po, pe);
    NoReplies(req.wire);
  }

  lemma InvStarts(out: Writer, err: Writer)
    requires out != err && out.buff != err.buff && out.req == err.req && !out.req.conn.faulty
    requires out.wtype == STDOUT && err.wtype == STDERR && out.Live() && err.Live()
    requires out.Pending() == [] && err.Pending() == [] && !out.isAnythingWritten && !err.isAnythingWritten
    requires out.req.Consistent() && out.req.log == [] && out.req.nWriters == 2 && out.req.appStatus == out.req.endStatus
    ensures Inv(out, err, [], [])
  {
  }

  lemma InvSwap(w: Writer, o: Writer, pw: seq<Byte>, po: seq<Byte>)
    requires Inv(w, o, pw, po)
    ensures Inv(o, w, po, pw)
  {
  }

  lemma InvSame(w: Writer, o: Writer, pw: seq<Byte>, po: seq<Byte>)
    requires Inv(w, o, pw, po)
    ensures w.req == o.req
  {
  }

  lemma InvFinished(out: Writer, err: Writer, po: seq<Byte>, pe: seq<Byte>)
    requires Inv(out, err, po, pe) && out.isClosed && err.isClosed
    ensures out.req.Consistent() && EndOk(out.req.log, false, out.req.requestId, out.req.endStatus)
    ensures Finished(OfType(out.req.log, out.wtype), out.wtype, out.req.requestId, po)
    ensures Finished(OfType(out.req.log, err.wtype), err.wtype, out.req.requestId, pe)
  {
  }
}
