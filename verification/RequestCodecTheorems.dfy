/** What mucgi's codec makes of the requests on a connection, as their bytes arrive. */
module RequestCodecTheorems {
  import opened Bytes
  import opened Records
  import opened Buffers
  import opened Descriptors
  import opened RequestCodec
  import NV = NameValue
  import Seqs

  /** The contents of the records of one type, in order. */
  function ContentOf(rs: seq<Record>, t: Byte): seq<Byte> {
    if rs == [] then [] else (if rs[0].rtype == t then rs[0].content else []) + ContentOf(rs[1..], t)
  }

  predicate Terminator(r: Record, t: Byte) {
    r.rtype == t && r.content == []
  }

  predicate NoTerminator(rs: seq<Record>) {
    forall i :: 0 <= i < |rs| ==> !Terminator(rs[i], PARAMS) && !Terminator(rs[i], STDIN)
  }

  /**
   One request: any records up to the parameter terminator, any but parameter records after it, and
   the input terminator last.
   */
  datatype Request = Request(front: seq<Record>, paramsEnd: Record, back: seq<Record>, stdinEnd: Record) {
    predicate Valid() {
      && AllValid(Records()) && NoTerminator(front) && NoTerminator(back)
      && Terminator(paramsEnd, PARAMS) && Terminator(stdinEnd, STDIN)
      && forall i :: 0 <= i < |back| ==> back[i].rtype != PARAMS
    }

    function Init(): seq<Record> {
      front + [paramsEnd] + back
    }

    function Records(): seq<Record> {
      Init() + [stdinEnd]
    }
  }

  /** Records before any terminator only add content, and perhaps set the keep flag. */
  lemma {:induction false} ProcessContent(st: State, rs: seq<Record>)
    requires NoTerminator(rs)
    ensures var st' := Process(st, rs);
            && st'.stdin == st.stdin + ContentOf(rs, STDIN) && st'.stream == st.stream + ContentOf(rs, PARAMS)
            && st'.params == st.params && st'.got == st.got
    decreases |rs|
  {
    if rs == [] {
      Seqs.EmptyLeft(st.stdin);
      Seqs.EmptyLeft(st.stream);
    } else {
      var st1 := OnRecord(st, rs[0]);
      assert !Terminator(rs[0], PARAMS) && !Terminator(rs[0], STDIN);
      ProcessContent(st1, rs[1..]);
      Seqs.Assoc(st.stdin, if rs[0].rtype == STDIN then rs[0].content else [], ContentOf(rs[1..], STDIN));
      Seqs.Assoc(st.stream, if rs[0].rtype == PARAMS then rs[0].content else [], ContentOf(rs[1..], PARAMS));
      Seqs.EmptyLeft(st.stdin);
      Seqs.EmptyLeft(st.stream);
    }
  }

  /** Only an input terminator completes a request. */
  lemma {:induction false} NotYet(st: State, rs: seq<Record>)
    requires forall i :: 0 <= i < |rs| ==> !Terminator(rs[i], STDIN)
    ensures Process(st, rs).got == st.got
    decreases |rs|
  {
    if rs != [] {
      assert !Terminator(rs[0], STDIN);
      NotYet(OnRecord(st, rs[0]), rs[1..]);
    }
  }

  /** The keep flag: the last begin record for a responder decides, if there is one. */
  function KeepAfter(rs: seq<Record>, keep: bool): bool {
    if rs == [] then keep
    else
      var last := rs[|rs| - 1];
      if last.rtype == BEGIN_REQUEST && |last.content| >= 8 && U16(last.content[0], last.content[1]) == RESPONDER
      then last.content[2] == 1
      else KeepAfter(rs[..|rs| - 1], keep)
  }

  lemma {:induction false} ProcessKeep(st: State, rs: seq<Record>)
    ensures Process(st, rs).keep == KeepAfter(rs, st.keep)
    decreases |rs|
  {
    if rs != [] {
      var front, last := rs[..|rs| - 1], rs[|rs| - 1];
      assert rs == front + [last];
      ProcessAppend(st, front, [last]);
      ProcessOne(Process(st, front), last);
      ProcessKeep(st, front);
    }
  }

  const CLEAN := State([], [], map[], false, false)

  /** A request and the parameters its records encode. */
  datatype Job = Job(q: Request, items: seq<NV.Item>) {
    predicate Valid() {
      q.Valid() && NV.AllValid(items) && ContentOf(q.front, PARAMS) == NV.EncodeItems(items)
    }

    function Bytes(): seq<Byte>
      requires Valid()
    {
      EncodeAll(q.Records())
    }

    function Params(): ParamMap {
      NV.ToMap(NV.Pairs(items))
    }

    function Input(): seq<Byte> {
      ContentOf(q.front, STDIN) + ContentOf(q.back, STDIN)
    }
  }

  /** The whole request processed at once adds its parameters and its input to whatever was there. */
  lemma RequestAtOnce(st: State, job: Job)
    requires job.Valid() && st.stream == []
    ensures Process(st, job.q.Records())
            == State(st.stdin + job.Input(), [], st.params + job.Params(), true, KeepAfter(job.q.Records(), st.keep))
  {
    hide Process;
    hide NV.Decode;
    var q := job.q;
    var st1 := Process(st, q.front);
    var st2 := Process(st1, [q.paramsEnd]);
    var st3 := Process(st2, q.back);
    ProcessAppend(st, q.Init(), [q.stdinEnd]);
    ProcessAppend(st, q.front + [q.paramsEnd], q.back);
    ProcessAppend(st, q.front, [q.paramsEnd]);
    ProcessContent(st, q.front);
    Seqs.EmptyLeft(ContentOf(q.front, PARAMS));
    ProcessOne(st1, q.paramsEnd);
    NV.DecodeEncode(job.items);
    ProcessContent(st2, q.back);
    NoContent(q.back, PARAMS);
    Seqs.Assoc(st.stdin, ContentOf(q.front, STDIN), ContentOf(q.back, STDIN));
    ProcessOne(st3, q.stdinEnd);
    ProcessKeep(st, q.Records());
    hide KeepAfter;
  }

  lemma {:induction false} NoContent(rs: seq<Record>, t: Byte)
    requires forall i :: 0 <= i < |rs| ==> rs[i].rtype != t
    ensures ContentOf(rs, t) == []
  {
    if rs != [] {
      assert rs[0].rtype != t;
      NoContent(rs[1..], t);
    }
  }

  lemma ProcessOne(st: State, r: Record)
    ensures Process(st, [r]) == OnRecord(st, r)
  {
    assert [r][1..] == [];
  }

  /** A proper part of an encoding frames to a proper part of the records. */
  lemma ProperPart(rs: seq<Record>, a: seq<Byte>, c: seq<Byte>)
    requires AllValid(rs) && a + c == EncodeAll(rs) && c != []
    ensures |Frames(a).0| < |rs| && Frames(a).0 == rs[..|Frames(a).0|]
  {
    FramesAll(rs);
    FramesSplit(a, c);
    var x, y := Frames(a).0, Frames(a).1;
    var more := Frames(y + c);
    assert rs == x + more.0;
    if more.0 == [] {
      NothingFramed(y + c);
    }
  }

  lemma NothingFramed(s: seq<Byte>)
    ensures Frames(s).0 == [] ==> Frames(s).1 == s
  {
  }

  /** Between two requests. */
  predicate Idle(s: Session) {
    s.st == CLEAN.(keep := s.st.keep) && s.buf == []
  }

  /** After the bytes a of a request. */
  function Partway(s: Session, a: seq<Byte>): Session {
    Session(Process(s.st, Frames(a).0), Frames(a).1, s.calls, s.shutdowns)
  }

  /** What one request is to do: one callback with its map and its input, and a shutdown unless its begin record says keep. */
  function Alone(s: Session, job: Job): Session {
    var keep := KeepAfter(job.q.Records(), s.st.keep);
    Session(CLEAN.(keep := keep), [], s.calls + [Call(job.Params(), job.Input())], s.shutdowns + if keep then 0 else 1)
  }

  /** One more piece, not the last: no callback. */
  lemma PieceArrives(s: Session, job: Job, a: seq<Byte>, p: seq<Byte>, c: seq<Byte>)
    requires Idle(s) && job.Valid() && (a + p) + c == job.Bytes() && c != []
    ensures Message(Partway(s, a), Partway(s, a).buf + p) == Partway(s, a + p)
  {
    hide Process;
    hide Frames;
    FramesSplit(a, p);
    ProcessAppend(s.st, Frames(a).0, Frames(Frames(a).1 + p).0);
    var q := job.q;
    ProperPart(q.Records(), a + p, c);
    var part := Frames(a + p).0;
    forall i | 0 <= i < |part| ensures !Terminator(part[i], STDIN) {
      assert part[i] == q.Records()[i] == q.Init()[i];
      InitNoStdinEnd(q, i);
    }
    NotYet(s.st, part);
  }

  lemma InitNoStdinEnd(q: Request, i: nat)
    requires q.Valid() && i < |q.Init()|
    ensures !Terminator(q.Init()[i], STDIN)
  {
    if i < |q.front| {
      assert q.Init()[i] == q.front[i];
    } else if i == |q.front| {
      assert q.Init()[i] == q.paramsEnd;
    } else {
      assert q.Init()[i] == q.back[i - |q.front| - 1];
    }
  }

  /** The last piece of a request, and perhaps the first bytes of what comes after it, but no whole record of that. */
  lemma LastPiece(s: Session, job: Job, a: seq<Byte>, p: seq<Byte>, next: seq<Byte>)
    requires Idle(s) && job.Valid() && a + p == job.Bytes() + next && Frames(next).0 == []
    ensures Message(Partway(s, a), Partway(s, a).buf + p) == Alone(s, job).(buf := next)
    ensures Alone(s, job).(buf := next) == Partway(Alone(s, job), next)
  {
    NothingFramed(next);
    hide Process;
    hide Frames;
    hide KeepAfter;
    var records := job.q.Records();
    FramesSplit(a, p);
    FramesEncodeAll(records, next);
    Seqs.EmptyLeft(records);
    ProcessAppend(s.st, Frames(a).0, Frames(Frames(a).1 + p).0);
    RequestAtOnce(s.st, job);
    FromNothing(job);
    ProcessNone(Alone(s, job).st);
  }

  lemma FromNothing(job: Job)
    ensures [] + job.Input() == job.Input() && map[] + job.Params() == job.Params()
  {
  }

  lemma ProcessNone(st: State)
    ensures Process(st, []) == st
  {
  }

  /** onMessage after onMessage, over any pieces. */
  function Deliver(s: Session, pieces: seq<seq<Byte>>): Session
    decreases |pieces|
  {
    if pieces == [] then s else Deliver(Message(s, s.buf + pieces[0]), pieces[1..])
  }

  function Joined(pieces: seq<seq<Byte>>): seq<Byte> {
    if pieces == [] then [] else pieces[0] + Joined(pieces[1..])
  }

  // ---------- Any number of requests ----------

  predicate AllJobs(jobs: seq<Job>) {
    forall i :: 0 <= i < |jobs| ==> jobs[i].Valid()
  }

  /** Each request served on its own. */
  function OneByOne(s: Session, jobs: seq<Job>): Session
    decreases |jobs|
  {
    if jobs == [] then s else OneByOne(Alone(s, jobs[0]), jobs[1..])
  }

  /**
   The pieces are what is left of the requests once the bytes a of the first have come, and a piece that
   completes a request holds no whole record of the next.
   */
  ghost predicate Paced(jobs: seq<Job>, a: seq<Byte>, pieces: seq<seq<Byte>>)
    requires AllJobs(jobs)
    decreases |pieces|
  {
    if pieces == [] || jobs == [] then pieces == [] && jobs == [] && a == []
    else
      var all, got := jobs[0].Bytes(), a + pieces[0];
      if |got| < |all| then got == all[..|got|] && Paced(jobs, got, pieces[1..])
      else
        var next := got[|all|..];
        got[..|all|] == all && Frames(next).0 == [] && Paced(jobs[1..], next, pieces[1..])
  }

  /** Requests that come in such pieces get one callback each, in order, with their own maps and inputs. */
  lemma {:induction false} ManyRequests(s: Session, jobs: seq<Job>, a: seq<Byte>, pieces: seq<seq<Byte>>)
    requires Idle(s) && AllJobs(jobs) && Paced(jobs, a, pieces)
    ensures Deliver(Partway(s, a), pieces) == OneByOne(s, jobs)
    decreases |pieces|
  {
    hide Message;
    hide Alone;
    hide Partway;
    hide Frames;
    if pieces == [] {
      PartwayNone(s);
    } else {
      var job, p, rest := jobs[0], pieces[0], pieces[1..];
      var all, got := job.Bytes(), a + p;
      if |got| < |all| {
        var c := all[|got|..];
        assert got + c == all;
        PieceArrives(s, job, a, p, c);
        ManyRequests(s, jobs, got, rest);
      } else {
        var next := got[|all|..];
        assert got == all + next;
        LastPiece(s, job, a, p, next);
        AloneIdle(s, job);
        ManyRequests(Alone(s, job), jobs[1..], next, rest);
      }
    }
  }

  lemma PartwayNone(s: Session)
    requires Idle(s)
    ensures Partway(s, []) == s
  {
    assert Frames([]) == ([], []);
  }

  lemma AloneIdle(s: Session, job: Job)
    ensures Idle(Alone(s, job))
  {
    hide KeepAfter;
  }

  /** One callback per request, in order. */
  lemma {:induction false} OneByOneCalls(s: Session, jobs: seq<Job>)
    ensures var calls := OneByOne(s, jobs).calls;
            && |calls| == |s.calls| + |jobs| && s.calls <= calls
            && forall i :: 0 <= i < |jobs| ==> calls[|s.calls| + i] == Call(jobs[i].Params(), jobs[i].Input())
    decreases |jobs|
  {
    if jobs != [] {
      var s1 := Alone(s, jobs[0]);
      OneByOneCalls(s1, jobs[1..]);
      var calls := OneByOne(s, jobs).calls;
      assert calls[|s.calls|] == s1.calls[|s.calls|];
      forall i | 0 < i < |jobs| ensures calls[|s.calls| + i] == Call(jobs[i].Params(), jobs[i].Input()) {
        assert calls[|s1.calls| + (i - 1)] == Call(jobs[1..][i - 1].Params(), jobs[1..][i - 1].Input());
      }
    }
  }

  /** A single request may come in any non-empty pieces. */
  lemma {:induction false} OnePaced(job: Job, a: seq<Byte>, pieces: seq<seq<Byte>>)
    requires job.Valid() && a + Joined(pieces) == job.Bytes() && pieces != [] && forall i :: 0 <= i < |pieces| ==> pieces[i] != []
    ensures Paced([job], a, pieces)
    decreases |pieces|
  {
    var p, rest := pieces[0], pieces[1..];
    Seqs.Assoc(a, p, Joined(rest));
    assert [job][1..] == [];
    if rest == [] {
      Seqs.EmptyLeft(a + p);
      assert Frames([]) == ([], []);
      assert (a + p)[|a + p|..] == [];
    } else {
      assert forall i :: 0 <= i < |rest| ==> rest[i] == pieces[i + 1];
      assert rest[0] != [] && Joined(rest) != [];
      OnePaced(job, a + p, rest);
    }
  }

  /** One request in any non-empty pieces: exactly one callback, with the encoded map and the exact input. */
  lemma RequestTheorem(s: Session, job: Job, pieces: seq<seq<Byte>>)
    requires Idle(s) && job.Valid() && Joined(pieces) == job.Bytes() && forall i :: 0 <= i < |pieces| ==> pieces[i] != []
    ensures Deliver(s, pieces) == Alone(s, job)
  {
    hide Partway;
    hide Alone;
    hide Message;
    Seqs.EmptyLeft(Joined(pieces));
    OnePaced(job, [], pieces);
    PartwayNone(s);
    ManyRequests(s, [job], [], pieces);
    assert [job][1..] == [];
  }

  // ---------- Several requests in one piece ----------

  function Stream(jobs: seq<Job>): seq<Record> {
    if jobs == [] then [] else jobs[0].q.Records() + Stream(jobs[1..])
  }

  function Params(jobs: seq<Job>): ParamMap {
    if jobs == [] then map[] else jobs[0].Params() + Params(jobs[1..])
  }

  function Input(jobs: seq<Job>): seq<Byte> {
    if jobs == [] then [] else jobs[0].Input() + Input(jobs[1..])
  }

  function KeepThrough(jobs: seq<Job>, keep: bool): bool {
    if jobs == [] then keep else KeepThrough(jobs[1..], KeepAfter(jobs[0].q.Records(), keep))
  }

  lemma {:induction false} ProcessJobs(st: State, jobs: seq<Job>)
    requires AllJobs(jobs) && st.stream == []
    ensures AllValid(Stream(jobs))
    ensures Process(st, Stream(jobs))
            == State(st.stdin + Input(jobs), [], st.params + Params(jobs), st.got || jobs != [], KeepThrough(jobs, st.keep))
    decreases |jobs|
  {
    hide Process;
    hide KeepAfter;
    if jobs == [] {
      ProcessNone(st);
      Seqs.EmptyLeft(st.stdin);
    } else {
      var job, rest := jobs[0], jobs[1..];
      ProcessAppend(st, job.q.Records(), Stream(rest));
      RequestAtOnce(st, job);
      var st1 := Process(st, job.q.Records());
      ProcessJobs(st1, rest);
      Seqs.Assoc(st.stdin, job.Input(), Input(rest));
      MergeAssoc(st.params, job.Params(), Params(rest));
      hide Params;
      hide Input;
    }
  }

  lemma MergeAssoc(a: ParamMap, b: ParamMap, c: ParamMap)
    ensures (a + b) + c == a + (b + c) && map[] + c == c && a + map[] == a
  {
  }

  /**
   Whole requests that arrive in one piece are one request to the codec: a single callback with all the
   parameters in one map and all the input in one string.
   */
  lemma AllAtOnce(s: Session, jobs: seq<Job>)
    requires Idle(s) && AllJobs(jobs) && jobs != []
    ensures AllValid(Stream(jobs))
    ensures var keep := KeepThrough(jobs, s.st.keep);
            Message(s, EncodeAll(Stream(jobs)))
            == Session(CLEAN.(keep := keep), [], s.calls + [Call(Params(jobs), Input(jobs))], s.shutdowns + if keep then 0 else 1)
    ensures Message(s, EncodeAll(Stream(jobs))).calls == OneByOne(s, jobs).calls <==> |jobs| == 1
  {
    hide Frames;
    hide Process;
    hide KeepThrough;
    hide Params;
    hide Input;
    hide Stream;
    hide OneByOne;
    ProcessJobs(s.st, jobs);
    FramesAll(Stream(jobs));
    Seqs.EmptyLeft(Input(jobs));
    MergeAssoc(map[], map[], Params(jobs));
    OneByOneCalls(s, jobs);
    if |jobs| == 1 {
      JustOne(s, jobs);
    }
  }

  lemma JustOne(s: Session, jobs: seq<Job>)
    requires |jobs| == 1
    ensures OneByOne(s, jobs).calls == s.calls + [Call(Params(jobs), Input(jobs))]
  {
    hide KeepAfter;
    var job := jobs[0];
    assert jobs[1..] == [];
    Seqs.EmptyLeft(job.Input());
    MergeAssoc(job.Params(), map[], map[]);
    assert OneByOne(s, jobs) == Alone(s, job);
  }

  // ---------- Callbacks and requests, for any bytes ----------

  /** How many requests the records complete. */
  function Ends(rs: seq<Record>): nat {
    if rs == [] then 0 else (if Terminator(rs[0], STDIN) then 1 else 0) + Ends(rs[1..])
  }

  lemma {:induction false} EndsAppend(a: seq<Record>, b: seq<Record>)
    ensures Ends(a + b) == Ends(a) + Ends(b)
    decreases |a|
  {
    if a == [] {
      Seqs.EmptyLeft(b);
    } else {
      Seqs.ConsAppend(a, b);
      EndsAppend(a[1..], b);
    }
  }

  lemma {:induction false} GotExact(st: State, rs: seq<Record>)
    ensures Process(st, rs).got <==> st.got || Ends(rs) > 0
    decreases |rs|
  {
    if rs != [] {
      GotExact(OnRecord(st, rs[0]), rs[1..]);
    }
  }

  /** How many requests are completed by a piece that completes an earlier one as well. */
  function Swallowed(buf: seq<Byte>, pieces: seq<seq<Byte>>): nat
    decreases |pieces|
  {
    if pieces == [] then 0
    else
      var (rs, rest) := Frames(buf + pieces[0]);
      (if Ends(rs) > 0 then Ends(rs) - 1 else 0) + Swallowed(rest, pieces[1..])
  }

  /** Over any bytes in any pieces, every completed request is called back or swallowed. */
  lemma {:induction false} CallbackBalance(s: Session, pieces: seq<seq<Byte>>)
    requires !s.st.got && Frames(s.buf).0 == []
    ensures |Deliver(s, pieces).calls| + Swallowed(s.buf, pieces) == |s.calls| + Ends(Frames(s.buf + Joined(pieces)).0)
    decreases |pieces|
  {
    hide Process;
    hide Frames;
    if pieces == [] {
      Seqs.EmptyLeft(s.buf);
    } else {
      var p, rest := pieces[0], pieces[1..];
      var bytes := s.buf + p;
      Seqs.Assoc(s.buf, p, Joined(rest));
      FramesSplit(bytes, Joined(rest));
      EndsAppend(Frames(bytes).0, Frames(Frames(bytes).1 + Joined(rest)).0);
      GotExact(s.st, Frames(bytes).0);
      FramesDone(bytes);
      CallbackBalance(Message(s, bytes), rest);
    }
  }

  lemma FramesDone(s: seq<Byte>)
    ensures Frames(Frames(s).1).0 == []
  {
    hide Frames;
    FramesSplit(s, []);
    Seqs.EmptyLeft(s);
    Seqs.EmptyLeft(Frames(s).1);
    var x, y := Frames(s).0, Frames(Frames(s).1).0;
    assert Frames(s + []).0 == x + y;
    assert |x| == |x + y|;
  }

  // ---------- On the objects ----------

  lemma MessageIgnoresBuf(s: Session, buf: seq<Byte>, bytes: seq<Byte>)
    ensures Message(s.(buf := buf), bytes) == Message(s, bytes)
  {
  }

  /** handleRead and onMessage until the request's bytes are used up. */
  method Serve(codec: FastCgiCodec, buf: Buffer, conn: Connection, ghost job: Job)
    requires job.Valid() && codec.Apart(buf) && !conn.faulty && conn.pending == job.Bytes() && Idle(codec.Now(buf))
    modifies codec, codec.stdin, codec.stream, codec.stdin.buffer, codec.stream.buffer, buf, buf.buffer, conn`pending
    ensures codec.Apart(buf) && codec.Now(buf) == Alone(old(codec.Now(buf)), job)
  {
    hide Message;
    hide Partway;
    hide Alone;
    hide buf.Contents;
    hide EncodeAll;
    ghost var s0, a := codec.Now(buf), [];
    PartwayNone(s0);
    Seqs.EmptyLeft(conn.pending);
    BytesCome(job);
    while conn.pending != []
      invariant codec.Apart(buf)
      invariant codec.stdin.buffer == old(codec.stdin.buffer) || fresh(codec.stdin.buffer)
      invariant codec.stream.buffer == old(codec.stream.buffer) || fresh(codec.stream.buffer)
      invariant buf.buffer == old(buf.buffer) || fresh(buf.buffer)
      invariant a + conn.pending == job.Bytes()
      invariant codec.Now(buf) == if conn.pending != [] then Partway(s0, a) else Alone(s0, job)
      decreases |conn.pending|
    {
      ghost var s, c := codec.Now(buf), conn.pending;
      var n := buf.ReadFd(conn);
      ghost var p := c[..n];
      assert c == p + c[n..];
      Seqs.Assoc(a, p, c[n..]);
      MessageIgnoresBuf(s, s.buf + p, s.buf + p);
      assert codec.Now(buf) == s.(buf := s.buf + p);
      codec.OnMessage(buf);
      if c[n..] == [] {
        Completes(s0, job, a, p);
      } else {
        PieceArrives(s0, job, a, p, c[n..]);
      }
      a := a + p;
    }
  }

  lemma BytesCome(job: Job)
    requires job.Valid()
    ensures job.Bytes() != []
  {
  }

  lemma Completes(s: Session, job: Job, a: seq<Byte>, p: seq<Byte>)
    requires Idle(s) && job.Valid() && a + p == job.Bytes()
    ensures Message(Partway(s, a), Partway(s, a).buf + p) == Alone(s, job)
  {
    hide Message;
    hide Partway;
    assert Frames([]) == ([], []);
    Seqs.EmptyLeft(job.Bytes());
    LastPiece(s, job, a, p, []);
  }
}
