/** libfcgi's request set-up: the parameter vector, ReadParams and FCGX_Accept_r. */
module Accept {
  import opened Bytes
  import opened Records
  import opened ReaderSpec
  import opened ReaderTheorems
  import opened StreamReader
  import opened ReaderClient
  import opened Descriptors
  import NV = NameValue
  import Seqs

  const PARAMS_ERROR := -4
  const EQUALS: Byte := 61

  // ---------- The parameter vector ----------

  /** Params: a vector of environment strings that doubles when full and always ends in a null entry. */
  class Params {
    var vec: array<Option<seq<Byte>>>
    var length: nat
    var cur: nat
    ghost var entries: seq<seq<Byte>>

    ghost predicate Valid()
      reads this, vec
    {
      && vec.Length == length && cur < length && cur == |entries|
      && (forall i :: 0 <= i < cur ==> vec[i] == Some(entries[i]))
      && vec[cur] == None
    }

    constructor (length: nat)
      requires length > 0
      ensures Valid() && fresh(vec) && entries == []
    {
      vec := new Option<seq<Byte>>[length](_ => None);
      this.length, cur, entries := length, 0, [];
    }

    method PutParam(nameValue: seq<Byte>)
      requires Valid()
      modifies this, vec
      ensures Valid() && (vec == old(vec) || fresh(vec))
      ensures entries == old(entries) + [nameValue]
    {
      vec[cur] := Some(nameValue);
      cur := cur + 1;
      entries := entries + [nameValue];
      if cur >= length {
        length := 2 * length;
        var bigger := new Option<seq<Byte>>[length](_ => None);
        forall i | 0 <= i < cur {
          bigger[i] := vec[i];
        }
        vec := bigger;
      }
      vec[cur] := None;
    }
  }

  /** An environment string name=value. */
  function Entry(p: NV.Pair): seq<Byte> {
    p.name + [EQUALS] + p.value
  }

  function Entries(ps: seq<NV.Pair>): (es: seq<seq<Byte>>)
    ensures |es| == |ps|
  {
    if ps == [] then [] else [Entry(ps[0])] + Entries(ps[1..])
  }

  // ---------- ReadParams ----------

  /** What ReadParams has left to read is data, and nothing has gone wrong yet. */
  ghost predicate Reading(s: InStream, d: Drained, used: nat, errno0: int)
    reads s, s.buff, s.req, s.conn
  {
    Open(s) && s.errno == errno0 && used <= |d.data| && Drain(s.Abs()) == d.(data := d.data[used..])
  }

  method TakeStr(s: InStream, n: nat, ghost d: Drained, ghost used: nat, ghost errno0: int) returns (data: seq<Byte>)
    requires Reading(s, d, used, errno0)
    modifies s, s.buff, s.req, s.conn
    ensures s.Valid() && |s.Unread()| <= old(|s.Unread()|) && |data| <= n
    ensures s.rtype == old(s.rtype)
    ensures |data| == n <==> used + n <= |d.data|
    ensures |data| == n ==> data == d.data[used..][..n] && Reading(s, d, used + n, errno0)
    ensures |data| != n ==> Stopped(s, d, errno0)
  {
    hide Drain;
    hide Fetch;
    data := ReadStr(s, n);
    if used + n <= |d.data| {
      Seqs.DropDrop(d.data, used, n);
    }
  }

  /** The rest of a length whose first byte has been read: three more bytes if its top bit is set. */
  method RestOfLength(s: InStream, first: Byte, ghost d: Drained, ghost used: nat, ghost errno0: int) returns (ok: bool, n: nat)
    requires 1 <= used <= |d.data| && first == d.data[used - 1]
    requires Reading(s, d, used, errno0)
    modifies s, s.buff, s.req, s.conn
    ensures s.Valid() && |s.Unread()| <= old(|s.Unread()|)
    ensures var l := NV.ReadLen(d.data[used - 1..]);
            && (ok <==> l.Len?)
            && (ok ==> n == l.n && Reading(s, d, used - 1 + l.used, errno0))
            && (!ok ==> Stopped(s, d, errno0))
  {
    hide Drain;
    ghost var t := d.data[used - 1..];
    assert t[0] == first && |t| == |d.data| - used + 1;
    if first < 128 {
      return true, first;
    }
    var lenBuff := TakeStr(s, 3, d, used, errno0);
    if |lenBuff| != 3 {
      return false, 0;
    }
    assert lenBuff[0] == t[1] && lenBuff[1] == t[2] && lenBuff[2] == t[3];
    return true, U31(first, lenBuff[0], lenBuff[1], lenBuff[2]);
  }

  method TakeChar(s: InStream, ghost d: Drained, ghost used: nat, ghost errno0: int) returns (c: int)
    requires Reading(s, d, used, errno0)
    modifies s, s.buff, s.req, s.conn
    ensures s.Valid() && |s.Unread()| <= old(|s.Unread()|) && EOF <= c < 256
    ensures c == EOF <==> used == |d.data|
    ensures c == EOF ==> Stopped(s, d, errno0)
    ensures c != EOF ==> c == d.data[used] && Reading(s, d, used + 1, errno0)
  {
    hide Drain;
    c := ReadChar(s);
    if c != EOF {
      Seqs.DropDrop(d.data, used, 1);
      assert d.data[used..][..1][0] == c;
    }
  }

  /** Both lengths of a pair, the first byte of the name length being read already. */
  method ReadLengths(s: InStream, first: Byte, ghost d: Drained, ghost pos: nat, ghost errno0: int)
    returns (ok: bool, nameLen: nat, valueLen: nat, ghost at: nat)
    requires pos < |d.data| && first == d.data[pos]
    requires Reading(s, d, pos + 1, errno0)
    modifies s, s.buff, s.req, s.conn
    ensures s.Valid() && |s.Unread()| <= old(|s.Unread()|)
    ensures var t := d.data[pos..];
            && (!ok ==> NV.ReadPair(t).Bad? && Stopped(s, d, errno0))
            && (ok ==> pos <= at <= |d.data| && NV.ReadPair(t) == NV.Body(d.data[at..], nameLen, valueLen, at - pos))
            && (ok ==> Reading(s, d, at, errno0))
  {
    hide Reading;
    hide Stopped;
    hide NV.ReadLen;
    hide NV.ReadPair;
    hide NV.Body;
    LengthsAt(d.data, pos);
    valueLen, at := 0, pos;
    ok, nameLen := RestOfLength(s, first, d, pos + 1, errno0);
    if !ok {
      return;
    }
    at := pos + NV.ReadLen(d.data[pos..]).used;
    var c := TakeChar(s, d, at, errno0);
    if c == EOF {
      NoLengthLeft(d.data[at..]);
      ok := false;
      return;
    }
    ok, valueLen := RestOfLength(s, c, d, at + 1, errno0);
    if !ok {
      return;
    }
    at := at + NV.ReadLen(d.data[at..]).used;
  }

  /** The two lengths of the pair at pos, by position. */
  lemma LengthsAt(data: seq<Byte>, pos: nat)
    requires pos <= |data|
    ensures var t := data[pos..];
            var n := NV.ReadLen(t);
            if n.NoLen? then NV.ReadPair(t).Bad?
            else
              var mid := pos + n.used;
              && mid <= |data|
              && var v := NV.ReadLen(data[mid..]);
                 if v.NoLen? then NV.ReadPair(t).Bad?
                 else
                   && mid + v.used <= |data|
                   && NV.ReadPair(t) == NV.Body(data[mid + v.used..], n.n, v.n, mid + v.used - pos)
  {
    hide NV.ReadLen;
    hide NV.ReadPair;
    hide NV.Body;
    var t := data[pos..];
    NV.PairParts(t);
    var n := NV.ReadLen(t);
    if n.Len? {
      Seqs.DropDrop(data, pos, n.used);
      var v := NV.ReadLen(t[n.used..]);
      if v.Len? {
        Seqs.DropDrop(data, pos + n.used, v.used);
      }
    }
  }

  /** One turn of ReadParams' loop, the first byte of the name length being read already. */
  method ReadOne(s: InStream, first: Byte, ghost d: Drained, ghost pos: nat, ghost errno0: int) returns (ok: bool, nameValue: seq<Byte>)
    requires pos < |d.data| && first == d.data[pos]
    requires Reading(s, d, pos + 1, errno0)
    modifies s, s.buff, s.req, s.conn
    ensures s.Valid() && |s.Unread()| <= old(|s.Unread()|)
    ensures var r := NV.ReadPair(d.data[pos..]);
            && (ok <==> r.Got?)
            && (ok ==> nameValue == Entry(r.pair) && Reading(s, d, pos + r.used, errno0))
            && (!ok ==> Stopped(s, d, errno0))
  {
    hide Reading;
    hide Stopped;
    hide NV.ReadPair;
    nameValue := [];
    var nameLen, valueLen;
    ghost var at;
    ok, nameLen, valueLen, at := ReadLengths(s, first, d, pos, errno0);
    if !ok {
      return;
    }
    var name := TakeStr(s, nameLen, d, at, errno0);
    if |name| != nameLen {
      return false, [];
    }
    Seqs.DropDrop(d.data, at, nameLen);
    var value := TakeStr(s, valueLen, d, at + nameLen, errno0);
    if |value| != valueLen {
      return false, [];
    }
    return true, name + [EQUALS] + value;
  }

  lemma NoLengthLeft(t: seq<Byte>)
    requires t == []
    ensures NV.ReadLen(t).NoLen?
  {
  }

  /** The error a failed ReadParams leaves: one from before, the reader's own, or a parameter error. */
  function FirstError(halt: Halt, errno0: int): int {
    if errno0 != 0 then errno0 else if halt.Fail? && halt.code != 0 then halt.code else PARAMS_ERROR
  }

  /** ReadParams: 0 and all pairs if the stream's content decodes, -1 with the pairs before the fault otherwise. */
  method ReadParams(params: Params, s: InStream) returns (rc: int)
    requires params.Valid() && Open(s) && params.vec as object != s.buff
    modifies params, params.vec, s, s.buff, s.req, s.conn
    ensures params.Valid() && s.Valid() && (params.vec == old(params.vec) || fresh(params.vec))
    ensures var d := Drain(old(s.Abs()));
            var r := NV.Decode(d.data);
            && rc == (if r.ok then 0 else -1)
            && params.entries == old(params.entries) + Entries(r.pairs)
            && (rc == 0 ==> Stopped(s, d, old(s.errno)))
            && (rc != 0 ==> s.isClosed && s.errno == FirstError(d.halt, old(s.errno)))
            && s.req.requestId == d.at.st.requestId
  {
    hide Drain;
    hide NV.ReadPair;
    hide Reading;
    hide NV.Decode;
    hide NV.Prefixed;
    ghost var d, errno0 := Drain(s.Abs()), s.errno;
    ghost var pos := 0;
    ghost var got: seq<NV.Pair> := [];
    ReadingStarts(s);
    Seqs.EmptyLeft(params.entries);
    while true
      invariant params.Valid() && (params.vec == old(params.vec) || fresh(params.vec))
      invariant params.vec as object != s.buff
      invariant Reading(s, d, pos, errno0) && pos <= |d.data|
      invariant params.entries == old(params.entries) + Entries(got)
      invariant NV.Decode(d.data) == NV.Prefixed(got, NV.Decode(d.data[pos..]))
      decreases |d.data| - pos
    {
      var c := TakeChar(s, d, pos, errno0);
      NV.DecodeStep(d.data, pos, got);
      if c == EOF {
        return 0;
      }
      var ok, nameValue := ReadOne(s, c, d, pos, errno0);
      if !ok {
        s.SetError(PARAMS_ERROR);
        return -1;
      }
      params.PutParam(nameValue);
      ghost var r := NV.ReadPair(d.data[pos..]);
      EntriesAppend(got, r.pair);
      Seqs.Assoc(old(params.entries), Entries(got), [nameValue]);
      got := got + [r.pair];
      pos := pos + r.used;
    }
  }

  lemma ReadingStarts(s: InStream)
    requires Open(s)
    ensures var d := Drain(s.Abs());
            && Reading(s, d, 0, s.errno)
            && NV.Decode(d.data) == NV.Prefixed([], NV.Decode(d.data[0..]))
  {
    hide Drain;
    var d := Drain(s.Abs());
    assert d.data[0..] == d.data;
    Seqs.EmptyLeft(NV.Decode(d.data).pairs);
  }

  lemma {:induction false} EntriesAppend(ps: seq<NV.Pair>, p: NV.Pair)
    ensures Entries(ps + [p]) == Entries(ps) + [Entry(p)]
  {
    if ps == [] {
      assert ps + [p] == [p];
    } else {
      Seqs.ConsAppend(ps, [p]);
      EntriesAppend(ps[1..], p);
    }
  }

  // ---------- FCGX_Accept_r ----------

  function RoleEntry(role: nat): Option<seq<Byte>> {
    if role == 1 then Some(Ascii("FCGI_ROLE=RESPONDER"))
    else if role == 2 then Some(Ascii("FCGI_ROLE=AUTHORIZER"))
    else if role == 3 then Some(Ascii("FCGI_ROLE=FILTER"))
    else None
  }

  function Retyped(c: Cursor, t: Byte): Cursor {
    Cursor(c.st.(rtype := t, eorStop := false, skip := false, contentLen := 0, paddingLen := 0), c.bytes)
  }

  /** A new reader; an earlier request has left its id in the request structure. */
  function Start(requestId: RequestId, bytes: seq<Byte>): Cursor {
    Cursor(State(0, requestId, false, 0, false, false, false, 0, 0), bytes)
  }

  /** What else an earlier request has left behind. */
  function With(c: Cursor, role: nat, keep: bool): Cursor {
    Cursor(c.st.(role := role, keep := keep), c.bytes)
  }

  /** Both runs stop for the same reason, with the same id, and at a begin record in the same place. */
  predicate SameStop(s: Settled, s': Settled) {
    s.halt == s'.halt && s.at.st.requestId == s'.at.st.requestId && (s.halt.Begin? ==> s.at == s'.at)
  }

  /** The role and the keep flag of an earlier request do not matter to the next one; its id does. */
  lemma {:induction false} SettleForgets(c: Cursor, role: nat, keep: bool)
    requires !c.st.begun
    ensures SameStop(Settle(c), Settle(With(c, role, keep)))
    decreases |c.bytes|, 1
  {
    if c.bytes != [] && !(c.st.contentLen > 0 && !c.st.skip) {
      FinishForgets(c, role, keep);
    }
  }

  lemma {:induction false} FinishForgets(c: Cursor, role: nat, keep: bool)
    requires !c.st.begun && (c.st.contentLen > 0 ==> c.st.skip)
    ensures SameStop(FinishRecord(c), FinishRecord(With(c, role, keep)))
    decreases |c.bytes|, 0
  {
    hide Interpret;
    hide ParseHeader;
    var left := c.st.contentLen + c.st.paddingLen;
    if left + HEADER_LEN <= |c.bytes| && !c.st.eorStop {
      var st := c.st.(contentLen := 0, paddingLen := 0, skip := c.st.skip && c.st.contentLen == 0);
      var bytes := c.bytes[left..];
      InterpretForgets(ParseHeader(bytes), st, bytes[HEADER_LEN..], role, keep);
    }
  }

  lemma {:induction false} InterpretForgets(h: Header, st: State, bytes: seq<Byte>, role: nat, keep: bool)
    requires !st.begun && !st.eorStop
    ensures SameStop(Interpret(h, st, bytes), Interpret(h, st.(role := role, keep := keep), bytes))
    decreases |bytes|, 2
  {
    hide Settle;
    var v := Classify(h, st, bytes);
    assert Classify(h, st.(role := role, keep := keep), bytes) == v;
    var at := AfterHeader(h, st, bytes);
    if v.StreamRecord? {
      SettleForgets(at, role, keep);
    } else if v.SkipRecord? {
      SettleForgets(Cursor(at.st.(skip := true), bytes), role, keep);
    }
  }

  /** The outcome of one connection; stdin is where reading goes on if the parameters ended cleanly. */
  datatype Attempt = Refused | Accepted(entries: seq<seq<Byte>>, clean: bool, stdin: Cursor)

  function Try(c: Cursor): Attempt {
    var s := Settle(c);
    if !s.halt.Begin? then Refused
    else
      match RoleEntry(s.at.st.role)
      case None => Refused
      case Some(role) =>
        var d := Drain(Retyped(s.at, PARAMS));
        var r := NV.Decode(d.data);
        if r.ok then Accepted([role] + Entries(r.pairs), d.halt.Eof?, Retyped(d.at, STDIN)) else Refused
  }

  /** The id an attempt leaves in the request structure. */
  function IdLeft(requestId: RequestId, bytes: seq<Byte>): RequestId {
    Settle(Start(requestId, bytes)).at.st.requestId
  }

  /** FCGX_Accept_r, first half: a new reader runs to the begin record. */
  method ReadBegin(req: Request, conn: Connection, aligned: bool) returns (stream: InStream)
    requires !conn.faulty
    modifies req, conn
    ensures fresh(stream) && fresh(stream.buff) && stream.req == req && stream.conn == conn && stream.Valid()
    ensures req.requestId == IdLeft(old(req.requestId), old(conn.pending))
    ensures var s := Settle(Start(old(req.requestId), old(conn.pending)));
            && (req.begun <==> s.halt.Begin?)
            && (req.begun ==> !stream.isClosed && stream.errno == 0 && stream.Abs() == s.at)
  {
    hide Settle;
    req.begun := false;
    stream := new InStream(req, conn, 8192, aligned, 0);
    SettleForgets(Start(req.requestId, conn.pending), req.role, req.keep);
    stream.FillBuffProc();
  }

  /** FCGX_Accept_r, second half: the parameters go into the vector after the role. */
  method ReadEnvironment(stream: InStream, params: Params, role: seq<Byte>) returns (ok: bool)
    requires stream.Valid() && !stream.isClosed && stream.req.begun && !stream.conn.faulty
    requires params.Valid() && params.entries == [] && params.vec as object != stream.buff
    modifies params, params.vec, stream, stream.buff, stream.req, stream.conn
    ensures stream.Valid() && params.Valid() && (params.vec == old(params.vec) || fresh(params.vec))
    ensures stream.req.requestId == old(stream.req.requestId)
    ensures var d := Drain(Retyped(old(stream.Abs()), PARAMS));
            var r := NV.Decode(d.data);
            && (ok <==> r.ok)
            && (ok ==> params.entries == [role] + Entries(r.pairs) && Open(stream) && stream.rtype == STDIN)
            && (ok && d.halt.Eof? ==> stream.Abs() == Retyped(d.at, STDIN) && stream.errno == old(stream.errno))
  {
    hide Drain;
    hide NV.Decode;
    params.PutParam(role);
    Seqs.EmptyLeft([role]);
    ghost var c := Retyped(stream.Abs(), PARAMS);
    stream.SetReaderType(PARAMS);
    assert stream.Abs() == c;
    DrainState(c);
    var rc := ReadParams(params, stream);
    if rc < 0 {
      return false;
    }
    stream.SetReaderType(STDIN);
    return true;
  }

  /** One turn of FCGX_Accept_r's loop. */
  method AcceptOn(req: Request, conn: Connection, aligned: bool) returns (ok: bool, stream: InStream, params: Params)
    requires !conn.faulty
    modifies req, conn
    ensures stream.req == req && stream.conn == conn && stream.Valid() && params.Valid()
    ensures fresh(stream) && fresh(stream.buff) && fresh(params) && fresh(params.vec)
    ensures req.requestId == IdLeft(old(req.requestId), old(conn.pending))
    ensures var a := Try(Start(old(req.requestId), old(conn.pending)));
            && (ok <==> a.Accepted?)
            && (ok ==> params.entries == a.entries && Open(stream) && stream.rtype == STDIN)
            && (ok && a.clean ==> stream.Abs() == a.stdin && stream.errno == 0)
  {
    hide Settle;
    hide Drain;
    hide NV.Decode;
    hide RoleEntry;
    hide IdLeft;
    stream := ReadBegin(req, conn, aligned);
    params := new Params(30);
    if !req.begun {
      return false, stream, params;
    }
    var role := RoleEntry(req.role);
    if role.None? {
      return false, stream, params;
    }
    ok := ReadEnvironment(stream, params, role.value);
  }

  ghost function Pending(backlog: seq<Connection>): (ps: seq<seq<Byte>>)
    reads backlog
    ensures |ps| == |backlog| && forall i :: 0 <= i < |backlog| ==> ps[i] == backlog[i].pending
  {
    if backlog == [] then [] else Pending(backlog[..|backlog| - 1]) + [backlog[|backlog| - 1].pending]
  }

  /** The id in the request structure when connection k of these is tried, none before having been accepted. */
  function IdBefore(requestId: RequestId, ps: seq<seq<Byte>>, k: nat): RequestId
    requires k <= |ps|
  {
    if k == 0 then requestId else IdLeft(IdBefore(requestId, ps, k - 1), ps[k - 1])
  }

  /** What becomes of connection k. */
  function TryNth(requestId: RequestId, ps: seq<seq<Byte>>, k: nat): Attempt
    requires k < |ps|
  {
    Try(Start(IdBefore(requestId, ps, k), ps[k]))
  }

  /** None of the first n connections holds a request. */
  ghost predicate Hopeless(requestId: RequestId, ps: seq<seq<Byte>>, n: nat)
    requires n <= |ps|
  {
    forall i :: 0 <= i < n ==> TryNth(requestId, ps, i).Refused?
  }

  lemma HopelessEnds(requestId: RequestId, ps: seq<seq<Byte>>, n: nat, k: nat)
    requires n <= |ps| && k < |ps| && Hopeless(requestId, ps, n) && TryNth(requestId, ps, k).Accepted?
    ensures n <= k
  {
    hide TryNth;
  }

  /**
   FCGX_Accept_r: give up each connection that does not hold a request and go on to the next. A connection kept
   from an earlier request comes first, with what is still to be read from its descriptor.
   */
  method AcceptRequest(req: Request, backlog: seq<Connection>, aligned: bool)
    returns (rc: int, stream: InStream?, params: Params?, chosen: nat)
    requires forall i :: 0 <= i < |backlog| ==> !backlog[i].faulty
    requires forall i, j :: 0 <= i < j < |backlog| ==> backlog[i] != backlog[j]
    modifies req, backlog
    ensures chosen <= |backlog| && (rc == 0 <==> chosen < |backlog|)
    ensures var ps := old(Pending(backlog));
            && Hopeless(old(req.requestId), ps, chosen)
            && (rc == 0 ==>
                  && stream != null && params != null && stream.Valid() && params.Valid()
                  && fresh(stream) && fresh(stream.buff) && fresh(params) && fresh(params.vec)
                  && stream.conn == backlog[chosen] && stream.req == req
                  && var a := TryNth(old(req.requestId), ps, chosen);
                     && a.Accepted? && params.entries == a.entries && Open(stream) && stream.rtype == STDIN
                     && (a.clean ==> stream.Abs() == a.stdin && stream.errno == 0))
  {
    hide Try;
    hide IdLeft;
    ghost var id0, ps := req.requestId, Pending(backlog);
    chosen, stream, params := 0, null, null;
    while chosen < |backlog|
      invariant chosen <= |backlog|
      invariant req.requestId == IdBefore(id0, ps, chosen)
      invariant forall i :: chosen <= i < |backlog| ==> backlog[i].pending == ps[i]
      invariant Hopeless(id0, ps, chosen)
    {
      var ok, s, p := AcceptOn(req, backlog[chosen], aligned);
      if ok {
        return 0, s, p, chosen;
      }
      chosen := chosen + 1;
    }
    rc := -1;
  }
}
