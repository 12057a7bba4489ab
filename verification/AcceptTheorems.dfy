/** What FCGX_Accept_r makes of a whole request, and exactly when padding spoils it. */
module AcceptTheorems {
  import opened Bytes
  import opened Records
  import opened ReaderSpec
  import opened ReaderTheorems
  import opened Accept
  import opened StreamReader
  import opened ReaderClient
  import opened Descriptors
  import NV = NameValue
  import Seqs

  /** A begin record for a role the library knows. */
  predicate GoodBegin(b: Record) {
    && b.Valid() && b.rtype == BEGIN_REQUEST && b.id != 0 && |b.content| == BEGIN_BODY_LEN
    && RoleEntry(U16(b.content[0], b.content[1])).Some?
  }

  function BegunState(st: State, b: Record): State
    requires GoodBegin(b)
  {
    st.(requestId := b.id, begun := true, role := U16(b.content[0], b.content[1]), keep := b.content[2] % 2 == 1,
    contentLen := 0, paddingLen := |b.padding|)
  }

  lemma BeginSettles(c: Cursor, b: Record, rest: seq<Byte>)
    requires GoodBegin(b) && c.bytes == Encode(b) + rest
    requires !c.st.begun && !c.st.skip && !c.st.eorStop && c.st.contentLen == 0 && c.st.paddingLen == 0
    ensures Settle(c) == Settled(Begin, Cursor(BegunState(c.st, b), b.padding + rest), [])
  {
    hide Settle;
    SettleRecord(c.st, [], b, rest);
    Seqs.EmptyLeft(c.bytes);
    var body := b.content + (b.padding + rest);
    assert body[0] == b.content[0] && body[1] == b.content[1] && body[2] == b.content[2];
    Seqs.TakeDropAppend(b.content, b.padding + rest, BEGIN_BODY_LEN);
    assert b.content[BEGIN_BODY_LEN..] == [];
    Seqs.EmptyLeft(b.padding + rest);
  }

  /** A request as a server serialises it: a begin record, a parameter stream and an input stream. */
  datatype Serial = Serial(begin: Record, params: seq<Record>, stdin: seq<Record>, tail: seq<Byte>) {
    predicate Valid() {
      GoodBegin(begin) && Ended(params, begin.id, PARAMS) && Ended(stdin, begin.id, STDIN)
    }

    function Rest(): seq<Byte>
      requires Valid()
    {
      EncodeAll(params) + (EncodeAll(stdin) + tail)
    }

    function Bytes(): seq<Byte>
      requires Valid()
    {
      Encode(begin) + Rest()
    }

    function Records(): seq<Record> {
      [begin] + (params + stdin)
    }

    /** The role entry followed by each name=value in order. */
    function Environment(items: seq<NV.Item>): seq<seq<Byte>>
      requires Valid()
    {
      [RoleEntry(U16(begin.content[0], begin.content[1])).value] + Entries(NV.Pairs(items))
    }

    /** The terminator of the parameter stream. */
    function ParamsEnd(): Record
      requires Valid()
    {
      params[|params| - 1]
    }
  }

  /**
   With no padding on the begin record and on the parameter terminator, any such request is accepted,
   the vector is the role entry followed by the pairs, and reading `in` yields the input stream.
   */
  lemma RequestTheorem(q: Serial, items: seq<NV.Item>, id0: RequestId)
    requires q.Valid() && q.begin.padding == [] && q.ParamsEnd().padding == []
    requires !Swallows(q.params, q.begin.id) && !Swallows(q.stdin, q.begin.id)
    requires NV.AllValid(items) && OwnContent(q.params, q.begin.id) == NV.EncodeItems(items)
    ensures var a := Try(Start(id0, q.Bytes()));
            && a.Accepted? && a.clean && a.entries == q.Environment(items)
            && Drain(a.stdin).data == OwnContent(q.stdin, q.begin.id) && Drain(a.stdin).halt == Eof
  {
    hide Settle;
    hide Drain;
    hide NV.Decode;
    var id := q.begin.id;
    var c := Start(id0, q.Bytes());
    BeginSettles(c, q.begin, q.Rest());
    Seqs.EmptyLeft(q.Rest());
    var c1 := Retyped(Settle(c).at, PARAMS);
    StreamTheorem(c1.st, q.params, EncodeAll(q.stdin) + q.tail, id, PARAMS);
    var d := Drain(c1);
    NV.DecodeEncode(items);
    Seqs.EmptyLeft(EncodeAll(q.stdin) + q.tail);
    var c2 := Retyped(d.at, STDIN);
    DrainState(c1);
    StreamTheorem(c2.st, q.stdin, q.tail, id, STDIN);
  }

  /** A reader that meets anything but version 1 reads nothing and fails. */
  lemma BadVersion(c: Cursor)
    requires c.st.contentLen == 0 && c.st.paddingLen == 0 && !c.st.eorStop && c.bytes != [] && c.bytes[0] != 1
    ensures Settle(c).halt.Fail? && Drain(c).data == [] && Drain(c).halt.Fail?
  {
    SettleFinishes(c);
    if |c.bytes| >= HEADER_LEN {
      var header, rest := c.bytes[..HEADER_LEN], c.bytes[HEADER_LEN..];
      assert c.bytes == header + rest;
      FinishAtHeader(c.st, header, rest);
      assert Classify(ParseHeader(header), c.st, rest) == Refuse(UNSUPPORTED_VERSION);
    }
  }

  /**
   Padding that does not start with a version byte (all zeros, as every writer here produces, does not):
   the request arrives intact exactly when the begin record and the parameter terminator carry none.
   On a padded begin record it is accepted all the same, with the role entry alone.
   */
  lemma PaddingExact(q: Serial, items: seq<NV.Item>, id0: RequestId)
    requires q.Valid()
    requires q.begin.padding != [] ==> q.begin.padding[0] != 1
    requires q.ParamsEnd().padding != [] ==> q.ParamsEnd().padding[0] != 1
    requires !Swallows(q.params, q.begin.id) && !Swallows(q.stdin, q.begin.id)
    requires NV.AllValid(items) && OwnContent(q.params, q.begin.id) == NV.EncodeItems(items)
    ensures var a := Try(Start(id0, q.Bytes()));
            && (Intact(a, q, items) <==> q.begin.padding == [] && q.ParamsEnd().padding == [])
            && (q.begin.padding != [] ==> a.Accepted? && a.entries == q.Environment([]))
  {
    hide Settle;
    hide Drain;
    hide NV.Decode;
    var id := q.begin.id;
    var c := Start(id0, q.Bytes());
    BeginSettles(c, q.begin, q.Rest());
    var c1 := Retyped(Settle(c).at, PARAMS);
    if q.begin.padding != [] {
      BadVersion(c1);
      NV.DecodeEncode([]);
    } else if q.ParamsEnd().padding != [] {
      Seqs.EmptyLeft(q.Rest());
      StreamTheorem(c1.st, q.params, EncodeAll(q.stdin) + q.tail, id, PARAMS);
      DrainState(c1);
      NV.DecodeEncode(items);
      BadVersion(Retyped(Drain(c1).at, STDIN));
    } else {
      RequestTheorem(q, items, id0);
    }
  }

  predicate Intact(a: Attempt, q: Serial, items: seq<NV.Item>)
    requires q.Valid()
  {
    && a.Accepted? && a.clean && a.entries == q.Environment(items)
    && Drain(a.stdin).data == OwnContent(q.stdin, q.begin.id) && Drain(a.stdin).halt == Eof
  }

  /** A responder request for one parameter, with eight zero bytes of padding on its begin record. */
  function PaddedRequest(): Serial {
    Serial(Record(BEGIN_REQUEST, 1, [0, 1, 0, 0, 0, 0, 0, 0], Zeros(8), 0),
           [Record(PARAMS, 1, [1, 1, 65, 66], [], 0), Record(PARAMS, 1, [], [], 0)],
           [Record(STDIN, 1, [], [], 0)], [])
  }

  /** It is accepted, and the parameter is lost. */
  lemma PaddingFails(id0: RequestId)
    ensures var q := PaddedRequest();
            var a := Try(Start(id0, q.Bytes()));
            && q.Valid() && a.Accepted? && a.entries == [Ascii("FCGI_ROLE=RESPONDER")]
            && OwnContent(q.params, 1) == NV.EncodeItems([NV.Item(NV.Pair([65], [66]), false, false)])
  {
    var q, item := PaddedRequest(), NV.Item(NV.Pair([65], [66]), false, false);
    assert q.begin.content[0] == 0 && q.begin.content[1] == 1;
    OneParameter(q, item);
    assert q.stdin[..|q.stdin| - 1] == [];
    PaddingExact(q, [item], id0);
    hide Try;
    Seqs.EmptyLeft([Ascii("FCGI_ROLE=RESPONDER")]);
  }

  lemma OneParameter(q: Serial, item: NV.Item)
    requires q == PaddedRequest() && item == NV.Item(NV.Pair([65], [66]), false, false)
    ensures q.Valid() && NV.AllValid([item]) && OwnContent(q.params, 1) == NV.EncodeItems([item])
    ensures !Swallows(q.params, 1) && !Swallows(q.stdin, 1)
  {
    assert q.params[1..][1..] == [];
    assert OwnContent(q.params[1..], 1) == [];
    assert [item][1..] == [];
    assert NV.EncodeItem(item) == [1, 1, 65, 66];
  }

  // ---------- The next request on a kept connection ----------

  predicate WithoutBegin(rs: seq<Record>) {
    forall i :: 0 <= i < |rs| ==> rs[i].rtype != BEGIN_REQUEST
  }

  /** Without a begin record a new reader does not begin. */
  lemma {:induction false} NeverBegins(st: State, pad: seq<Byte>, rs: seq<Record>)
    requires !st.begun && !st.eorStop && st.contentLen == 0 && st.paddingLen == |pad| && AllValid(rs) && WithoutBegin(rs)
    ensures !Settle(Cursor(st, pad + EncodeAll(rs))).halt.Begin?
    decreases |rs|
  {
    hide Settle;
    hide Encode;
    if rs == [] {
      Seqs.EmptyLeft(pad);
      RunsOut(Cursor(st, pad), |pad|);
    } else {
      var r, rest := rs[0], rs[0].padding + EncodeAll(rs[1..]);
      assert r.rtype != BEGIN_REQUEST;
      assert WithoutBegin(rs[1..]) by {
        assert forall i :: 0 <= i < |rs[1..]| ==> rs[1..][i] == rs[i + 1];
      }
      SettleRecord(st, pad, r, EncodeAll(rs[1..]));
      var st1 := st.(contentLen := |r.content|, paddingLen := |r.padding|);
      NeverBegins(st1.(contentLen := 0, skip := r.content == []), r.padding, rs[1..]);
      if r.content == [] {
        Seqs.EmptyLeft(rest);
      } else {
        Past(st1, r.content, rest);
      }
      ContentHalts(Cursor(st1, r.content + rest));
    }
  }

  /** Nothing but the rest of a record is left. */
  lemma RunsOut(c: Cursor, left: nat)
    requires left == c.st.contentLen + c.st.paddingLen == |c.bytes| && !c.st.eorStop && (c.st.contentLen > 0 ==> c.st.skip)
    ensures Settle(c).halt.Fail?
  {
    assert c.bytes[left..] == [];
  }

  lemma Past(st: State, content: seq<Byte>, rest: seq<Byte>)
    requires content != [] && st.contentLen == |content| && !st.eorStop && (rest == [] ==> st.paddingLen == 0)
    requires !Settle(Cursor(st.(contentLen := 0, skip := false), rest)).halt.Begin?
    ensures !Settle(Cursor(st.(skip := true), content + rest)).halt.Begin?
  {
    hide Settle;
    if rest == [] {
      Seqs.EmptyLeft(content);
      RunsOut(Cursor(st.(skip := true), content), |content|);
    } else {
      SettleDropped(st, content, rest);
    }
  }

  lemma ContentHalts(c: Cursor)
    ensures c.st.contentLen > 0 && !c.st.skip ==> !Settle(c).halt.Begin?
  {
  }

  /**
   Where the records of an earlier request with the id id0 are followed by the next request, and the earlier
   reader is freed after i of all these records have been taken off the descriptor: the next request
   arrives intact exactly when these are the earlier request's, all of them and no more. Otherwise the
   connection is given up.
   */
  lemma KeptExact(earlier: seq<Record>, q: Serial, items: seq<NV.Item>, id0: RequestId, i: nat)
    requires id0 != 0 && AllValid(earlier) && WithoutBegin(earlier)
    requires forall j :: 0 <= j < |earlier| ==> earlier[j].id == id0 && earlier[j].rtype != 0
    requires q.Valid() && q.begin.padding == [] && q.ParamsEnd().padding == [] && q.tail == []
    requires !Swallows(q.params, q.begin.id) && !Swallows(q.stdin, q.begin.id)
    requires NV.AllValid(items) && OwnContent(q.params, q.begin.id) == NV.EncodeItems(items)
    requires WithoutBegin(q.params) && WithoutBegin(q.stdin) && i <= |earlier| + |q.Records()|
    ensures AllValid((earlier + q.Records())[i..])
    ensures var a := Try(Start(id0, EncodeAll((earlier + q.Records())[i..])));
            && (Intact(a, q, items) <==> i == |earlier|) && (a.Refused? <==> i != |earlier|)
  {
    hide EncodeAll;
    hide OwnContent;
    hide Try;
    var all := earlier + q.Records();
    SerialBytes(q);
    assert AllValid(all[i..]);
    if i < |earlier| {
      assert all[i..][0] == earlier[i];
      StaleRefused(all[i..], id0);
    } else if i == |earlier| {
      assert all[i..] == q.Records();
      RequestTheorem(q, items, id0);
    } else {
      var rest := (q.params + q.stdin)[i - |earlier| - 1..];
      assert all[i..] == rest;
      BeginLost(rest, id0);
    }
  }

  /** A record of the earlier request stops the new reader. */
  lemma StaleRefused(rs: seq<Record>, id0: RequestId)
    requires AllValid(rs) && rs != [] && rs[0].id == id0 != 0 && rs[0].rtype != BEGIN_REQUEST && rs[0].rtype != 0
    ensures Try(Start(id0, EncodeAll(rs))).Refused?
  {
    hide Settle;
    hide Encode;
    hide Drain;
    var more := EncodeAll(rs[1..]);
    SettleRecord(Start(id0, []).st, [], rs[0], more);
    Seqs.EmptyLeft(Encode(rs[0]) + more);
  }

  /** The begin record went with the earlier reader's buffer. */
  lemma BeginLost(rs: seq<Record>, id0: RequestId)
    requires AllValid(rs) && WithoutBegin(rs)
    ensures Try(Start(id0, EncodeAll(rs))).Refused?
  {
    hide Settle;
    hide EncodeAll;
    hide Drain;
    NeverBegins(Start(id0, []).st, [], rs);
    Seqs.EmptyLeft(EncodeAll(rs));
  }

  lemma SerialBytes(q: Serial)
    requires q.Valid() && q.tail == []
    ensures AllValid(q.Records()) && EncodeAll(q.Records()) == q.Bytes()
  {
    hide Encode;
    assert q.Records()[1..] == q.params + q.stdin;
    EncodeAllAppend(q.params, q.stdin);
    Seqs.EmptyLeft(EncodeAll(q.stdin));
  }

  /** Taken off in the middle of a record, with no version byte next: the connection is given up. */
  lemma KeptCut(id0: RequestId, left: seq<Byte>)
    requires left != [] && left[0] != 1
    ensures Try(Start(id0, left)).Refused?
  {
    hide Settle;
    hide Drain;
    BadVersion(Start(id0, left));
  }

  // ---------- The same on the objects ----------

  /**
   A whole request on connection k of the backlog: the library accepts some connection no later than
   this one, and if it is this one the vector is the request's environment and any sequence of calls on
   `in` reads the request's input from the front, all of it once a call comes up short.
   */
  method ServeRequest(req: Request, backlog: seq<Connection>, aligned: bool, calls: seq<Call>,
                      ghost k: nat, ghost q: Serial, ghost items: seq<NV.Item>)
    returns (params: Params, chosen: nat, out: seq<Byte>, short: bool)
    requires forall i :: 0 <= i < |backlog| ==> !backlog[i].faulty
    requires forall i, j :: 0 <= i < j < |backlog| ==> backlog[i] != backlog[j]
    requires k < |backlog| && q.Valid() && backlog[k].pending == q.Bytes()
    requires q.begin.padding == [] && q.ParamsEnd().padding == []
    requires !Swallows(q.params, q.begin.id) && !Swallows(q.stdin, q.begin.id)
    requires NV.AllValid(items) && OwnContent(q.params, q.begin.id) == NV.EncodeItems(items)
    modifies req, backlog
    ensures chosen <= k && params.Valid()
    ensures chosen == k ==>
              && params.entries == q.Environment(items)
              && var input := OwnContent(q.stdin, q.begin.id);
                 if short then out == input else |out| == Wanted(calls) <= |input| && out == input[..|out|]
  {
    hide Try;
    hide Drain;
    hide IdBefore;
    hide Hopeless;
    hide OwnContent;
    hide NV.EncodeItems;
    ghost var id0, ps := req.requestId, Pending(backlog);
    RequestTheorem(q, items, IdBefore(id0, ps, k));
    var rc, stream, p, n := AcceptRequest(req, backlog, aligned);
    HopelessEnds(id0, ps, n, k);
    out, short := RunCalls(stream, calls);
    params, chosen := p, n;
  }
}
