/** Reading a libfcgi input stream to its end with any mix of calls. */
module ReaderClient {
  import opened Bytes
  import opened Records
  import opened ReaderSpec
  import opened ReaderTheorems
  import opened StreamReader
  import Seqs

  /** How a stream stands once a read has come up short. */
  ghost predicate Stopped(s: InStream, d: Drained, errno0: int)
    requires s.Valid()
    reads s, s.buff, s.req, s.conn
  {
    && s.isClosed && s.req.begun
    && s.req.requestId == d.at.st.requestId
    && match d.halt
       case Eof => s.errno == errno0 && s.Here() == d.at
       case Fail(code) => s.errno == if errno0 == 0 then code else errno0
       case _ => false
  }

  /** The stream after n bytes have been asked for when d could still be read. */
  ghost predicate After(s: InStream, d: Drained, n: nat, data: seq<Byte>, errno0: int)
    requires s.Valid()
    reads s, s.buff, s.req, s.conn
  {
    if n <= |d.data| then
      && data == d.data[..n] && !s.isClosed && s.errno == errno0
      && Drain(s.Abs()) == d.(data := d.data[n..])
    else
      data == d.data && Stopped(s, d, errno0)
  }

  ghost predicate Open(s: InStream)
    reads s, s.req
  {
    s.Valid() && !s.isClosed && s.req.begun && !s.eorStop && !s.conn.faulty
  }

  lemma AfterFetch(s: InStream, c: Cursor, n: nat, data: seq<Byte>, errno0: int, sent0: seq<Byte>)
    requires s.Valid() && c.st.begun && s.FetchedAt(Fetch(c, n), data, errno0, sent0)
    ensures After(s, Drain(c), n, data, errno0)
  {
    hide Fetch;
    hide Drain;
    FetchTakesFromDrain(c, n);
    NoBegin(c, n);
  }

  /** A stream whose request has begun never stops at a begin record. */
  lemma {:induction false} NoBegin(c: Cursor, n: nat)
    requires c.st.begun
    ensures !Fetch(c, n).halt.Begin?
    decreases |c.bytes|, n
  {
    hide Settle;
    if n > 0 && Settle(c).halt.Content? {
      var s := Settle(c);
      var k := Min(n, Min(s.at.st.contentLen, |s.at.bytes|));
      NoBegin(Advance(s.at, k), n - k);
    }
  }

  method ReadStr(s: InStream, n: int) returns (data: seq<Byte>)
    requires Open(s)
    modifies s, s.buff, s.req, s.conn
    ensures s.Valid() && s.req.begun && !s.eorStop && s.rtype == old(s.rtype) && |s.Unread()| <= old(|s.Unread()|)
    ensures After(s, Drain(old(s.Abs())), Max(n, 0), data, old(s.errno))
    ensures var f := Fetch(old(s.Abs()), Max(n, 0));
            && data == f.data && s.conn.sent == old(s.conn.sent) + f.reply
            && (if f.halt.Content? then !s.isClosed && s.Abs() == f.at else s.isClosed)
  {
    hide Fetch;
    hide Drain;
    ghost var c := s.Abs();
    data := s.GetStr(n);
    AfterFetch(s, c, Max(n, 0), data, old(s.errno), old(s.conn.sent));
  }

  method ReadChar(s: InStream) returns (c: int)
    requires Open(s)
    modifies s, s.buff, s.req, s.conn
    ensures s.Valid() && s.req.begun && !s.eorStop && s.rtype == old(s.rtype) && |s.Unread()| <= old(|s.Unread()|)
    ensures EOF <= c < 256
    ensures After(s, Drain(old(s.Abs())), 1, if c == EOF then [] else [c], old(s.errno))
    ensures c == EOF <==> Drain(old(s.Abs())).data == []
    ensures var f := Fetch(old(s.Abs()), 1);
            && (if c == EOF then [] else [c]) == f.data && s.conn.sent == old(s.conn.sent) + f.reply
            && (if f.halt.Content? then !s.isClosed && s.Abs() == f.at else s.isClosed)
  {
    hide Fetch;
    hide Drain;
    ghost var c0 := s.Abs();
    c := s.GetChar();
    AfterFetch(s, c0, 1, if c == EOF then [] else [c], old(s.errno), old(s.conn.sent));
  }

  datatype Call = CallGetChar | CallGetStr(n: int)

  function Asked(call: Call): nat {
    if call.CallGetChar? then 1 else Max(call.n, 0)
  }

  function Wanted(calls: seq<Call>): nat {
    if calls == [] then 0 else Asked(calls[0]) + Wanted(calls[1..])
  }

  lemma WantedNext(calls: seq<Call>, i: nat)
    requires i < |calls|
    ensures Wanted(calls[i..]) == Asked(calls[i]) + Wanted(calls[i + 1..])
  {
    assert calls[i..][1..] == calls[i + 1..];
  }

  method ReadOne(s: InStream, call: Call) returns (data: seq<Byte>)
    requires Open(s)
    modifies s, s.buff, s.req, s.conn
    ensures s.Valid() && s.req.begun && !s.eorStop && s.rtype == old(s.rtype) && |s.Unread()| <= old(|s.Unread()|)
    ensures After(s, Drain(old(s.Abs())), Asked(call), data, old(s.errno))
    ensures var f := Fetch(old(s.Abs()), Asked(call));
            && data == f.data && s.conn.sent == old(s.conn.sent) + f.reply
            && (if f.halt.Content? then !s.isClosed && s.Abs() == f.at else s.isClosed)
  {
    hide Fetch;
    hide Drain;
    hide After;
    if call.CallGetChar? {
      var c := ReadChar(s);
      data := if c == EOF then [] else [c];
    } else {
      data := ReadStr(s, call.n);
    }
  }

  /**
   Any sequence of FCGX_GetChar and FCGX_GetStr calls, with the connection cut into any pieces,
   returns the stream's content from the front; once a call comes up short, exactly all of it.
   */
  method RunCalls(s: InStream, calls: seq<Call>) returns (out: seq<Byte>, short: bool)
    requires Open(s)
    modifies s, s.buff, s.req, s.conn
    ensures s.Valid()
    ensures var d := Drain(old(s.Abs()));
            if short then out == d.data && Stopped(s, d, old(s.errno))
            else |out| == Wanted(calls) <= |d.data| && out == d.data[..|out|]
  {
    hide Drain;
    hide Fetch;
    out, short := [], false;
    ghost var d := Drain(s.Abs());
    var i := 0;
    assert calls[0..] == calls;
    assert d.data[0..] == d.data;
    while i < |calls| && !short
      invariant 0 <= i <= |calls| && s.Valid()
      invariant short ==> out == d.data && Stopped(s, d, old(s.errno))
      invariant !short ==> Open(s) && s.errno == old(s.errno)
      invariant !short ==> |out| <= |d.data| && out == d.data[..|out|] && Drain(s.Abs()) == d.(data := d.data[|out|..])
      invariant !short ==> |out| + Wanted(calls[i..]) == Wanted(calls)
      decreases |calls| - i
    {
      var data := ReadOne(s, calls[i]);
      var want := Asked(calls[i]);
      WantedNext(calls, i);
      ghost var done := |out|;
      out := out + data;
      short := |data| < want;
      if !short {
        Seqs.DropDrop(d.data, done, want);
      } else {
        assert d.data[..done] + d.data[done..] == d.data;
      }
      i := i + 1;
    }
    assert !short ==> calls[i..] == [];
  }
}
