/** What the input stream delivers for a sequence of records, however it is read. */
module ReaderTheorems {
  import opened Bytes
  import opened Records
  import opened ReaderSpec
  import Seqs

  /** All a client can still read, why reading stops, and where. */
  datatype Drained = Drained(data: seq<Byte>, halt: Halt, at: Cursor)

  function Drain(c: Cursor): Drained
    decreases |c.bytes|
  {
    DrainFrom(Settle(c))
  }

  function DrainFrom(s: Settled): Drained
    requires s.halt.Content? ==> OnContent(s.at)
    decreases |s.at.bytes|, 0
  {
    if !s.halt.Content? then Drained([], s.halt, s.at)
    else
      var k := Min(s.at.st.contentLen, |s.at.bytes|);
      var more := DrainFrom(Settle(Advance(s.at, k)));
      more.(data := s.at.bytes[..k] + more.data)
  }

  function Then(data: seq<Byte>, d: Drained): Drained {
    d.(data := data + d.data)
  }

  lemma DrainOnContent(c: Cursor)
    requires OnContent(c)
    ensures var k := Min(c.st.contentLen, |c.bytes|); Drain(c) == Then(c.bytes[..k], Drain(Advance(c, k)))
  {
    assert Settle(c) == Settled(Content, c, []);
  }

  lemma DrainPiece(c: Cursor, n: nat)
    requires OnContent(c) && n <= c.st.contentLen && n <= |c.bytes|
    ensures Drain(c) == Then(c.bytes[..n], Drain(Advance(c, n)))
  {
    hide Drain;
    var k := Min(c.st.contentLen, |c.bytes|);
    var more := Drain(Advance(c, k));
    DrainOnContent(c);
    if n < k {
      var c1 := Advance(c, n);
      DrainOnContent(c1);
      Seqs.DropDrop(c.bytes, n, k - n);
      assert Advance(c1, k - n) == Advance(c, k);
      Seqs.Assoc(c.bytes[..n], c1.bytes[..k - n], more.data);
    }
  }

  /** Drain of a settled cursor, with Settle kept folded. */
  lemma DrainSettled(c: Cursor)
    ensures Settle(c).halt.Content? ==> Drain(c) == Drain(Settle(c).at)
    ensures !Settle(c).halt.Content? ==> Drain(c) == Drained([], Settle(c).halt, Settle(c).at)
  {
    if Settle(c).halt.Content? {
      assert Settle(Settle(c).at) == Settled(Content, Settle(c).at, []);
    }
  }

  /** Reading content never changes the request. */
  lemma {:induction false} DrainState(c: Cursor)
    requires c.st.begun
    ensures Drain(c).at.st.begun && Drain(c).at.st.requestId == c.st.requestId
    decreases |c.bytes|
  {
    hide Settle;
    if Settle(c).halt.Content? {
      var at := Settle(c).at;
      DrainState(Advance(at, Min(at.st.contentLen, |at.bytes|)));
    }
  }

  /** A read of n bytes takes the next n of what can still be read, or all of it if there are fewer. */
  lemma {:induction false} FetchTakesFromDrain(c: Cursor, n: nat)
    ensures Takes(Fetch(c, n), Drain(c), n)
    decreases |c.bytes|, n
  {
    hide Settle;
    hide Fetch;
    hide Drain;
    hide Takes;
    hide Before;
    hide Then;
    var s := Settle(c);
    if n == 0 {
      TakesNone(c);
    } else if !s.halt.Content? {
      TakesStopped(c, n);
    } else {
      DrainSettled(c);
      FetchSettle(c, n);
      var at := s.at;
      var k := Min(n, Min(at.st.contentLen, |at.bytes|));
      var c1 := Advance(at, k);
      DrainPiece(at, k);
      FetchPiece(at, n, k);
      FetchTakesFromDrain(c1, n - k);
      TakesPiece(at.bytes[..k], s.reply, Fetch(c1, n - k), Drain(c1), n - k);
    }
  }

  /** f is a read of n bytes where d could be read. */
  ghost predicate Takes(f: Fetched, d: Drained, n: nat) {
    if n <= |d.data| then
      f.data == d.data[..n] && f.halt.Content? && Drain(f.at) == d.(data := d.data[n..])
    else
      f.data == d.data && f.halt == d.halt && f.at == d.at
  }

  lemma TakesNone(c: Cursor)
    ensures Takes(Fetch(c, 0), Drain(c), 0)
  {
    hide Drain;
    assert Drain(c).data[0..] == Drain(c).data;
  }

  lemma TakesStopped(c: Cursor, n: nat)
    requires n > 0 && !Settle(c).halt.Content?
    ensures Takes(Fetch(c, n), Drain(c), n)
  {
    hide Settle;
  }

  lemma TakesPiece(piece: seq<Byte>, reply: seq<Byte>, f: Fetched, d: Drained, n: nat)
    requires Takes(f, d, n)
    ensures Takes(Before([], reply, Before(piece, [], f)), Then(piece, d), |piece| + n)
  {
    hide Drain;
    var data := piece + d.data;
    Seqs.EmptyLeft(piece + f.data);
    if n <= |d.data| {
      assert data[..|piece| + n] == piece + d.data[..n];
      assert data[|piece| + n..] == d.data[n..];
    }
  }

  // ---------- Record sequences ----------

  /** A record that is not content of the stream (id, t) although it may sit between its records. */
  predicate Foreign(r: Record, id: RequestId) {
    r.id != id || r.rtype == BEGIN_REQUEST
  }

  predicate Own(r: Record, id: RequestId, t: Byte) {
    r.id == id && r.rtype == t && t != BEGIN_REQUEST
  }

  /** A record that may precede the end of the stream: never a management record, never malformed. */
  predicate Between(r: Record, id: RequestId, t: Byte) {
    && r.id != 0
    && (r.rtype == BEGIN_REQUEST ==> |r.content| == BEGIN_BODY_LEN)
    && (!Foreign(r, id) ==> Own(r, id, t) && r.content != [])
  }

  /** Records ended by an empty record of the stream's own type. */
  predicate Ended(rs: seq<Record>, id: RequestId, t: Byte) {
    && AllValid(rs) && id != 0 && rs != []
    && Own(rs[|rs| - 1], id, t) && rs[|rs| - 1].content == []
    && forall i :: 0 <= i < |rs| - 1 ==> Between(rs[i], id, t)
  }

  /** What a client is promised: the contents of the stream's own records. */
  function OwnContent(rs: seq<Record>, id: RequestId): seq<Byte> {
    if rs == [] then []
    else (if Foreign(rs[0], id) then [] else rs[0].content) + OwnContent(rs[1..], id)
  }

  /** What the reader delivers: a set skip flag swallows the next content, whoever it belongs to. */
  function Delivered(rs: seq<Record>, id: RequestId, skip: bool): seq<Byte> {
    if rs == [] then []
    else if rs[0].content == [] then Delivered(rs[1..], id, skip || Foreign(rs[0], id))
    else (if Foreign(rs[0], id) || skip then [] else rs[0].content) + Delivered(rs[1..], id, false)
  }

  /** The one pattern the reader gets wrong: an empty foreign record right before content of the stream. */
  predicate Swallows(rs: seq<Record>, id: RequestId) {
    exists i :: 0 <= i < |rs| - 1 && Swallowed(rs[i], rs[i + 1], id)
  }

  predicate Swallowed(r: Record, next: Record, id: RequestId) {
    Foreign(r, id) && r.content == [] && !Foreign(next, id) && next.content != []
  }

  lemma SwallowsTail(rs: seq<Record>, id: RequestId)
    requires |rs| > 0
    ensures Swallows(rs, id) <==> Swallows(rs[1..], id) || (|rs| > 1 && Swallowed(rs[0], rs[1], id))
  {
    var t := rs[1..];
    if Swallows(t, id) {
      var i :| 0 <= i < |t| - 1 && Swallowed(t[i], t[i + 1], id);
      assert Swallowed(rs[i + 1], rs[i + 1 + 1], id);
    }
    if Swallows(rs, id) {
      var i :| 0 <= i < |rs| - 1 && Swallowed(rs[i], rs[i + 1], id);
      if i > 0 {
        assert Swallowed(t[i - 1], t[i - 1 + 1], id);
      }
    }
  }

  /** Delivery is right exactly when no empty foreign record stands right before content of the stream. */
  lemma {:induction false} DeliveredExact(rs: seq<Record>, id: RequestId, skip: bool)
    requires forall i :: 0 <= i < |rs| - 1 && !Foreign(rs[i], id) ==> rs[i].content != []
    ensures |Delivered(rs, id, skip)| <= |OwnContent(rs, id)|
    ensures Delivered(rs, id, skip) == OwnContent(rs, id)
            <==> !Swallows(rs, id) && !(skip && rs != [] && !Foreign(rs[0], id) && rs[0].content != [])
  {
    if rs != [] {
      SwallowsTail(rs, id);
      var r, rest := rs[0], rs[1..];
      if r.content == [] {
        DeliveredExact(rest, id, skip || Foreign(r, id));
        Seqs.EmptyLeft(OwnContent(rest, id));
      } else {
        DeliveredExact(rest, id, false);
        Seqs.EmptyLeft(OwnContent(rest, id));
        Seqs.EmptyLeft(Delivered(rest, id, false));
        Seqs.TakeDropAppend(r.content, OwnContent(rest, id), |r.content|);
        Seqs.TakeDropAppend(r.content, Delivered(rest, id, false), |r.content|);
      }
    }
  }

  /** An empty record of request 2 makes the reader of request 1 lose its next byte. */
  lemma DeliveryFails()
    ensures var rs := [Record(STDIN, 2, [], [], 0), Record(STDIN, 1, [65], [], 0), Record(STDIN, 1, [], [], 0)];
            Ended(rs, 1, STDIN) && OwnContent(rs, 1) == [65] && Delivered(rs, 1, false) == []
  {
    var other, own, end := Record(STDIN, 2, [], [], 0), Record(STDIN, 1, [65], [], 0), Record(STDIN, 1, [], [], 0);
    assert [other, own, end][1..] == [own, end];
    assert [own, end][1..] == [end];
    assert [end][1..] == [];
    assert OwnContent([end], 1) == [] && Delivered([end], 1, false) == [];
    assert OwnContent([own, end], 1) == [65] && Delivered([own, end], 1, true) == [];
  }

  // ---------- Draining an encoded sequence ----------

  predicate Ready(st: State, id: RequestId, t: Byte) {
    st.begun && !st.eorStop && st.requestId == id && st.rtype == t && st.contentLen == 0
  }

  /** One more record: the header is interpreted once the old padding is gone. */
  lemma SettleRecord(st: State, pad: seq<Byte>, r: Record, more: seq<Byte>)
    requires st.contentLen == 0 && st.paddingLen == |pad| && !st.eorStop && r.Valid()
    ensures Settle(Cursor(st, pad + (Encode(r) + more)))
            == Interpret(Header(1, r.rtype, r.id, |r.content|, |r.padding|, r.reserved),
                         st.(paddingLen := 0), r.content + (r.padding + more))
  {
    hide Interpret;
    hide Classify;
    EncodedRecord(r, more);
    var bytes := Encode(r) + more;
    Seqs.TakeDropAppend(pad, bytes, |pad|);
    Seqs.EmptyLeft(bytes);
    assert pad[|pad|..] == [];
  }

  /** Content of a record that belongs to nobody here is dropped with one look. */
  lemma SettleDropped(st: State, content: seq<Byte>, rest: seq<Byte>)
    requires content != [] && rest != [] && st.contentLen == |content|
    ensures Settle(Cursor(st.(skip := true), content + rest)) == Settle(Cursor(st.(contentLen := 0, skip := false), rest))
  {
    hide FinishRecord;
    var c := Cursor(st.(skip := true), content + rest);
    DropSome(c, |content|);
    Seqs.TakeDropAppend(content, rest, |content|);
    Seqs.EmptyLeft(rest);
    assert content[|content|..] == [];
    SettleFinishes(c);
    SettleFinishes(Cursor(st.(contentLen := 0, skip := false), rest));
  }

  function Next(st: State, r: Record, id: RequestId): State {
    st.(paddingLen := |r.padding|, skip := r.content == [] && (st.skip || Foreign(r, id)))
  }

  /** The effect of one record before the terminator on what a client will read. */
  lemma DrainRecord(st: State, pad: seq<Byte>, r: Record, more: seq<Byte>, id: RequestId, t: Byte)
    requires Ready(st, id, t) && st.paddingLen == |pad|
    requires r.Valid() && Between(r, id, t) && id != 0 && more != []
    ensures var d := Drain(Cursor(Next(st, r, id), r.padding + more));
            Drain(Cursor(st, pad + (Encode(r) + more)))
            == Then(if Foreign(r, id) || st.skip then [] else r.content, d)
  {
    hide Settle;
    hide Drain;
    SettleRecord(st, pad, r, more);
    var h := Header(1, r.rtype, r.id, |r.content|, |r.padding|, r.reserved);
    var st1 := st.(paddingLen := |r.padding|, contentLen := |r.content|);
    var rest := r.padding + more;
    var c := Cursor(st, pad + (Encode(r) + more));
    var c1 := Cursor(Next(st, r, id), rest);
    Seqs.EmptyLeft(Drain(c1).data);
    if Foreign(r, id) {
      var c2 := Cursor(st1.(skip := true), r.content + rest);
      SameDrain(c, c2);
      if r.content == [] {
        Seqs.EmptyLeft(rest);
      } else {
        SettleDropped(st1, r.content, rest);
        SameDrain(c2, c1);
      }
    } else {
      var c2 := Cursor(st1, r.content + rest);
      SameDrain(c, c2);
      if st.skip {
        SettleDropped(st1, r.content, rest);
        SameDrain(c2, c1);
      } else {
        Seqs.TakeDropAppend(r.content, rest, |r.content|);
        Seqs.EmptyLeft(rest);
        DrainPiece(c2, |r.content|);
        assert Advance(c2, |r.content|) == c1;
      }
    }
  }

  lemma SameDrain(c: Cursor, c': Cursor)
    requires Settle(c).halt == Settle(c').halt && Settle(c).at == Settle(c').at
    ensures Drain(c) == Drain(c')
  {
    hide Settle;
  }

  /**
   The reader theorem: whatever follows, draining an encoded record sequence yields its delivered
   content, ends with end-of-file and no error, and stops right after the terminator's header.
   */
  lemma {:induction false} DrainRecords(st: State, pad: seq<Byte>, rs: seq<Record>, tail: seq<Byte>, id: RequestId, t: Byte)
    requires Ready(st, id, t) && st.paddingLen == |pad| && Ended(rs, id, t)
    ensures var d := Drain(Cursor(st, pad + (EncodeAll(rs) + tail)));
            && d.data == Delivered(rs, id, st.skip) && d.halt == Eof
            && d.at.bytes == rs[|rs| - 1].padding + tail
            && d.at.st.begun && d.at.st.requestId == id
    decreases |rs|
  {
    hide Drain;
    var more := EncodeAll(rs[1..]) + tail;
    EncodeAllCons(rs, tail);
    if |rs| == 1 {
      DrainTerminator(st, pad, rs[0], more, id, t);
      Seqs.EmptyLeft(tail);
    } else {
      assert |more| >= HEADER_LEN;
      DrainRecord(st, pad, rs[0], more, id, t);
      assert Ended(rs[1..], id, t) by {
        assert forall i :: 0 <= i < |rs| - 2 ==> rs[1..][i] == rs[i + 1];
      }
      DrainRecords(Next(st, rs[0], id), rs[0].padding, rs[1..], tail, id, t);
      Seqs.EmptyLeft(Delivered(rs[1..], id, false));
      Seqs.EmptyLeft(Delivered(rs[1..], id, st.skip || Foreign(rs[0], id)));
    }
  }

  lemma DrainTerminator(st: State, pad: seq<Byte>, r: Record, more: seq<Byte>, id: RequestId, t: Byte)
    requires Ready(st, id, t) && st.paddingLen == |pad| && r.Valid() && Own(r, id, t) && r.content == [] && id != 0
    ensures var d := Drain(Cursor(st, pad + (Encode(r) + more)));
            d.data == [] && d.halt == Eof && d.at.bytes == r.padding + more && d.at.st.begun && d.at.st.requestId == id
  {
    hide Settle;
    SettleRecord(st, pad, r, more);
    Seqs.EmptyLeft(r.padding + more);
  }

  /** The reader theorem from the start of a stream, with the exact condition for it to be what was sent. */
  lemma StreamTheorem(st: State, rs: seq<Record>, tail: seq<Byte>, id: RequestId, t: Byte)
    requires Ready(st, id, t) && st.paddingLen == 0 && !st.skip && Ended(rs, id, t)
    ensures var d := Drain(Cursor(st, EncodeAll(rs) + tail));
            && d.halt == Eof
            && d.at.bytes == rs[|rs| - 1].padding + tail
            && (d.data == OwnContent(rs, id) <==> !Swallows(rs, id))
  {
    hide Drain;
    DrainRecords(st, [], rs, tail, id, t);
    Seqs.EmptyLeft(EncodeAll(rs) + tail);
    DeliveredExact(rs, id, false);
  }
}
