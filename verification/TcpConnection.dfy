/** The output side of muduo's TcpConnection on the loop thread: ordered delivery under partial writes. */
module TcpConnections {
  import opened Bytes
  import opened Buffers
  import Seqs

  datatype State = Connecting | Connected | Disconnecting | Disconnected

  datatype Errno = WouldBlock | Broken | OtherError

  class TcpConnection {
    var state: State
    const output: Buffer
    /** Whether the channel asks for write events. */
    var writing: bool
    /** What the socket has taken so far. */
    var written: seq<Byte>
    /** Whether the writing side of the socket has been shut. */
    var halfClosed: bool
    /** Whether a write may fail with EPIPE or ECONNRESET. */
    const fragile: bool
    /** What the socket was asked to write, call by call. */
    ghost var offers: seq<seq<Byte>>
    /** All messages accepted by send, in order. */
    ghost var accepted: seq<Byte>

    ghost predicate Valid()
      reads this, output, output.buffer
    {
      && output.Valid()
      && (state == Connected || state == Disconnecting ==>
            && written + output.Contents() == accepted
            && (writing <==> output.Contents() != [])
            && (halfClosed <==> state == Disconnecting && output.Contents() == []))
    }

    constructor (fragile: bool)
      ensures Valid() && state == Connecting && written == [] && accepted == [] && !halfClosed && !writing
      ensures this.fragile == fragile && fresh(output) && fresh(output.buffer) && output.Contents() == []
    {
      output := new Buffer();
      state, writing, written, halfClosed, accepted := Connecting, false, [], false, [];
      this.fragile := fragile;
    }

    method ConnectEstablished()
      requires Valid() && state == Connecting && written == [] && accepted == [] && !halfClosed && !writing && output.Contents() == []
      modifies this`state
      ensures Valid() && state == Connected
    {
      Seqs.EmptyLeft(written);
      state := Connected;
    }

    /** sockets::write: any prefix, or an error; always EPIPE once the writing side is shut. */
    method SocketWrite(data: seq<Byte>) returns (n: int, errno: Errno)
      modifies this`written, this`offers
      ensures -1 <= n <= |data| && written == old(written) + data[..Max(n, 0)] && offers == old(offers) + [data]
      ensures n < 0 && errno == Broken ==> fragile || halfClosed
      ensures halfClosed ==> n < 0 && errno == Broken
    {
      n :| -1 <= n <= |data|;
      errno := WouldBlock;
      if halfClosed {
        n, errno := -1, Broken;
      } else if n < 0 {
        var e: Errno := *;
        errno := if e == Broken && !fragile then OtherError else e;
      }
      written := written + data[..if n < 0 then 0 else n];
      offers := offers + [data];
    }

    /** sendInLoop: write directly if nothing waits, keep the rest; dropped says the socket is gone. */
    method SendInLoop(data: seq<Byte>) returns (dropped: bool)
      requires Valid() && state != Connecting
      modifies this, output, output.buffer
      ensures Valid() && (output.buffer == old(output.buffer) || fresh(output.buffer))
      ensures state == old(state) && halfClosed == old(halfClosed) && (dropped ==> fragile || halfClosed)
      ensures old(state) != Disconnected && !dropped ==> accepted == old(accepted) + data
      ensures old(state) != Disconnected && halfClosed ==> dropped
      ensures offers == if old(state) != Disconnected && !old(writing) then old(offers) + [data] else old(offers)
      ensures old(state) == Disconnected || dropped ==> written == old(written) && output.Contents() == old(output.Contents()) && accepted == old(accepted)
    {
      dropped := false;
      if state == Disconnected {
        return;
      }
      var rest := data;
      ghost var before, k := output.Contents(), 0;
      assert data[..0] == [] && data[0..] == data;
      Seqs.EmptyLeft(accepted);
      Seqs.EmptyLeft(written);
      if !writing && output.ReadableBytes() == 0 {
        var n, errno := SocketWrite(data);
        if n >= 0 {
          rest, k := data[n..], n;
          Seqs.EmptyLeft(written);
        } else if errno == Broken {
          dropped := true;
        }
      }
      if !dropped {
        KeepRest(data, rest, before, k);
      }
    }

    /** sendInLoop, second half: what was not written waits in the output buffer. */
    method KeepRest(ghost data: seq<Byte>, rest: seq<Byte>, ghost before: seq<Byte>, ghost k: nat)
      requires output.Valid() && (state == Connected || (state == Disconnecting && before != []))
      requires !halfClosed && output.Contents() == before && (writing <==> before != [])
      requires k <= |data| && rest == data[k..] && written + before == accepted + data[..k]
      modifies this`accepted, this`writing, output, output.buffer
      ensures Valid() && (output.buffer == old(output.buffer) || fresh(output.buffer)) && accepted == old(accepted) + data
    {
      Seqs.Assoc(written, before, rest);
      Seqs.Assoc(accepted, data[..k], rest);
      assert data[..k] + data[k..] == data;
      if |rest| > 0 {
        output.Append(rest);
        writing := true;
      } else {
        Seqs.EmptyLeft(before);
      }
      accepted := accepted + data;
    }

    /** send, on the loop thread. */
    method Send(data: seq<Byte>) returns (dropped: bool)
      requires Valid()
      modifies this, output, output.buffer
      ensures Valid() && (output.buffer == old(output.buffer) || fresh(output.buffer))
      ensures state == old(state) && (dropped ==> fragile)
      ensures accepted == if old(state) == Connected && !dropped then old(accepted) + data else old(accepted)
      ensures old(state) != Connected ==> written == old(written)
    {
      dropped := false;
      if state == Connected {
        dropped := SendInLoop(data);
      }
    }

    /** shutdownInLoop: half-close at once unless output is waiting. */
    method ShutdownInLoop()
      modifies this`halfClosed
      ensures halfClosed == (old(halfClosed) || !writing)
    {
      if !writing {
        halfClosed := true;
      }
    }

    method Shutdown()
      requires Valid()
      modifies this`state, this`halfClosed
      ensures Valid() && state == if old(state) == Connected then Disconnecting else old(state)
    {
      if state == Connected {
        state := Disconnecting;
        ShutdownInLoop();
      }
    }

    /** handleWrite: a write event. */
    method HandleWrite()
      requires Valid()
      modifies this`written, this`offers, this`writing, this`halfClosed, output`reader, output`writer
      ensures Valid() && accepted == old(accepted)
      ensures offers == if old(writing) then old(offers) + [old(output.Contents())] else old(offers)
      ensures var k := |written| - |old(written)|;
              && 0 <= k <= |old(output.Contents())|
              && written == old(written) + old(output.Contents())[..k] && output.Contents() == old(output.Contents())[k..]
      ensures old(state) == Disconnected && !old(writing) ==> written == old(written)
    {
      if writing {
        ghost var was := output.Contents();
        assert output.buffer[output.reader..output.writer] == was;
        var n, errno := SocketWrite(output.buffer[output.reader..output.writer]);
        if n > 0 {
          Seqs.Assoc(old(written), was[..n], was[n..]);
          assert was[..n] + was[n..] == was;
          output.Retrieve(n);
          if output.ReadableBytes() == 0 {
            writing := false;
            if state == Disconnecting {
              ShutdownInLoop();
            }
          }
        } else {
          assert was[..0] == [];
          Seqs.EmptyLeft(old(written));
        }
      }
    }

    /** handleClose. */
    method HandleClose()
      requires Valid() && (state == Connected || state == Disconnecting)
      modifies this`state, this`writing
      ensures Valid() && state == Disconnected && !writing
    {
      state := Disconnected;
      writing := false;
    }
  }

  // ---------- Whole runs ----------

  datatype Op = OpSend(data: seq<Byte>) | OpWriteEvent | OpShutdown

  /** What one more operation accepts, given what was accepted and whether there was a shutdown. */
  function Next(sofar: seq<Byte>, shut: bool, op: Op): (seq<Byte>, bool) {
    match op
    case OpSend(data) => (if shut then sofar else sofar + data, shut)
    case OpWriteEvent => (sofar, shut)
    case OpShutdown => (sofar, true)
  }

  /** What a run accepts: everything sent before the first shutdown; and whether there was one. */
  function Accepted(ops: seq<Op>): (seq<Byte>, bool) {
    if ops == [] then ([], false)
    else
      var (sofar, shut) := Accepted(ops[..|ops| - 1]);
      Next(sofar, shut, ops[|ops| - 1])
  }

  lemma AcceptedNext(ops: seq<Op>, i: nat)
    requires i < |ops|
    ensures Accepted(ops[..i + 1]) == Next(Accepted(ops[..i]).0, Accepted(ops[..i]).1, ops[i])
  {
    assert ops[..i + 1][..i] == ops[..i];
  }

  /** Any one operation on a connection that has not been closed. */
  method RunOp(conn: TcpConnection, op: Op)
    requires conn.Valid() && (conn.state == Connected || conn.state == Disconnecting) && !conn.fragile
    modifies conn, conn.output, conn.output.buffer
    ensures conn.Valid() && (conn.state == Connected || conn.state == Disconnecting)
    ensures conn.output.buffer == old(conn.output.buffer) || fresh(conn.output.buffer)
    ensures (conn.accepted, conn.state == Disconnecting) == Next(old(conn.accepted), old(conn.state) == Disconnecting, op)
  {
    hide conn.Valid;
    match op {
      case OpSend(data) => var dropped := conn.Send(data);
      case OpWriteEvent => conn.HandleWrite();
      case OpShutdown => conn.Shutdown();
    }
  }

  /**
   Any sequence of sends, write events and shutdowns with any partial writes: what the socket took
   followed by what waits is exactly what was sent before the first shutdown, in order; the channel asks
   for write events exactly while something waits; and the half-close is issued exactly when there
   was a shutdown and nothing waits any more.
   */
  method RunOps(conn: TcpConnection, ops: seq<Op>)
    requires conn.Valid() && conn.state == Connected && conn.accepted == [] && !conn.fragile
    modifies conn, conn.output, conn.output.buffer
    ensures conn.Valid()
    ensures conn.written + conn.output.Contents() == Accepted(ops).0
    ensures conn.writing <==> conn.output.Contents() != []
    ensures conn.halfClosed <==> Accepted(ops).1 && conn.output.Contents() == []
  {
    hide Next;
    var i := 0;
    while i < |ops|
      invariant 0 <= i <= |ops| && conn.Valid()
      invariant conn.output.buffer == old(conn.output.buffer) || fresh(conn.output.buffer)
      invariant Accepted(ops[..i]) == (conn.accepted, conn.state == Disconnecting)
      invariant conn.state == Connected || conn.state == Disconnecting
    {
      AcceptedNext(ops, i);
      RunOp(conn, ops[i]);
      i := i + 1;
    }
    assert ops[..i] == ops;
  }
}
