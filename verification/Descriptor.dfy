/** A connected socket as the libraries see it: bytes arrive in pieces and leave in pieces. */
module Descriptors {
  import opened Bytes
  import Seqs

  class Connection {
    /** Sent by the peer and not read yet. */
    var pending: seq<Byte>
    /** Everything written so far. */
    var sent: seq<Byte>
    /** Whether system calls on it may fail. */
    const faulty: bool

    constructor (pending: seq<Byte>, faulty: bool)
      ensures this.pending == pending && sent == [] && this.faulty == faulty
    {
      this.pending := pending;
      this.sent := [];
      this.faulty := faulty;
    }

    /** OS_Read: any non-empty piece of what is pending that fits, 0 at the end, -1 on an error. */
    method Read(buff: array<Byte>) returns (count: int)
      requires buff.Length > 0
      modifies this`pending, buff
      ensures -1 <= count <= buff.Length && count <= |old(pending)|
      ensures !faulty ==> count >= 0 && (count == 0 <==> old(pending) == [])
      ensures count > 0 ==> buff[..count] == old(pending)[..count] && pending == old(pending)[count..]
      ensures count <= 0 ==> pending == old(pending) && buff[..] == old(buff[..])
    {
      if faulty {
        count :| -1 <= count <= buff.Length && count <= |pending|;
      } else if pending == [] {
        count := 0;
      } else {
        count :| 1 <= count <= buff.Length && count <= |pending|;
      }
      if count > 0 {
        forall i | 0 <= i < count {
          buff[i] := pending[i];
        }
        pending := pending[count..];
      }
    }

    /** write_it_all: repeat OS_Write, which may take any non-empty prefix of what is left. */
    method WriteAll(data: seq<Byte>) returns (ok: bool)
      modifies this`sent
      ensures !faulty ==> ok
      ensures ok ==> sent == old(sent) + data
      ensures exists k :: 0 <= k <= |data| && sent == old(sent) + data[..k]
    {
      var left := data;
      assert sent == old(sent) + data[..0];
      while left != []
        invariant |left| <= |data| && left == data[|data| - |left|..]
        invariant sent == old(sent) + data[..|data| - |left|]
        decreases |left|
      {
        var fails: bool := *;
        if faulty && fails {
          return false;
        }
        var wrote :| 1 <= wrote <= |left|;
        ghost var done := |data| - |left|;
        sent := sent + left[..wrote];
        Seqs.DropDrop(data, done, wrote);
        Seqs.Assoc(old(sent), data[..done], left[..wrote]);
        left := left[wrote..];
      }
      assert data[..|data|] == data;
      return true;
    }
  }
}
