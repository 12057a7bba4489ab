/** muduo's Buffer: a byte vector with a reader and a writer index that behaves as a plain byte sequence. */
module Buffers {
  import opened Bytes
  import opened Descriptors
  import Seqs

  const CHEAP_PREPEND := 8
  const INITIAL_SIZE := 1024
  const EXTRA := 65536

  // ---------- Integers in network order ----------

  /** The k low-order bytes of x, most significant first. */
  function ToBytes(x: int, k: nat): (s: seq<Byte>)
    ensures |s| == k
    decreases k
  {
    if k == 0 then [] else ToBytes(x / 256, k - 1) + [x % 256]
  }

  function Unsigned(s: seq<Byte>): nat {
    if s == [] then 0 else Unsigned(s[..|s| - 1]) * 256 + s[|s| - 1]
  }

  function Pow256(k: nat): (p: nat)
    ensures p > 0
  {
    if k == 0 then 1 else 256 * Pow256(k - 1)
  }

  /** The two's complement reading of a k-byte number. */
  function Signed(s: seq<Byte>): int {
    var u := Unsigned(s);
    if s != [] && s[0] >= 128 then u - Pow256(|s|) else u
  }

  predicate FitsSigned(x: int, k: nat) {
    k > 0 && 0 - Pow256(k) <= 2 * x < Pow256(k)
  }

  /** Dividing by 256 takes the last byte off. */
  lemma DropByte(x: int, q: int, p: int, r: int)
    requires x == q * (256 * p) + r
    ensures x / 256 == q * p + r / 256 && x % 256 == r % 256
  {
    var t := q * p;
    assert x == 256 * t + r;
  }

  lemma {:induction false} UnsignedToBytes(x: int, k: nat, q: int, r: int)
    requires x == q * Pow256(k) + r && 0 <= r < Pow256(k)
    ensures Unsigned(ToBytes(x, k)) == r
    decreases k
  {
    if k > 0 {
      DropByte(x, q, Pow256(k - 1), r);
      UnsignedToBytes(x / 256, k - 1, q, r / 256);
      UnsignedAppend(ToBytes(x / 256, k - 1), x % 256);
    }
  }

  lemma UnsignedAppend(s: seq<Byte>, b: Byte)
    ensures Unsigned(s + [b]) == Unsigned(s) * 256 + b
  {
    assert (s + [b])[..|s|] == s;
  }

  lemma Halves(r: int, p: int)
    requires p % 2 == 0
    ensures 2 * (r / 256) >= p <==> 2 * r >= 256 * p
  {
    var h := p / 2;
    assert p == 2 * h;
  }

  lemma {:induction false} FirstByte(x: int, k: nat, q: int, r: int)
    requires k > 0 && x == q * Pow256(k) + r && 0 <= r < Pow256(k)
    ensures ToBytes(x, k)[0] >= 128 <==> 2 * r >= Pow256(k)
    decreases k
  {
    DropByte(x, q, Pow256(k - 1), r);
    if k == 1 {
      assert ToBytes(x, 1) == ToBytes(x / 256, 0) + [x % 256] == [x % 256];
    } else {
      FirstByte(x / 256, k - 1, q, r / 256);
      HalfPower(k - 1);
      Halves(r, Pow256(k - 1));
      hide Pow256;
      assert ToBytes(x, k)[0] == ToBytes(x / 256, k - 1)[0];
    }
  }

  lemma HalfPower(k: nat)
    requires k > 0
    ensures Pow256(k) % 2 == 0
  {
  }

  /** appendIntN then readIntN gives the number back. */
  lemma IntRoundTrip(x: int, k: nat)
    requires FitsSigned(x, k)
    ensures Signed(ToBytes(x, k)) == x
  {
    var p := Pow256(k);
    if x >= 0 {
      UnsignedToBytes(x, k, 0, x);
      FirstByte(x, k, 0, x);
    } else {
      UnsignedToBytes(x, k, -1, x + p);
      FirstByte(x, k, -1, x + p);
    }
  }

  // ---------- The buffer ----------

  class Buffer {
    var buffer: array<Byte>
    var reader: nat
    var writer: nat

    ghost predicate Valid()
      reads this
    {
      CHEAP_PREPEND <= buffer.Length && reader <= writer <= buffer.Length
    }

    /** The readable bytes. */
    ghost function Contents(): seq<Byte>
      requires Valid()
      reads this, buffer
    {
      buffer[reader..writer]
    }

    constructor (initialSize: nat := INITIAL_SIZE)
      ensures Valid() && fresh(buffer) && Contents() == []
    {
      buffer := new Byte[CHEAP_PREPEND + initialSize](_ => 0);
      reader, writer := CHEAP_PREPEND, CHEAP_PREPEND;
    }

    function ReadableBytes(): nat
      requires Valid()
      reads this
      ensures ReadableBytes() == |Contents()|
    {
      writer - reader
    }

    function WritableBytes(): nat
      requires Valid()
      reads this
    {
      buffer.Length - writer
    }

    method RetrieveAll()
      requires Valid()
      modifies this`reader, this`writer
      ensures Valid() && Contents() == []
    {
      reader, writer := CHEAP_PREPEND, CHEAP_PREPEND;
    }

    method Retrieve(len: nat)
      requires Valid() && len <= |Contents()|
      modifies this`reader, this`writer
      ensures Valid() && Contents() == old(Contents())[len..]
    {
      if len < ReadableBytes() {
        reader := reader + len;
      } else {
        RetrieveAll();
      }
    }

    method RetrieveAsString(len: nat) returns (s: seq<Byte>)
      requires Valid() && len <= |Contents()|
      modifies this`reader, this`writer
      ensures Valid() && s == old(Contents())[..len] && Contents() == old(Contents())[len..]
    {
      s := buffer[reader..reader + len];
      assert s == Contents()[..len];
      Retrieve(len);
    }

    /** The growing half of makeSpace: vector::resize. */
    method Resize(size: nat)
      requires Valid() && buffer.Length <= size
      modifies this`buffer
      ensures Valid() && fresh(buffer) && buffer.Length == size && Contents() == old(Contents())
    {
      var bigger := new Byte[size](_ => 0);
      forall i | 0 <= i < buffer.Length {
        bigger[i] := buffer[i];
      }
      buffer := bigger;
    }

    /** The moving half of makeSpace: std::copy onto overlapping memory, front to back. */
    method MoveToFront()
      requires Valid() && CHEAP_PREPEND < reader
      modifies this`reader, this`writer, buffer
      ensures Valid() && reader == CHEAP_PREPEND && Contents() == old(Contents())
    {
      var readable := writer - reader;
      ghost var was := Contents();
      var i := 0;
      while i < readable
        invariant 0 <= i <= readable && readable == |was|
        invariant buffer[CHEAP_PREPEND..CHEAP_PREPEND + i] == was[..i]
        invariant forall j :: i <= j < readable ==> buffer[reader + j] == was[j]
        modifies buffer
      {
        buffer[CHEAP_PREPEND + i] := buffer[reader + i];
        i := i + 1;
      }
      reader := CHEAP_PREPEND;
      writer := reader + readable;
      assert was[..readable] == was;
    }

    method MakeSpace(len: nat)
      requires Valid() && WritableBytes() < len
      modifies this, buffer
      ensures Valid() && (buffer == old(buffer) || fresh(buffer)) && WritableBytes() >= len && Contents() == old(Contents())
    {
      if WritableBytes() + reader < len + CHEAP_PREPEND {
        Resize(writer + len);
      } else {
        assert CHEAP_PREPEND < reader; // the assertion the library makes here
        MoveToFront();
      }
    }

    method EnsureWritableBytes(len: nat)
      requires Valid()
      modifies this, buffer
      ensures Valid() && (buffer == old(buffer) || fresh(buffer)) && WritableBytes() >= len && Contents() == old(Contents())
    {
      if WritableBytes() < len {
        MakeSpace(len);
      }
    }

    /** Copy data behind the writer index and move it: beginWrite and hasWritten. */
    method CopyIn(data: seq<Byte>)
      requires Valid() && |data| <= WritableBytes()
      modifies this`writer, buffer
      ensures Valid() && buffer == old(buffer) && Contents() == old(Contents()) + data
    {
      forall i | 0 <= i < |data| {
        buffer[writer + i] := data[i];
      }
      writer := writer + |data|;
    }

    method Append(data: seq<Byte>)
      requires Valid()
      modifies this, buffer
      ensures Valid() && (buffer == old(buffer) || fresh(buffer)) && Contents() == old(Contents()) + data
    {
      EnsureWritableBytes(|data|);
      CopyIn(data);
    }

    method Unwrite(len: nat)
      requires Valid() && len <= |Contents()|
      modifies this`writer
      ensures Valid() && Contents() == old(Contents())[..|old(Contents())| - len]
    {
      writer := writer - len;
    }

    method Prepend(data: seq<Byte>)
      requires Valid() && |data| <= reader
      modifies this`reader, buffer
      ensures Valid() && Contents() == data + old(Contents())
    {
      reader := reader - |data|;
      forall i | 0 <= i < |data| {
        buffer[reader + i] := data[i];
      }
    }

    /** shrink: a new buffer takes over the contents. */
    method Shrink(reserve: nat)
      requires Valid()
      modifies this, buffer
      ensures Valid() && fresh(buffer) && Contents() == old(Contents()) && WritableBytes() >= reserve
    {
      var other := new Buffer();
      other.EnsureWritableBytes(ReadableBytes() + reserve);
      other.CopyIn(buffer[reader..writer]);
      Seqs.EmptyLeft(Contents());
      buffer, reader, writer := other.buffer, other.reader, other.writer;
    }

    method AppendInt(x: int, k: nat)
      requires Valid()
      modifies this, buffer
      ensures Valid() && (buffer == old(buffer) || fresh(buffer)) && Contents() == old(Contents()) + ToBytes(x, k)
    {
      Append(ToBytes(x, k));
    }

    method PeekInt(k: nat) returns (x: int)
      requires Valid() && k <= |Contents()|
      ensures x == Signed(Contents()[..k])
    {
      assert buffer[reader..reader + k] == Contents()[..k];
      x := Signed(buffer[reader..reader + k]);
    }

    method ReadInt(k: nat) returns (x: int)
      requires Valid() && k <= |Contents()|
      modifies this`reader, this`writer
      ensures Valid() && x == Signed(old(Contents())[..k]) && Contents() == old(Contents())[k..]
    {
      x := PeekInt(k);
      Retrieve(k);
    }

    /** readFd: what does not fit behind the writer index goes to a second segment and is appended from there. */
    method ReadFd(conn: Connection) returns (n: int)
      requires Valid()
      modifies this, buffer, conn`pending
      ensures Valid() && (buffer == old(buffer) || fresh(buffer)) && -1 <= n <= |old(conn.pending)|
      ensures n > 0 ==> Contents() == old(Contents()) + old(conn.pending)[..n] && conn.pending == old(conn.pending)[n..]
      ensures n <= 0 ==> Contents() == old(Contents()) && conn.pending == old(conn.pending)
      ensures !conn.faulty ==> n >= 0 && (n == 0 <==> old(conn.pending) == [])
    {
      var writable := WritableBytes();
      var limit := if writable < EXTRA then writable + EXTRA else writable;
      if conn.faulty {
        n :| -1 <= n <= limit && n <= |conn.pending|;
      } else if conn.pending == [] {
        n := 0;
      } else {
        n :| 1 <= n <= limit && n <= |conn.pending|;
      }
      if n <= 0 {
        return;
      }
      var data := conn.pending[..n];
      conn.pending := conn.pending[n..];
      if n <= writable {
        CopyIn(data);
      } else {
        CopyIn(data[..writable]);
        Seqs.Assoc(old(Contents()), data[..writable], data[writable..]);
        Append(data[writable..]);
      }
    }
  }
}
