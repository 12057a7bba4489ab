/** mucgi's FastCgiCodec: an incremental request parser and a response printer over Buffers. */
module RequestCodec {
  import opened Bytes
  import opened Records
  import opened Buffers
  import NV = NameValue
  import Seqs

  const RESPONDER := 1
  /** readLen's failure value, (uint32_t)-1. */
  const NO_LEN: nat := 0xffff_ffff

  type ParamMap = map<seq<Byte>, seq<Byte>>

  /** The codec's fields as a value. */
  datatype State = State(stdin: seq<Byte>, stream: seq<Byte>, params: ParamMap, got: bool, keep: bool)

  /** What one whole record does to the codec; its version and id are not looked at. */
  function OnRecord(st: State, r: Record): State {
    if r.rtype == BEGIN_REQUEST then
      if |r.content| >= HEADER_LEN && U16(r.content[0], r.content[1]) == RESPONDER
      then st.(keep := r.content[2] == 1) else st
    else if r.rtype == PARAMS then
      if r.content != [] then st.(stream := st.stream + r.content)
      else
        var d := NV.Decode(st.stream);
        st.(params := st.params + NV.ToMap(d.pairs), stream := d.rest)
    else if r.rtype == STDIN then
      if r.content != [] then st.(stdin := st.stdin + r.content) else st.(got := true)
    else st
  }

  function Process(st: State, rs: seq<Record>): State
    decreases |rs|
  {
    if rs == [] then st else Process(OnRecord(st, rs[0]), rs[1..])
  }

  lemma {:induction false} ProcessAppend(st: State, a: seq<Record>, b: seq<Record>)
    ensures Process(st, a + b) == Process(Process(st, a), b)
    decreases |a|
  {
    if a == [] {
      Seqs.EmptyLeft(b);
    } else {
      Seqs.ConsAppend(a, b);
      ProcessAppend(OnRecord(st, a[0]), a[1..], b);
    }
  }

  // ---------- Parameters ----------

  lemma {:induction false} ToMapAppend(a: seq<NV.Pair>, p: NV.Pair)
    ensures NV.ToMap(a + [p]) == NV.ToMap(a)[p.name := p.value]
  {
    assert (a + [p])[..|a|] == a;
  }

  lemma PutLast(m: ParamMap, a: seq<NV.Pair>, p: NV.Pair)
    ensures (m + NV.ToMap(a))[p.name := p.value] == m + NV.ToMap(a + [p])
  {
    ToMapAppend(a, p);
    hide NV.ToMap;
  }

  lemma MaskedInt32(s: seq<Byte>)
    requires |s| == 4
    ensures Signed(s) % 0x8000_0000 == U31(s[0], s[1], s[2], s[3])
  {
    var a: int, b: int, c: int, d: int := s[0], s[1], s[2], s[3];
    assert s[..3][..2] == s[..2] && s[..2][..1] == s[..1] && s[..1][..0] == [];
    assert Unsigned(s[..1]) == a;
    assert Unsigned(s[..2]) == a * 256 + b;
    assert Unsigned(s[..3]) == (a * 256 + b) * 256 + c;
    assert Unsigned(s) == ((a * 256 + b) * 256 + c) * 256 + d;
    assert Pow256(4) == 0x1_0000_0000 by {
      assert Pow256(1) == 256 && Pow256(2) == 0x1_0000 && Pow256(3) == 0x100_0000;
    }
    assert a >= 128 ==> a == 128 + a % 128;
    assert a < 128 ==> a == a % 128;
  }

  lemma SmallInt8(s: seq<Byte>)
    requires |s| == 1
    ensures Signed(s) % 256 == s[0] && (s[0] < 128 ==> Signed(s) == s[0])
  {
    assert s[..0] == [];
    assert Unsigned(s) == s[0];
    assert Pow256(1) == 256;
  }

  // ---------- Sessions ----------

  /** One invocation of the callback. */
  datatype Call = Call(params: ParamMap, stdin: seq<Byte>)

  /** A codec, what is left in its connection's input buffer, and what it has done to the outside. */
  datatype Session = Session(st: State, buf: seq<Byte>, calls: seq<Call>, shutdowns: nat)

  /** onMessage with these bytes in the input buffer. */
  function Message(s: Session, bytes: seq<Byte>): Session {
    var (rs, rest) := Frames(bytes);
    var st := Process(s.st, rs);
    if st.got then
      Session(State([], [], map[], false, st.keep), rest, s.calls + [Call(st.params, st.stdin)],
              if st.keep then s.shutdowns else s.shutdowns + 1)
    else
      Session(st, rest, s.calls, s.shutdowns)
  }

  /** The two lengths of a pair, each place named by what is left. */
  lemma LensTaken(s: seq<Byte>)
    ensures s[0..] == s
    ensures var n := NV.ReadLen(s);
            if n.NoLen? then NV.ReadPair(s) == NV.Bad(0)
            else
              var s1 := s[n.used..];
              var v := NV.ReadLen(s1);
              if v.NoLen? then NV.ReadPair(s) == NV.Bad(|s| - |s1|) && s1 == s[|s| - |s1|..]
              else
                var s2 := s1[v.used..];
                NV.ReadPair(s) == NV.Body(s2, n.n, v.n, |s| - |s2|) && s2 == s[|s| - |s2|..]
  {
    hide NV.ReadLen;
    hide NV.ReadPair;
    hide NV.Body;
    NV.PairParts(s);
    var n := NV.ReadLen(s);
    if n.Len? && NV.ReadLen(s[n.used..]).Len? {
      Seqs.DropDrop(s, n.used, NV.ReadLen(s[n.used..]).used);
    }
  }

  lemma PairTaken(s: seq<Byte>, used: nat, nameLen: nat, valueLen: nat)
    requires used <= |s|
    ensures var t := s[used..];
            var r := NV.Body(t, nameLen, valueLen, used);
            if |t| < nameLen + valueLen then r == NV.Bad(used)
            else
              && r == NV.Got(NV.Pair(t[..nameLen], t[nameLen..][..valueLen]), used + (nameLen + valueLen))
              && s[used + (nameLen + valueLen)..] == t[nameLen + valueLen..]
  {
    if used + (nameLen + valueLen) <= |s| {
      Seqs.DropDrop(s, used, nameLen + valueLen);
    }
  }

  class FastCgiCodec {
    var calls: seq<Call>
    var shutdowns: nat
    const stdin: Buffer
    const stream: Buffer
    var params: ParamMap
    var got: bool
    var keep: bool

    ghost predicate Valid()
      reads this, stdin, stream
    {
      stdin.Valid() && stream.Valid() && stdin != stream && stdin.buffer != stream.buffer
    }

    ghost function St(): State
      requires Valid()
      reads this, stdin, stream, stdin.buffer, stream.buffer
    {
      State(stdin.Contents(), stream.Contents(), params, got, keep)
    }

    constructor ()
      ensures Valid() && St() == State([], [], map[], false, false) && calls == [] && shutdowns == 0
      ensures fresh(stdin) && fresh(stream) && fresh(stdin.buffer) && fresh(stream.buffer)
    {
      stdin := new Buffer();
      stream := new Buffer();
      params, got, keep := map[], false, false;
      calls, shutdowns := [], 0;
    }

    /** readLen: a length below 2^31, or the failure value, which no length can be. */
    method ReadLen() returns (n: nat)
      requires stream.Valid()
      modifies stream`reader, stream`writer
      ensures stream.Valid()
      ensures var l := NV.ReadLen(old(stream.Contents()));
              if l.NoLen? then n == NO_LEN && stream.Contents() == old(stream.Contents())
              else n == l.n < 0x8000_0000 && stream.Contents() == old(stream.Contents())[l.used..]
    {
      ghost var s := stream.Contents();
      if stream.ReadableBytes() >= 1 {
        var b := stream.PeekInt(1);
        SmallInt8(s[..1]);
        if b % 256 >= 128 {
          if stream.ReadableBytes() >= 4 {
            MaskedInt32(s[..4]);
            var x := stream.ReadInt(4);
            n := x % 0x8000_0000;
          } else {
            n := NO_LEN;
          }
        } else {
          n := stream.ReadInt(1);
        }
      } else {
        n := NO_LEN;
      }
    }

    /** parseAllParams, both lengths of a pair. */
    method ReadLens() returns (ok: bool, nameLen: nat, valueLen: nat)
      requires stream.Valid()
      modifies stream`reader, stream`writer
      ensures stream.Valid()
      ensures var s := old(stream.Contents());
              var r := NV.ReadPair(s);
              var used := |s| - |stream.Contents()|;
              && 0 <= used <= |s| && stream.Contents() == s[used..]
              && (!ok ==> r == NV.Bad(used))
              && (ok ==> r == NV.Body(stream.Contents(), nameLen, valueLen, used) && nameLen < 0x8000_0000 && valueLen < 0x8000_0000)
    {
      hide NV.ReadLen;
      hide NV.ReadPair;
      hide NV.Body;
      hide stream.Contents;
      LensTaken(stream.Contents());
      valueLen := 0;
      nameLen := ReadLen();
      if nameLen == NO_LEN {
        return false, 0, 0;
      }
      valueLen := ReadLen();
      if valueLen == NO_LEN {
        return false, 0, 0;
      }
      ok := true;
    }

    /** parseAllParams, the name and the value: the sum of the lengths cannot wrap 32 bits. */
    method ReadTexts(nameLen: nat, valueLen: nat) returns (ok: bool, name: seq<Byte>, value: seq<Byte>)
      requires stream.Valid() && nameLen < 0x8000_0000 && valueLen < 0x8000_0000
      modifies stream`reader, stream`writer
      ensures stream.Valid()
      ensures var t := old(stream.Contents());
              && (ok <==> |t| >= nameLen + valueLen)
              && (ok ==> name == t[..nameLen] && value == t[nameLen..][..valueLen] && stream.Contents() == t[nameLen + valueLen..])
              && (!ok ==> stream.Contents() == t)
    {
      name, value := [], [];
      ghost var t := stream.Contents();
      ok := stream.ReadableBytes() >= (nameLen + valueLen) % 0x1_0000_0000;
      if ok {
        name := stream.RetrieveAsString(nameLen);
        value := stream.RetrieveAsString(valueLen);
        Seqs.DropDrop(t, nameLen, valueLen);
      }
    }

    /** One turn of parseAllParams' loop. */
    method ReadPair() returns (ok: bool, name: seq<Byte>, value: seq<Byte>)
      requires stream.Valid()
      modifies stream`reader, stream`writer
      ensures stream.Valid()
      ensures var r := NV.ReadPair(old(stream.Contents()));
              && (ok <==> r.Got?) && stream.Contents() == old(stream.Contents())[r.used..]
              && (ok ==> r.pair == NV.Pair(name, value))
    {
      hide NV.ReadPair;
      hide NV.Body;
      hide stream.Contents;
      ghost var s := stream.Contents();
      name, value := [], [];
      var nameLen, valueLen;
      ok, nameLen, valueLen := ReadLens();
      if ok {
        ghost var used := |s| - |stream.Contents()|;
        PairTaken(s, used, nameLen, valueLen);
        ok, name, value := ReadTexts(nameLen, valueLen);
      }
    }

    /** parseAllParams. */
    method ParseAllParams() returns (ok: bool)
      requires Valid()
      modifies this`params, stream`reader, stream`writer
      ensures Valid()
      ensures var d := NV.Decode(old(stream.Contents()));
              ok == d.ok && stream.Contents() == d.rest && params == old(params) + NV.ToMap(d.pairs)
    {
      hide NV.Decode;
      hide NV.ReadPair;
      hide NV.Prefixed;
      hide NV.ToMap;
      hide stream.Contents;
      ghost var s := stream.Contents();
      ghost var pos := 0;
      ghost var found: seq<NV.Pair> := [];
      Starts(s);
      while stream.ReadableBytes() > 0
        invariant Valid() && pos <= |s| && stream.Contents() == s[pos..]
        invariant NV.Decode(s) == NV.Prefixed(found, NV.Decode(s[pos..]))
        invariant params == old(params) + NV.ToMap(found)
        decreases |s| - pos
      {
        NV.DecodeStep(s, pos, found);
        var more, name, value := ReadPair();
        ghost var r := NV.ReadPair(s[pos..]);
        if !more {
          return false;
        }
        PutLast(old(params), found, r.pair);
        params := params[name := value];
        Seqs.DropDrop(s, pos, r.used);
        found := found + [r.pair];
        pos := pos + r.used;
      }
      NV.DecodeStep(s, pos, found);
      return true;
    }

    lemma Starts(s: seq<Byte>)
      ensures s[0..] == s && NV.Decode(s) == NV.Prefixed([], NV.Decode(s[0..])) && NV.ToMap([]) == map[]
    {
      assert s[0..] == s;
      Seqs.EmptyLeft(NV.Decode(s).pairs);
    }

    /** The codec keeps its own buffers or grows into new ones. */
    twostate predicate Owns()
      reads this, stdin, stream
    {
      && (stdin.buffer == old(stdin.buffer) || fresh(stdin.buffer))
      && (stream.buffer == old(stream.buffer) || fresh(stream.buffer))
    }

    /** onBeginRequest, onParams and onStdin behind parseRequest's switch. */
    method Dispatch(rtype: Byte, content: seq<Byte>, ghost r: Record)
      requires Valid() && r.rtype == rtype && r.content == content
      modifies this`params, this`got, this`keep, stdin, stream, stdin.buffer, stream.buffer
      ensures Valid() && Owns() && St() == OnRecord(old(St()), r)
    {
      hide NV.Decode;
      if rtype == BEGIN_REQUEST {
        if |content| >= HEADER_LEN {
          var role := U16(content[0], content[1]);
          if role == RESPONDER {
            keep := content[2] == 1;
          }
        }
      } else if rtype == PARAMS {
        if |content| > 0 {
          stream.Append(content);
        } else {
          var ok := ParseAllParams();
        }
      } else if rtype == STDIN {
        if |content| > 0 {
          stdin.Append(content);
        } else {
          got := true;
        }
      }
    }

    ghost predicate Apart(buf: Buffer)
      reads this, stdin, stream, buf
    {
      && Valid() && buf.Valid() && buf != stdin && buf != stream
      && buf.buffer != stdin.buffer && buf.buffer != stream.buffer
    }

    /** One turn of parseRequest's loop: a whole record at the front is processed, a partial one stays. */
    method OneRecord(buf: Buffer) returns (whole: bool)
      requires Apart(buf) && |buf.Contents()| >= HEADER_LEN
      modifies this`params, this`got, this`keep, stdin, stream, stdin.buffer, stream.buffer, buf`reader, buf`writer
      ensures Apart(buf) && Owns()
      ensures var r := FirstRecord(old(buf.Contents()));
              && (whole <==> r.Some?)
              && (whole ==> St() == OnRecord(old(St()), r.value) && buf.Contents() == old(buf.Contents())[Size(r.value)..])
              && (!whole ==> St() == old(St()) && buf.Contents() == old(buf.Contents()))
    {
      hide OnRecord;
      hide FirstRecord;
      ghost var bytes := buf.Contents();
      var h := ParseHeader(buf.buffer[buf.reader..buf.writer]);
      var total := HEADER_LEN + h.contentLen + h.paddingLen;
      whole := buf.ReadableBytes() >= total;
      if whole {
        var content := buf.buffer[buf.reader..buf.writer][HEADER_LEN..][..h.contentLen];
        WholeRecord(bytes);
        Dispatch(h.rtype, content, FirstRecord(bytes).value);
        buf.Retrieve(total);
      } else {
        PartRecord(bytes);
      }
    }

    /** parseRequest: every whole record in the buffer is consumed, a partial one stays. */
    method ParseRequest(buf: Buffer)
      requires Apart(buf)
      modifies this`params, this`got, this`keep, stdin, stream, stdin.buffer, stream.buffer, buf`reader, buf`writer
      ensures Apart(buf) && Owns()
      ensures var (rs, rest) := Frames(old(buf.Contents()));
              St() == Process(old(St()), rs) && buf.Contents() == rest
    {
      hide OnRecord;
      hide FirstRecord;
      hide Frames;
      hide Process;
      hide buf.Contents;
      ghost var st0, bytes0 := St(), buf.Contents();
      while buf.ReadableBytes() >= HEADER_LEN
        invariant Apart(buf) && Owns()
        invariant Process(St(), Frames(buf.Contents()).0) == Process(st0, Frames(bytes0).0)
        invariant Frames(buf.Contents()).1 == Frames(bytes0).1
        decreases |buf.Contents()|
      {
        NextRecord(buf.Contents(), St());
        var whole := OneRecord(buf);
        if !whole {
          return;
        }
      }
      ShortRest(buf.Contents());
      NextRecord(buf.Contents(), St());
    }

    lemma ShortRest(s: seq<Byte>)
      requires |s| < HEADER_LEN
      ensures FirstRecord(s) == None
    {
    }

    lemma PartRecord(s: seq<Byte>)
      requires |s| >= HEADER_LEN && |s| < HEADER_LEN + ParseHeader(s).contentLen + ParseHeader(s).paddingLen
      ensures FirstRecord(s) == None
    {
    }

    lemma WholeRecord(s: seq<Byte>)
      requires |s| >= HEADER_LEN && |s| >= HEADER_LEN + ParseHeader(s).contentLen + ParseHeader(s).paddingLen
      ensures var h := ParseHeader(s);
              && FirstRecord(s).Some?
              && var r := FirstRecord(s).value;
                 && r.rtype == h.rtype && r.content == s[HEADER_LEN..][..h.contentLen]
                 && Size(r) == HEADER_LEN + h.contentLen + h.paddingLen
    {
      hide ParseHeader;
    }

    lemma NextRecord(s: seq<Byte>, st: State)
      ensures if FirstRecord(s).None? then Frames(s) == ([], s) && Process(st, []) == st
              else
                var r := FirstRecord(s).value;
                && Process(st, Frames(s).0) == Process(OnRecord(st, r), Frames(s[Size(r)..]).0)
                && Frames(s).1 == Frames(s[Size(r)..]).1
    {
      hide FirstRecord;
      hide OnRecord;
      if FirstRecord(s).Some? {
        var r := FirstRecord(s).value;
        var more := Frames(s[Size(r)..]).0;
        assert ([r] + more)[1..] == more;
      }
    }

    ghost function Now(buf: Buffer): Session
      requires Apart(buf)
      reads this, stdin, stream, stdin.buffer, stream.buffer, buf, buf.buffer
    {
      Session(St(), buf.Contents(), calls, shutdowns)
    }

    /** onMessage: parse, then call back once if the request is complete and start afresh. */
    method OnMessage(buf: Buffer)
      requires Apart(buf)
      modifies this, stdin, stream, stdin.buffer, stream.buffer, buf`reader, buf`writer
      ensures Apart(buf) && Owns() && buf.buffer == old(buf.buffer)
      ensures Now(buf) == Message(old(Now(buf)), old(buf.Contents()))
    {
      hide Process;
      hide Frames;
      ParseRequest(buf);
      if got {
        calls := calls + [Call(params, stdin.buffer[stdin.reader..stdin.writer])];
        stdin.RetrieveAll();
        stream.RetrieveAll();
        params := map[];
        got := false;
        if !keep {
          shutdowns := shutdowns + 1;
        }
      }
    }
  }
}
