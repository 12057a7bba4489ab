/** The response side of the muduo codec (mucgi/fastcgi.cpp): respond, endStdout and endRequest. */
module Respond {
  import opened Bytes
  import opened Records
  import Seqs
  import opened Buffers

  // ---------- What a response is ----------

  /** The page sent in place of an empty output. */
  function EmptyAnswer(): (s: seq<Byte>)
    ensures 0 < |s| <= MAX_LENGTH
  {
    Ascii("Content-Type: text/html; charset=UTF-8\r\n" + "Content-Length: 13\r\n\r\n" + "Empty Result!")
  }

  function Answer(out: seq<Byte>): (s: seq<Byte>)
    ensures s != []
  {
    if out == [] then EmptyAnswer() else out
  }

  /** A stdout record of request 1, padded to a multiple of eight bytes. */
  function Stdout(content: seq<Byte>): (r: Record)
    requires |content| <= MAX_LENGTH
    ensures r.Valid()
  {
    Record(STDOUT, 1, content, Zeros(Pad8(|content|)), 0)
  }

  /** Stdout records carrying s, each but the last as long as a record can be. */
  function Stdouts(s: seq<Byte>): (rs: seq<Record>)
    ensures AllValid(rs)
  {
    if s == [] then []
    else if |s| <= MAX_LENGTH then [Stdout(s)]
    else [Stdout(s[..MAX_LENGTH])] + Stdouts(s[MAX_LENGTH..])
  }

  function Closing(): (rs: seq<Record>)
    ensures AllValid(rs)
  {
    [Record(STDOUT, 1, [], [], 0), EndRequest(1, 0, REQUEST_COMPLETE)]
  }

  function Response(out: seq<Byte>): (rs: seq<Record>)
    ensures AllValid(rs)
  {
    Stdouts(Answer(out)) + Closing()
  }

  /** All content bytes of the records, in order. */
  function Contents(rs: seq<Record>): seq<Byte> {
    if rs == [] then [] else rs[0].content + Contents(rs[1..])
  }

  predicate WellFormed(r: Record) {
    r.rtype == STDOUT && r.id == 1 && 0 < |r.content| <= MAX_LENGTH && Size(r) % 8 == 0
    && |r.padding| < 8 && r.padding == Zeros(|r.padding|)
  }

  lemma {:induction false} StdoutsCarry(s: seq<Byte>)
    ensures Contents(Stdouts(s)) == s
    ensures forall r :: r in Stdouts(s) ==> WellFormed(r)
    ensures |Stdouts(s)| == (|s| + MAX_LENGTH - 1) / MAX_LENGTH
  {
    if 0 < |s| <= MAX_LENGTH {
      assert Contents([Stdout(s)]) == s + Contents([]);
      Seqs.EmptyLeft(s);
    } else if |s| > MAX_LENGTH {
      var head, rest := s[..MAX_LENGTH], s[MAX_LENGTH..];
      StdoutsCarry(rest);
      assert ([Stdout(head)] + Stdouts(rest))[1..] == Stdouts(rest);
    }
  }

  /**
   * Cutting what respond sent into records as parseRequest does leaves nothing over, and the
   * records are stdout records carrying the output, as few as can carry it, each a multiple of
   * eight bytes long, then one empty stdout record, then one end-request record.
   */
  lemma ResponseTheorem(out: seq<Byte>)
    ensures var (rs, rest) := Frames(EncodeAll(Response(out)));
            && rest == [] && |rs| >= 3
            && var n := |rs| - 2;
               && (forall r :: r in rs[..n] ==> WellFormed(r))
               && Contents(rs[..n]) == (if out == [] then EmptyAnswer() else out)
               && (n - 1) * MAX_LENGTH < |Contents(rs[..n])|
               && rs[n] == Record(STDOUT, 1, [], [], 0)
               && rs[n + 1] == Record(END_REQUEST, 1, Zeros(8), [], 0)
  {
    hide EmptyAnswer;
    hide Stdouts;
    hide EncodeAll;
    hide Frames;
    hide WellFormed;
    hide Contents;
    FramesAll(Response(out));
    StdoutsCarry(Answer(out));
    var rs := Response(out);
    assert rs[..|rs| - 2] == Stdouts(Answer(out));
    ClosingIs();
  }

  lemma ClosingIs()
    ensures Closing() == [Record(STDOUT, 1, [], [], 0), Record(END_REQUEST, 1, Zeros(8), [], 0)]
  {
    assert EndRequest(1, 0, REQUEST_COMPLETE).content == Zeros(8);
  }

  // ---------- The code ----------

  method AppendRecord(response: Buffer, rtype: Byte, content: seq<Byte>, padding: nat)
    requires response.Valid() && |content| <= MAX_LENGTH && padding <= 8
    modifies response, response.buffer
    ensures response.Valid() && (response.buffer == old(response.buffer) || fresh(response.buffer))
    ensures response.Contents() == old(response.Contents()) + Encode(Record(rtype, 1, content, Zeros(padding), 0))
  {
    hide response.Contents;
    ghost var before := response.Contents();
    var header := MakeHeader(rtype, 1, |content|, padding, 0);
    hide MakeHeader;
    response.Append(header);
    response.Append(content);
    response.Append(Zeros(8)[..padding]);
    assert Zeros(8)[..padding] == Zeros(padding);
    Seqs.Assoc(before, header, content);
    Seqs.Assoc(before, header + content, Zeros(padding));
  }

  method EndStdout(buf: Buffer)
    requires buf.Valid()
    modifies buf, buf.buffer
    ensures buf.Valid() && (buf.buffer == old(buf.buffer) || fresh(buf.buffer))
    ensures buf.Contents() == old(buf.Contents()) + Encode(Record(STDOUT, 1, [], [], 0))
  {
    var header := MakeHeader(STDOUT, 1, 0, 0, 0);
    assert Encode(Record(STDOUT, 1, [], [], 0)) == header;
    buf.Append(header);
  }

  method EndRequestRecord(buf: Buffer)
    requires buf.Valid()
    modifies buf, buf.buffer
    ensures buf.Valid() && (buf.buffer == old(buf.buffer) || fresh(buf.buffer))
    ensures buf.Contents() == old(buf.Contents()) + Encode(EndRequest(1, 0, REQUEST_COMPLETE))
  {
    hide buf.Contents;
    ghost var before := buf.Contents();
    var header := MakeHeader(END_REQUEST, 1, HEADER_LEN, 0, 0);
    buf.Append(header);
    buf.AppendInt(0, 4);
    buf.AppendInt(0, 4);
    ZeroInt();
    Seqs.Assoc(before, header, ToBytes(0, 4));
    Seqs.Assoc(before, header + ToBytes(0, 4), ToBytes(0, 4));
    EndRequestBytes(header);
  }

  lemma ZeroInt()
    ensures ToBytes(0, 4) == [0, 0, 0, 0]
  {
    assert ToBytes(0, 1) == ToBytes(0, 0) + [0] == [0];
    assert ToBytes(0, 2) == ToBytes(0, 1) + [0] == [0, 0];
    assert ToBytes(0, 3) == ToBytes(0, 2) + [0] == [0, 0, 0];
  }

  lemma EndRequestBytes(header: seq<Byte>)
    requires header == MakeHeader(END_REQUEST, 1, HEADER_LEN, 0, 0)
    ensures header + [0, 0, 0, 0] + [0, 0, 0, 0] == Encode(EndRequest(1, 0, REQUEST_COMPLETE))
  {
    hide MakeHeader;
    var r := EndRequest(1, 0, REQUEST_COMPLETE);
    assert r.content == [0, 0, 0, 0] + [0, 0, 0, 0];
  }

  lemma StdoutsStep(s: seq<Byte>, from: nat, before: seq<Byte>)
    requires from + MAX_LENGTH <= |s|
    ensures before + Encode(Stdout(s[from..from + MAX_LENGTH])) + EncodeAll(Stdouts(s[from + MAX_LENGTH..]))
            == before + EncodeAll(Stdouts(s[from..]))
  {
    hide Encode;
    var piece, rest := s[from..from + MAX_LENGTH], s[from + MAX_LENGTH..];
    assert s[from..][..MAX_LENGTH] == piece;
    assert s[from..][MAX_LENGTH..] == rest;
    if rest == [] {
      assert s[from..] == piece;
    }
    assert Stdouts(s[from..]) == [Stdout(piece)] + Stdouts(rest);
    EncodeAllAppend([Stdout(piece)], Stdouts(rest));
    EncodeAllOne(Stdout(piece));
    Seqs.Assoc(before, Encode(Stdout(piece)), EncodeAll(Stdouts(rest)));
  }

  /** The stdout part of respond. */
  method AppendOutput(out: seq<Byte>, response: Buffer)
    requires response.Valid() && out != []
    modifies response, response.buffer
    ensures response.Valid() && (response.buffer == old(response.buffer) || fresh(response.buffer))
    ensures response.Contents() == old(response.Contents()) + EncodeAll(Stdouts(out))
  {
    hide Encode;
    hide EncodeAll;
    hide response.Contents;
    ghost var before := response.Contents();
    if |out| <= MAX_LENGTH {
      AppendRecord(response, STDOUT, out, Pad8(|out|));
      EncodeAllOne(Stdout(out));
    } else {
      var numSubstrings := |out| / MAX_LENGTH;
      var i := 0;
      assert out[0..] == out;
      while i < numSubstrings
        invariant i <= numSubstrings && response.Valid()
        invariant response.buffer == old(response.buffer) || fresh(response.buffer)
        invariant response.Contents() + EncodeAll(Stdouts(out[i * MAX_LENGTH..])) == before + EncodeAll(Stdouts(out))
      {
        var from := i * MAX_LENGTH;
        var piece := out[from..from + MAX_LENGTH];
        StdoutsStep(out, from, response.Contents());
        AppendRecord(response, STDOUT, piece, Pad8(MAX_LENGTH));
        i := i + 1;
      }
      var rest := out[MAX_LENGTH * numSubstrings..];
      if |out| % MAX_LENGTH != 0 {
        AppendRecord(response, STDOUT, rest, Pad8(|rest|));
        EncodeAllOne(Stdout(rest));
      } else {
        NothingLeft(response.Contents());
      }
    }
  }

  lemma NothingLeft(s: seq<Byte>)
    ensures s + EncodeAll(Stdouts([])) == s
  {
  }

  /** respond: the output, which the call replaces when it is empty, goes to the buffer as one response. */
  method RespondTo(out: seq<Byte>, response: Buffer) returns (sent: seq<Byte>)
    requires response.Valid()
    modifies response, response.buffer
    ensures response.Valid() && (response.buffer == old(response.buffer) || fresh(response.buffer))
    ensures sent == Answer(out)
    ensures response.Contents() == old(response.Contents()) + EncodeAll(Response(out))
  {
    hide Encode;
    hide EncodeAll;
    hide EmptyAnswer;
    hide response.Contents;
    ghost var before := response.Contents();
    sent := if out == [] then EmptyAnswer() else out;
    AppendOutput(sent, response);
    EndStdout(response);
    EndRequestRecord(response);
    Closed(before, out);
  }

  lemma Closed(before: seq<Byte>, out: seq<Byte>)
    ensures before + EncodeAll(Stdouts(Answer(out))) + Encode(Record(STDOUT, 1, [], [], 0))
            + Encode(EndRequest(1, 0, REQUEST_COMPLETE)) == before + EncodeAll(Response(out))
  {
    hide Encode;
    hide EmptyAnswer;
    var body := Stdouts(Answer(out));
    var a, b := Record(STDOUT, 1, [], [], 0), EndRequest(1, 0, REQUEST_COMPLETE);
    EncodeAllAppend(body, [a, b]);
    assert [a, b] == [a] + [b];
    EncodeAllAppend([a], [b]);
    EncodeAllOne(a);
    EncodeAllOne(b);
    hide EncodeAll;
    Seqs.Assoc(before, EncodeAll(body), Encode(a));
    Seqs.Assoc(before, EncodeAll(body) + Encode(a), Encode(b));
    Seqs.Assoc(EncodeAll(body), Encode(a), Encode(b));
  }
}
