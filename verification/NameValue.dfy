/**
 Name-value pairs (section 3.4 of the FastCGI Specification 1.0). A length below 128 may be written
 in one byte or in four, a longer one in four with the top bit set; the sender chooses.
 */
module NameValue {
  import opened Bytes
  import Seqs

  datatype Pair = Pair(name: seq<Byte>, value: seq<Byte>)

  /** A pair together with the sender's choice of length forms. */
  datatype Item = Item(pair: Pair, longName: bool, longValue: bool) {
    predicate Valid() {
      LenOk(|pair.name|, longName) && LenOk(|pair.value|, longValue)
    }
  }

  predicate LenOk(n: nat, long: bool) {
    n < if long then 0x8000_0000 else 128
  }

  predicate AllValid(items: seq<Item>) {
    forall i :: 0 <= i < |items| ==> items[i].Valid()
  }

  function EncodeLen(n: nat, long: bool): (s: seq<Byte>)
    requires LenOk(n, long)
    ensures |s| == if long then 4 else 1
  {
    if long then [128 + n / 256 / 256 / 256, n / 256 / 256 % 256, n / 256 % 256, n % 256] else [n]
  }

  function EncodeItem(i: Item): seq<Byte>
    requires i.Valid()
  {
    EncodeLen(|i.pair.name|, i.longName) + (EncodeLen(|i.pair.value|, i.longValue) + (i.pair.name + i.pair.value))
  }

  function EncodeItems(items: seq<Item>): seq<Byte>
    requires AllValid(items)
  {
    if items == [] then [] else EncodeItem(items[0]) + EncodeItems(items[1..])
  }

  function Pairs(items: seq<Item>): (ps: seq<Pair>)
    ensures |ps| == |items|
  {
    if items == [] then [] else [items[0].pair] + Pairs(items[1..])
  }

  datatype Len = NoLen | Len(n: nat, used: nat)

  /** A length as both decoders read it: one byte, or four if the top bit of the first is set. */
  function ReadLen(s: seq<Byte>): (r: Len)
    ensures r.Len? ==> 1 <= r.used <= |s| && r.n < 0x8000_0000
  {
    if s == [] then NoLen
    else if s[0] < 128 then Len(s[0], 1)
    else if |s| < 4 then NoLen
    else Len(U31(s[0], s[1], s[2], s[3]), 4)
  }

  /** One turn of a decoder's loop: a whole pair, or a failure having consumed `used` bytes. */
  datatype Step = Got(pair: Pair, used: nat) | Bad(used: nat)

  function ReadPair(s: seq<Byte>): (r: Step)
    ensures r.used <= |s| && (r.Got? ==> r.used >= 2)
  {
    var n := ReadLen(s);
    if n.NoLen? then Bad(0)
    else
      var s1 := s[n.used..];
      var v := ReadLen(s1);
      if v.NoLen? then Bad(n.used)
      else
        var s2 := s1[v.used..];
        if |s2| < n.n + v.n then Bad(n.used + v.used)
        else Got(Pair(s2[..n.n], s2[n.n..][..v.n]), n.used + v.used + n.n + v.n)
  }

  /** What ReadPair says once both lengths are known. */
  function Body(t: seq<Byte>, nameLen: nat, valueLen: nat, used: nat): Step {
    if |t| < nameLen + valueLen then Bad(used)
    else Got(Pair(t[..nameLen], t[nameLen..][..valueLen]), used + nameLen + valueLen)
  }

  /** ReadPair, length by length. */
  lemma PairParts(t: seq<Byte>)
    ensures var n := ReadLen(t);
            if n.NoLen? then ReadPair(t) == Bad(0)
            else
              var v := ReadLen(t[n.used..]);
              if v.NoLen? then ReadPair(t) == Bad(n.used)
              else ReadPair(t) == Body(t[n.used..][v.used..], n.n, v.n, n.used + v.used)
  {
    hide ReadLen;
  }

  /** A decoder that has found the pairs got goes on with r. */
  function Prefixed(got: seq<Pair>, r: Decoded): Decoded {
    r.(pairs := got + r.pairs)
  }

  /** One turn of a decoder's loop at position pos. */
  lemma DecodeStep(data: seq<Byte>, pos: nat, got: seq<Pair>)
    requires pos <= |data|
    ensures var t := data[pos..];
            var r := ReadPair(t);
            if t == [] then
              Prefixed(got, Decode(t)) == Decoded(got, true, [])
            else if r.Bad? then
              Prefixed(got, Decode(t)) == Decoded(got, false, t[r.used..])
            else
              Prefixed(got, Decode(t)) == Prefixed(got + [r.pair], Decode(data[pos + r.used..]))
  {
    hide ReadPair;
    var t := data[pos..];
    var r := ReadPair(t);
    Seqs.EmptyLeft(got);
    if t != [] && r.Got? {
      Seqs.DropDrop(data, pos, r.used);
      Seqs.Assoc(got, [r.pair], Decode(t[r.used..]).pairs);
    }
  }

  /** Everything a decoder does with a parameter stream: the pairs found, whether all of it decoded, what is left. */
  datatype Decoded = Decoded(pairs: seq<Pair>, ok: bool, rest: seq<Byte>)

  function Decode(s: seq<Byte>): (r: Decoded)
    ensures r.ok ==> r.rest == []
    decreases |s|
  {
    if s == [] then Decoded([], true, [])
    else
      match ReadPair(s)
      case Bad(used) => Decoded([], false, s[used..])
      case Got(pair, used) =>
        var more := Decode(s[used..]);
        Decoded([pair] + more.pairs, more.ok, more.rest)
  }

  lemma ReadLenEncode(n: nat, long: bool, tail: seq<Byte>)
    requires LenOk(n, long)
    ensures ReadLen(EncodeLen(n, long) + tail) == Len(n, |EncodeLen(n, long)|)
    ensures (EncodeLen(n, long) + tail)[|EncodeLen(n, long)|..] == tail
  {
    var e := EncodeLen(n, long);
    var s := e + tail;
    if long {
      assert s[0] == e[0] && s[1] == e[1] && s[2] == e[2] && s[3] == e[3];
      assert e[0] % 128 == n / 256 / 256 / 256;
    }
  }

  lemma EncodeItemTail(i: Item, tail: seq<Byte>)
    requires i.Valid()
    ensures EncodeItem(i) + tail
            == EncodeLen(|i.pair.name|, i.longName)
               + (EncodeLen(|i.pair.value|, i.longValue) + ((i.pair.name + i.pair.value) + tail))
  {
    var a, b, c := EncodeLen(|i.pair.name|, i.longName), EncodeLen(|i.pair.value|, i.longValue), i.pair.name + i.pair.value;
    Seqs.Assoc(a, b + c, tail);
    Seqs.Assoc(b, c, tail);
  }

  lemma ReadPairEncode(i: Item, tail: seq<Byte>)
    requires i.Valid()
    ensures ReadPair(EncodeItem(i) + tail) == Got(i.pair, |EncodeItem(i)|)
    ensures (EncodeItem(i) + tail)[|EncodeItem(i)|..] == tail
  {
    var name, value := i.pair.name, i.pair.value;
    var s2 := (name + value) + tail;
    var s1 := EncodeLen(|value|, i.longValue) + s2;
    EncodeItemTail(i, tail);
    ReadLenEncode(|name|, i.longName, s1);
    ReadLenEncode(|value|, i.longValue, s2);
    Seqs.Assoc(name, value, tail);
    Seqs.TakeDropAppend(name, value + tail, |name|);
    Seqs.TakeDropAppend(value, tail, |value|);
  }

  /** Decoding undoes every encoding, whichever length forms the sender chose. */
  lemma {:induction false} DecodeEncode(items: seq<Item>)
    requires AllValid(items)
    ensures Decode(EncodeItems(items)) == Decoded(Pairs(items), true, [])
  {
    if items != [] {
      ReadPairEncode(items[0], EncodeItems(items[1..]));
      DecodeEncode(items[1..]);
    }
  }

  /** Conversely a stream decodes only if it is an encoding: the items are recovered from it. */
  lemma {:induction false} OkIsEncoding(s: seq<Byte>) returns (items: seq<Item>)
    requires Decode(s).ok
    ensures AllValid(items) && EncodeItems(items) == s && Pairs(items) == Decode(s).pairs
    decreases |s|
  {
    hide ReadPair;
    hide EncodeItem;
    hide EncodeItems;
    hide Pairs;
    if s == [] {
      items := [];
      NoItems();
    } else {
      var g := ReadPair(s);
      var more := OkIsEncoding(s[g.used..]);
      var item := ItemRead(s);
      items := [item] + more;
      ItemsCons(item, more);
      assert s[..g.used] + s[g.used..] == s;
    }
  }

  lemma NoItems()
    ensures EncodeItems([]) == [] && Pairs([]) == []
  {
  }

  lemma ItemsCons(item: Item, more: seq<Item>)
    requires item.Valid() && AllValid(more)
    ensures AllValid([item] + more)
    ensures EncodeItems([item] + more) == EncodeItem(item) + EncodeItems(more)
    ensures Pairs([item] + more) == [item.pair] + Pairs(more)
  {
    hide EncodeItem;
    assert ([item] + more)[1..] == more;
  }

  /** The item a successful step has read. */
  lemma ItemRead(s: seq<Byte>) returns (i: Item)
    requires ReadPair(s).Got?
    ensures i.Valid() && i.pair == ReadPair(s).pair && EncodeItem(i) == s[..ReadPair(s).used]
  {
    hide ReadLen;
    hide EncodeLen;
    hide LenOk;
    var n := ReadLen(s);
    var s1 := s[n.used..];
    var v := ReadLen(s1);
    var s2 := s1[v.used..];
    i := Item(ReadPair(s).pair, n.used == 4, v.used == 4);
    EncodeLenRead(s);
    EncodeLenRead(s1);
    Seqs.DropDrop(s2, n.n, v.n);
    Seqs.DropDrop(s1, v.used, n.n + v.n);
    Seqs.DropDrop(s, n.used, v.used + (n.n + v.n));
  }

  lemma EncodeLenRead(s: seq<Byte>)
    requires ReadLen(s).Len?
    ensures var l := ReadLen(s); LenOk(l.n, l.used == 4) && EncodeLen(l.n, l.used == 4) == s[..l.used]
  {
    var l := ReadLen(s);
    if l.used == 4 {
      var hi: int := s[0] % 128;
      assert s[0] == 128 + hi;
      assert l.n / 256 == (hi * 256 + s[1]) * 256 + s[2];
      assert l.n / 256 / 256 == hi * 256 + s[1];
      assert l.n / 256 / 256 / 256 == hi;
    }
  }

  /** The parameter map a list of pairs denotes: a later pair replaces an earlier one of the same name. */
  function ToMap(pairs: seq<Pair>): map<seq<Byte>, seq<Byte>> {
    if pairs == [] then map[]
    else
      var last := pairs[|pairs| - 1];
      ToMap(pairs[..|pairs| - 1])[last.name := last.value]
  }

  /** Last duplicate wins, and nothing else is in the map. */
  lemma {:induction false} ToMapLast(pairs: seq<Pair>, name: seq<Byte>)
    ensures name in ToMap(pairs) <==> exists i :: 0 <= i < |pairs| && pairs[i].name == name
    ensures forall i :: 0 <= i < |pairs| && pairs[i].name == name && (forall j :: i < j < |pairs| ==> pairs[j].name != name)
              ==> ToMap(pairs)[name] == pairs[i].value
  {
    if pairs != [] {
      var init := pairs[..|pairs| - 1];
      ToMapLast(init, name);
      assert forall i :: 0 <= i < |init| ==> init[i] == pairs[i];
    }
  }
}
