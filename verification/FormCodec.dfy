/**
 * The urlencoded form codec of cgicc (mucgi/cgicc_lib/CgiUtils.cpp and Cgicc.cpp), which follows
 * section 17.13.4.1 of HTML 4.01. Text is a byte string.
 */
module FormCodec {
  import opened Bytes
  import Seqs

  // ---------- Characters ----------

  predicate Upper(c: Byte) {
    'A' as int <= c <= 'Z' as int
  }

  predicate Lower(c: Byte) {
    'a' as int <= c <= 'z' as int
  }

  predicate Digit(c: Byte) {
    '0' as int <= c <= '9' as int
  }

  predicate Mark(c: Byte) {
    c == '-' as int || c == '_' as int || c == '.' as int || c == '!' as int || c == '~' as int
    || c == '*' as int || c == '\'' as int || c == '(' as int || c == ')' as int
  }

  /** The bytes the encoder lets through. */
  predicate Plain(c: Byte) {
    Upper(c) || Lower(c) || Digit(c) || Mark(c)
  }

  /** isxdigit in the C locale. */
  predicate IsXDigit(c: Byte) {
    Digit(c) || 'A' as int <= c <= 'F' as int || 'a' as int <= c <= 'f' as int
  }

  const SPACE: Byte := 32
  const PLUS: Byte := 43
  const PERCENT: Byte := 37
  const AMPERSAND: Byte := 38
  const EQUALS: Byte := 61

  function HexDigit(n: int): (c: Byte)
    requires 0 <= n < 16
  {
    if n > 9 then 'A' as int - 10 + n else '0' as int + n
  }

  function CharToHex(c: Byte): (r: (Byte, Byte)) {
    (HexDigit(c / 16), HexDigit(c % 16))
  }

  /** One digit as hexToChar reads it: a signed char, whose case bit 0x20 is masked off from 'A' on. */
  function HexValue(c: Byte): int {
    var signed := if c < 128 then c else c - 256;
    if signed >= 'A' as int then (if signed / 32 % 2 == 1 then signed - 32 else signed) - 'A' as int + 10
    else signed - '0' as int
  }

  function HexToChar(first: Byte, second: Byte): Byte {
    (HexValue(first) * 16 + HexValue(second)) % 256
  }

  function ToUpper(c: Byte): Byte {
    if Lower(c) then c - 32 else c
  }

  /** A byte survives being written as two hex digits. */
  lemma HexRoundTrip(c: Byte)
    ensures var (a, b) := CharToHex(c); IsXDigit(a) && IsXDigit(b) && HexToChar(a, b) == c
  {
    hide HexValue;
    hide HexDigit;
    hide IsXDigit;
    DigitRoundTrip(c / 16);
    DigitRoundTrip(c % 16);
  }

  /** Two hex digits survive being read as a byte, up to their case. */
  lemma HexPairRoundTrip(first: Byte, second: Byte)
    requires IsXDigit(first) && IsXDigit(second)
    ensures CharToHex(HexToChar(first, second)) == (ToUpper(first), ToUpper(second))
  {
    hide HexValue;
    hide HexDigit;
    hide IsXDigit;
    hide ToUpper;
    ValueRoundTrip(first);
    ValueRoundTrip(second);
    var n := HexValue(first) * 16 + HexValue(second);
    assert n / 16 == HexValue(first) && n % 16 == HexValue(second);
  }

  lemma DigitRoundTrip(n: int)
    requires 0 <= n < 16
    ensures IsXDigit(HexDigit(n)) && HexValue(HexDigit(n)) == n
  {
  }

  lemma ValueRoundTrip(c: Byte)
    requires IsXDigit(c)
    ensures 0 <= HexValue(c) < 16 && HexDigit(HexValue(c)) == ToUpper(c)
  {
  }

  // ---------- The codec ----------

  function EncodeByte(c: Byte): (r: seq<Byte>)
    ensures r != []
  {
    if c == SPACE then [PLUS]
    else if Plain(c) then [c]
    else [PERCENT, CharToHex(c).0, CharToHex(c).1]
  }

  function UrlEncode(s: seq<Byte>): seq<Byte> {
    if s == [] then [] else EncodeByte(s[0]) + UrlEncode(s[1..])
  }

  /** The byte at the front of s, and how much of s stands for it. */
  function DecodeByte(s: seq<Byte>): (r: (Byte, nat))
    requires s != []
    ensures 0 < r.1 <= |s|
  {
    if s[0] == PLUS then (SPACE, 1)
    else if s[0] == PERCENT && |s| >= 3 && IsXDigit(s[1]) && IsXDigit(s[2]) then (HexToChar(s[1], s[2]), 3)
    else (s[0], 1)
  }

  function UrlDecode(s: seq<Byte>): seq<Byte>
    decreases |s|
  {
    if s == [] then [] else [DecodeByte(s).0] + UrlDecode(s[DecodeByte(s).1..])
  }

  lemma EncodedByte(c: Byte, tail: seq<Byte>)
    ensures DecodeByte(EncodeByte(c) + tail) == (c, |EncodeByte(c)|)
    ensures (EncodeByte(c) + tail)[|EncodeByte(c)|..] == tail
  {
    HexRoundTrip(c);
    hide CharToHex;
    hide HexToChar;
    hide IsXDigit;
  }

  /** Decoding undoes encoding, whatever follows. */
  lemma {:induction false} DecodeEncode(s: seq<Byte>, tail: seq<Byte>)
    ensures UrlDecode(UrlEncode(s) + tail) == s + UrlDecode(tail)
  {
    if s == [] {
      Seqs.EmptyLeft(tail);
      Seqs.EmptyLeft(UrlDecode(tail));
    } else {
      hide EncodeByte;
      hide DecodeByte;
      var first, more := EncodeByte(s[0]), UrlEncode(s[1..]);
      Seqs.Assoc(first, more, tail);
      EncodedByte(s[0], more + tail);
      DecodeEncode(s[1..], tail);
      Seqs.ConsAppend(s, UrlDecode(tail));
    }
  }

  lemma UrlRoundTrip(s: seq<Byte>)
    ensures UrlDecode(UrlEncode(s)) == s
  {
    DecodeEncode(s, []);
    Seqs.EmptyLeft(UrlEncode(s));
    Seqs.EmptyLeft(s);
  }

  /** Nothing but unreserved characters, plus and percent signs comes out of the encoder. */
  lemma {:induction false} EncodedIsSafe(s: seq<Byte>)
    ensures forall c :: c in UrlEncode(s) ==> Plain(c) || c == PLUS || c == PERCENT
  {
    if s != [] {
      EncodedIsSafe(s[1..]);
      EncodedByteIsSafe(s[0]);
    }
  }

  lemma EncodedByteIsSafe(x: Byte)
    ensures forall c :: c in EncodeByte(x) ==> Plain(c) || c == PLUS || c == PERCENT
  {
    HexRoundTrip(x);
    hide CharToHex;
    hide HexToChar;
  }

  // ---------- The loops ----------

  method FormUrlEncode(src: seq<Byte>) returns (result: seq<Byte>)
    ensures result == UrlEncode(src)
  {
    hide Plain;
    hide CharToHex;
    result := [];
    var iter := 0;
    assert src[0..] == src;
    Seqs.EmptyLeft(UrlEncode(src));
    while iter != |src|
      invariant iter <= |src|
      invariant result + UrlEncode(src[iter..]) == UrlEncode(src)
    {
      ghost var before := result;
      var c := src[iter];
      if c == SPACE {
        result := result + [PLUS];
      } else if Plain(c) {
        result := result + [c];
      } else {
        result := result + [PERCENT];
        result := result + [CharToHex(c).0, CharToHex(c).1];
        Seqs.Assoc(before, [PERCENT], [CharToHex(c).0, CharToHex(c).1]);
      }
      assert result == before + EncodeByte(c);
      EncodeStep(src, iter, before);
      iter := iter + 1;
    }
    Seqs.EmptyLeft(result);
  }

  lemma EncodeStep(src: seq<Byte>, i: nat, before: seq<Byte>)
    requires i < |src|
    ensures before + UrlEncode(src[i..]) == before + EncodeByte(src[i]) + UrlEncode(src[i + 1..])
  {
    hide EncodeByte;
    Seqs.DropDrop(src, i, 1);
    Seqs.Assoc(before, EncodeByte(src[i]), UrlEncode(src[i + 1..]));
  }

  /** *iter for an iterator that may stand at the end of the string, where a NUL is found. */
  function At(src: seq<Byte>, i: nat): Byte
    requires i <= |src|
  {
    if i < |src| then src[i] else 0
  }

  method FormUrlDecode(src: seq<Byte>) returns (result: seq<Byte>)
    ensures result == UrlDecode(src)
  {
    hide HexToChar;
    result := [];
    var iter := 0;
    assert src[0..] == src;
    Seqs.EmptyLeft(UrlDecode(src));
    while iter != |src|
      invariant iter <= |src|
      invariant result + UrlDecode(src[iter..]) == UrlDecode(src)
      decreases |src| - iter
    {
      DecodeStep(src, iter, result);
      var c := src[iter];
      if c == PLUS {
        result := result + [SPACE];
      } else if c == PERCENT {
        if |src| - iter >= 2 && IsXDigit(At(src, iter + 1)) && IsXDigit(At(src, iter + 2)) {
          iter := iter + 1;
          var first := src[iter];
          iter := iter + 1;
          result := result + [HexToChar(first, src[iter])];
        } else {
          result := result + [PERCENT];
        }
      } else {
        result := result + [c];
      }
      iter := iter + 1;
    }
    Seqs.EmptyLeft(result);
  }

  lemma DecodeStep(src: seq<Byte>, i: nat, before: seq<Byte>)
    requires i < |src|
    ensures var (c, used) := DecodeByte(src[i..]);
            before + UrlDecode(src[i..]) == before + [c] + UrlDecode(src[i + used..])
  {
    hide DecodeByte;
    var (c, used) := DecodeByte(src[i..]);
    Seqs.DropDrop(src, i, used);
    Seqs.Assoc(before, [c], UrlDecode(src[i + used..]));
  }

  // ---------- Forms ----------

  datatype Entry = Entry(name: seq<Byte>, value: seq<Byte>)

  /** The first c in s. */
  function Find(s: seq<Byte>, c: Byte): (r: Option<nat>)
    ensures r.Some? ==> r.value < |s| && s[r.value] == c && c !in s[..r.value]
    ensures r.None? ==> c !in s
  {
    if s == [] then None
    else if s[0] == c then Some(0)
    else
      match Find(s[1..], c)
      case None => None
      case Some(i) =>
        assert s[..i + 1] == [s[0]] + s[1..][..i];
        Some(i + 1)
  }

  /** The first entry and how much of the data it takes: a name up to '=', a value up to '&' or the end. */
  function First(data: seq<Byte>): (r: Option<(Entry, nat)>)
    ensures r.Some? ==> 0 < r.value.1 <= |data|
  {
    match Find(data, EQUALS)
    case None => None
    case Some(i) =>
      var name, rest := UrlDecode(data[..i]), data[i + 1..];
      match Find(rest, AMPERSAND)
      case None => Some((Entry(name, UrlDecode(rest)), |data|))
      case Some(j) => Some((Entry(name, UrlDecode(rest[..j])), i + j + 2))
  }

  function Parse(data: seq<Byte>): seq<Entry>
    decreases |data|
  {
    match First(data)
    case None => []
    case Some((e, used)) => [e] + Parse(data[used..])
  }

  function EncodeEntry(e: Entry): seq<Byte> {
    UrlEncode(e.name) + [EQUALS] + UrlEncode(e.value)
  }

  /** A form as a browser sends it. */
  function EncodeForm(es: seq<Entry>): seq<Byte> {
    if es == [] then []
    else if |es| == 1 then EncodeEntry(es[0])
    else EncodeEntry(es[0]) + [AMPERSAND] + EncodeForm(es[1..])
  }

  lemma FindIs(a: seq<Byte>, c: Byte, b: seq<Byte>)
    requires c !in a
    ensures Find(a + [c] + b, c) == Some(|a|)
    ensures (a + [c] + b)[..|a|] == a && (a + [c] + b)[|a| + 1..] == b
  {
    var s := a + [c] + b;
    var r := Find(s, c);
    assert s[|a|] == c;
  }

  lemma NoSeparators(s: seq<Byte>)
    ensures EQUALS !in UrlEncode(s) && AMPERSAND !in UrlEncode(s)
  {
    EncodedIsSafe(s);
  }

  /** The text of an entry splits at its '='. */
  lemma EntryName(e: Entry, tail: seq<Byte>)
    ensures var data := EncodeEntry(e) + tail;
            var n := |UrlEncode(e.name)|;
            && Find(data, EQUALS) == Some(n)
            && UrlDecode(data[..n]) == e.name && data[n + 1..] == UrlEncode(e.value) + tail
  {
    var name, value := UrlEncode(e.name), UrlEncode(e.value);
    NoSeparators(e.name);
    UrlRoundTrip(e.name);
    hide UrlEncode;
    hide UrlDecode;
    Seqs.Assoc(name + [EQUALS], value, tail);
    FindIs(name, EQUALS, value + tail);
  }

  lemma LastEntry(e: Entry)
    ensures First(EncodeEntry(e)) == Some((e, |EncodeEntry(e)|))
  {
    hide UrlEncode;
    hide UrlDecode;
    hide Find;
    EntryName(e, []);
    Seqs.EmptyLeft(EncodeEntry(e));
    NoSeparators(e.value);
    UrlRoundTrip(e.value);
    Seqs.EmptyLeft(UrlEncode(e.value));
  }

  lemma InnerEntry(e: Entry, more: seq<Byte>)
    ensures First(EncodeEntry(e) + ([AMPERSAND] + more)) == Some((e, |EncodeEntry(e)| + 1))
  {
    hide UrlEncode;
    hide UrlDecode;
    hide Find;
    EntryName(e, [AMPERSAND] + more);
    NoSeparators(e.value);
    UrlRoundTrip(e.value);
    Seqs.Assoc(UrlEncode(e.value), [AMPERSAND], more);
    FindIs(UrlEncode(e.value), AMPERSAND, more);
  }

  /** Parsing what a browser sends gives the form back: every entry, in order, empty names and values too. */
  lemma {:induction false} FormRoundTrip(es: seq<Entry>)
    ensures Parse(EncodeForm(es)) == es
  {
    hide First;
    hide EncodeEntry;
    NoEntry();
    if |es| == 1 {
      LastEntry(es[0]);
      var data := EncodeEntry(es[0]);
      assert data[|data|..] == [];
    } else if |es| > 1 {
      var item, more := EncodeEntry(es[0]), EncodeForm(es[1..]);
      Seqs.Assoc(item, [AMPERSAND], more);
      InnerEntry(es[0], more);
      Seqs.TakeDropAppend(item + [AMPERSAND], more, |item| + 1);
      FormRoundTrip(es[1..]);
    }
  }

  lemma NoEntry()
    ensures First([]) == None
  {
  }

  class Cgicc {
    var formData: seq<Entry>

    /** The urlencoded branch of parseFormInput. */
    method ParseFormInput(data: seq<Byte>)
      modifies this
      ensures formData == old(formData) + Parse(data)
    {
      hide Find;
      hide UrlDecode;
      hide Parse;
      if data == [] {
        ParseNothing();
        Seqs.EmptyLeft(formData);
        return;
      }
      var oldPos := 0;
      assert data[0..] == data;
      while true
        invariant oldPos <= |data|
        invariant formData + Parse(data[oldPos..]) == old(formData) + Parse(data)
        decreases |data| - oldPos
      {
        ParseStep(data, oldPos, formData);
        var pos := Find(data[oldPos..], EQUALS);
        if pos.None? {
          break;
        }
        var name := FormUrlDecode(data[oldPos..][..pos.value]);
        oldPos := oldPos + (pos.value + 1);
        pos := Find(data[oldPos..], AMPERSAND);
        var value := FormUrlDecode(if pos.None? then data[oldPos..] else data[oldPos..][..pos.value]);
        formData := formData + [Entry(name, value)];
        if pos.None? {
          break;
        }
        oldPos := oldPos + (pos.value + 1);
      }
    }
  }

  lemma ParseNothing()
    ensures Parse([]) == []
  {
    NoEntry();
  }

  /** One turn of the loop, seen from the entries still to come. */
  lemma ParseStep(data: seq<Byte>, from: nat, before: seq<Entry>)
    requires from <= |data|
    ensures var pos := Find(data[from..], EQUALS);
            if pos.None? then before + Parse(data[from..]) == before
            else
              var name, mid := UrlDecode(data[from..][..pos.value]), from + (pos.value + 1);
              var end := Find(data[mid..], AMPERSAND);
              if end.None? then before + Parse(data[from..]) == before + [Entry(name, UrlDecode(data[mid..]))]
              else
                before + Parse(data[from..])
                == before + [Entry(name, UrlDecode(data[mid..][..end.value]))] + Parse(data[mid + (end.value + 1)..])
  {
    hide First;
    hide UrlDecode;
    hide Find;
    FirstStep(data, from);
    Seqs.EmptyLeft(before);
    ParseNothing();
    var r := First(data[from..]);
    if r.Some? {
      var (e, used) := r.value;
      Seqs.DropDrop(data, from, used);
      Seqs.Assoc(before, [e], Parse(data[from + used..]));
      Seqs.EmptyLeft(before + [e]);
    }
  }

  lemma FirstStep(data: seq<Byte>, from: nat)
    requires from <= |data|
    ensures var pos := Find(data[from..], EQUALS);
            if pos.None? then First(data[from..]) == None
            else
              var name, mid := UrlDecode(data[from..][..pos.value]), from + (pos.value + 1);
              var end := Find(data[mid..], AMPERSAND);
              if end.None? then
                First(data[from..]) == Some((Entry(name, UrlDecode(data[mid..])), |data| - from))
              else
                First(data[from..]) == Some((Entry(name, UrlDecode(data[mid..][..end.value])), mid + (end.value + 1) - from))
  {
    hide UrlDecode;
    hide Find;
    var pos := Find(data[from..], EQUALS);
    if pos.Some? {
      Seqs.DropDrop(data, from, pos.value + 1);
    }
  }
}
