/** Extensional facts about sequences, stated where nothing else is in scope. */
module Seqs {

  lemma ConsAppend<T>(s: seq<T>, t: seq<T>)
    requires s != []
    ensures [s[0]] + (s[1..] + t) == s + t
    ensures (s + t)[1..] == s[1..] + t && (s + t)[0] == s[0]
  {
  }

  lemma Assoc<T>(a: seq<T>, b: seq<T>, c: seq<T>)
    ensures (a + b) + c == a + (b + c)
  {
  }

  lemma EmptyLeft<T>(s: seq<T>)
    ensures [] + s == s && s + [] == s
  {
  }

  lemma TakeDropAppend<T>(a: seq<T>, b: seq<T>, k: nat)
    requires k <= |a|
    ensures (a + b)[..k] == a[..k] && (a + b)[k..] == a[k..] + b
  {
  }

  lemma TakeAll<T>(s: seq<T>)
    ensures s[..|s|] == s && s[..0] == [] && s[0..] == s
  {
  }

  lemma DropDrop<T>(s: seq<T>, j: nat, k: nat)
    requires j + k <= |s|
    ensures s[j..][k..] == s[j + k..]
    ensures s[..j] + s[j..][..k] == s[..j + k]
  {
  }
}

/** Bytes and the small amount of byte-string arithmetic the servers share. */
module Bytes {

  type Byte = x: int | 0 <= x < 256

  /** A 16-bit number in network order. */
  function U16(hi: Byte, lo: Byte): (n: nat)
    ensures n < 0x1_0000
  {
    hi * 256 + lo
  }

  /** A 31-bit number in network order whose top bit has been masked off. */
  function U31(b3: Byte, b2: Byte, b1: Byte, b0: Byte): (n: nat)
    ensures n < 0x8000_0000
  {
    (((b3 % 128) * 256 + b2) * 256 + b1) * 256 + b0
  }

  function Zeros(n: nat): (s: seq<Byte>)
    ensures |s| == n && forall i :: 0 <= i < n ==> s[i] == 0
  {
    seq(n, _ => 0)
  }

  datatype Option<T> = None | Some(value: T)

  function Min(a: int, b: int): int {
    if a <= b then a else b
  }

  function Max(a: int, b: int): int {
    if a <= b then b else a
  }

  /** The string constants of the sources are ASCII; this reads them as bytes. */
  function Ascii(s: string): (r: seq<Byte>)
    ensures |r| == |s|
  {
    seq(|s|, i requires 0 <= i < |s| => (s[i] as int) % 256)
  }

  /** How far n is from the next multiple of 8: the value of (-n) & 7. */
  function Pad8(n: nat): (p: nat)
    ensures p < 8 && (n + p) % 8 == 0
  {
    (8 - n % 8) % 8
  }
}
