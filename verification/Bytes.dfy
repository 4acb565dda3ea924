/** Bytes and little-endian words, shared by the codecs of this project. */
module Bytes {

  datatype Option<T> = None | Some(value: T)

  /** One byte of a buffer. */
  type byte = b: int | 0 <= b < 256

  /** The little-endian value of `s`: `s[0]` is the least significant byte. */
  function LittleEndian(s: seq<byte>): nat
  {
    if s == [] then 0 else s[0] as int + 256 * LittleEndian(s[1..])
  }

  /** The 16-bit word stored by `store2`. */
  function Store2(x: nat): (r: seq<byte>)
    requires x < 0x1_0000
    ensures |r| == 2 && r[0] as int + 256 * (r[1] as int) == x
  {
    [x % 256, x / 256]
  }

  /** The 32-bit word stored by `store4`. */
  function Store4(x: nat): (r: seq<byte>)
    requires x < 0x1_0000_0000
    ensures |r| == 4 && Load4(r, 0) == x
  {
    var (a, y) := (x % 256, x / 256);
    var (b, z) := (y % 256, y / 256);
    [a, b, z % 256, z / 256]
  }

  /** The 32-bit word read by `load4` at offset `i` of `s`. */
  function Load4(s: seq<byte>, i: nat): (r: nat)
    requires i + 4 <= |s|
    ensures r < 0x1_0000_0000
  {
    s[i] as int + 0x100 * (s[i + 1] as int) + 0x1_0000 * (s[i + 2] as int) + 0x100_0000 * (s[i + 3] as int)
  }

  lemma Load4Drop(s: seq<byte>, k: nat, i: nat)
    requires k + i + 4 <= |s|
    ensures Load4(s[k..], i) == Load4(s, k + i)
  {
  }

  /** A stored word is read back, wherever it stands. */
  lemma Load4Store4(a: seq<byte>, x: nat, b: seq<byte>)
    requires x < 0x1_0000_0000
    ensures Load4(a + Store4(x) + b, |a|) == x
  {
    var s := a + Store4(x) + b;
    assert s[|a|..][..4] == Store4(x);
  }
}
