/** The dump format's integers and strings: how they are written, and read back from a queue of bytes. */
module RdbText {
  import opened Bytes
  import opened BitStream
  import opened Decimal
  import opened Powers
  import opened TextOrder
  import opened Strings
  import Compression
  import Container

  const SIZE_LIMIT: nat := 0x1_0000_0000_0000_0000

  // `BitsToString` of a `size_t` and of an `int`.
  function SizeBits(x: nat): (b: seq<byte>)
    requires x < SIZE_LIMIT
    ensures |b| == 8
  {
    LowBytes(x, 8)
  }

  function Unsigned(i: int): nat
    requires INT_MIN <= i <= INT_MAX
  {
    if i < 0 then i + 0x1_0000_0000 else i
  }

  function Signed(x: nat): int { if x >= 0x8000_0000 then x - 0x1_0000_0000 else x }

  function IntBits(i: int): (b: seq<byte>)
    requires INT_MIN <= i <= INT_MAX
    ensures |b| == 4
  {
    LowBytes(Unsigned(i), 4)
  }

  lemma SizeBack(x: nat)
    requires x < SIZE_LIMIT
    ensures LittleEndian(SizeBits(x)) == x
  {
    hide LowBytes, LittleEndian, Pow2;
    LowBytesValue(x, 8);
    WordSizes();
  }

  lemma IntBack(i: int)
    requires INT_MIN <= i <= INT_MAX
    ensures Signed(LittleEndian(IntBits(i))) == i
  {
    hide LowBytes, LittleEndian, Pow2;
    LowBytesValue(Unsigned(i), 4);
    WordSizes();
  }

  /** The `std::deque<char>` a dump is read from. */
  class Source {
    var data: seq<byte>

    constructor (data: seq<byte>)
      ensures this.data == data
    {
      this.data := data;
    }

    /** `front` and `pop_front`. */
    method Pop() returns (c: byte)
      requires data != []
      modifies this
      ensures c == old(data)[0] && data == old(data)[1..]
    {
      c := data[0];
      data := data[1..];
    }

    /** The loop of `PeekInt` and `PeekSize`: `n` bytes into a word; none when `at` throws. */
    method PeekWord(n: nat) returns (r: Option<nat>)
      modifies this
      ensures |old(data)| >= n ==> r == Some(LittleEndian(old(data)[..n])) && data == old(data)[n..]
      ensures |old(data)| < n ==> r == None && data == old(data)
    {
      hide LittleEndian, Pow2;
      var x: nat := 0;
      EmptyWord();
      for i := 0 to n
        invariant data == old(data) && i <= |data| && x == LittleEndian(data[..i])
      {
        if i >= |data| {
          return None;
        }
        LittleEndianConcat(data[..i], [data[i]]);
        OneByte(data[i]);
        assert data[..i + 1] == data[..i] + [data[i]];
        x := x + data[i] * Pow2(8 * i);
      }
      r, data := Some(x), data[n..];
    }

    /** `PeekInt`: fails on fewer than four bytes. */
    method PeekInt() returns (r: Option<int>)
      modifies this
      ensures |old(data)| >= 4 ==> r == Some(Signed(LittleEndian(old(data)[..4]))) && data == old(data)[4..]
      ensures |old(data)| < 4 ==> r == None && data == old(data)
    {
      var x := PeekWord(4);
      r := if x.Some? then Some(Signed(x.value)) else None;
    }

    /** `PeekSize`: fails on fewer than eight bytes. */
    method PeekSize() returns (r: Option<nat>)
      modifies this
      ensures |old(data)| >= 8 ==> r == Some(LittleEndian(old(data)[..8])) && data == old(data)[8..]
      ensures |old(data)| < 8 ==> r == None && data == old(data)
    {
      r := PeekWord(8);
    }

    /** `PeekString`. */
    method PeekString(n: nat) returns (s: Text)
      requires n <= |data|
      modifies this
      ensures s == old(data)[..n] && data == old(data)[n..]
    {
      s := data[..n];
      data := data[n..];
    }

    /** A size that was written in front of `rest`. */
    method ReadSize(ghost x: nat, ghost rest: seq<byte>) returns (n: nat)
      requires x < SIZE_LIMIT && data == SizeBits(x) + rest
      modifies this
      ensures n == x && data == rest
    {
      hide SizeBits, LittleEndian;
      SizeBack(x);
      assert data[..8] == SizeBits(x) && data[8..] == rest;
      var r := PeekSize();
      n := r.value;
    }

    method ReadInt(ghost i: int, ghost rest: seq<byte>) returns (r: int)
      requires INT_MIN <= i <= INT_MAX && data == IntBits(i) + rest
      modifies this
      ensures r == i && data == rest
    {
      hide IntBits, LittleEndian;
      IntBack(i);
      assert data[..4] == IntBits(i) && data[4..] == rest;
      var o := PeekInt();
      r := o.value;
    }
  }

  lemma EmptyWord()
    ensures LittleEndian([]) == 0
  {
  }

  lemma OneByte(b: byte)
    ensures LittleEndian([b]) == b
  {
    assert [b][1..] == [];
  }

  // ---------- strings ----------

  /** `std::stoi` succeeds. */
  predicate Readable(s: Text)
    requires IntegerShaped(s)
  {
    s != [] && INT_MIN <= Stoi(s) <= INT_MAX
  }

  /** What a string is after saving and loading. */
  function Restored(s: Stored): Stored
    requires s.Valid()
  {
    if s.encoding.INT? then Stored(ToText(Stoi(s.data)), INT) else s
  }

  /** `b` is a written form of `s`: an integer, the raw bytes, or a compressed payload. */
  ghost predicate TextBytes(b: seq<byte>, s: Stored) {
    && s.Valid()
    && if s.encoding.INT? then Readable(s.data) && b == [0] + IntBits(Stoi(s.data))
       else
         && |s.data| < SIZE_LIMIT
         && (b == [1] + (SizeBits(|s.data|) + s.data) || exists p: seq<byte> :: Packed(b, s.data, p))
  }

  ghost predicate Packed(b: seq<byte>, s: Text, p: seq<byte>)
    requires |s| < SIZE_LIMIT
  {
    |p| < SIZE_LIMIT && b == [2] + (SizeBits(|p|) + (SizeBits(|s|) + p)) && Container.Stands(p, [], s)
  }

  /** Neither `std::stoi` nor the assertion on the compressed size stops the save. */
  predicate Saves(s: Stored, compress: bool)
    requires s.Valid()
  {
    if s.encoding.INT? then Readable(s.data) else compress ==> s.data != []
  }

  predicate SizeOk(s: Text, compress: bool) { |s| < (if compress then Compression.INT32_MAX else SIZE_LIMIT) }

  /** `Str::EncodeValue`; none when `std::stoi` throws or the compressed string is empty. */
  method EncodeText(s: Stored, compress: bool) returns (b: Option<seq<byte>>)
    requires s.Valid() && SizeOk(s.data, compress)
    ensures b.Some? <==> Saves(s, compress)
    ensures b.Some? ==> TextBytes(b.value, s) && |b.value| > 0
    ensures b.Some? ==> b.value[0] == if s.encoding.INT? then 0 else if compress then 2 else 1
  {
    hide Container.Stands, SizeBits, IntBits;
    if s.encoding == RAW {
      if compress {
        var p := Compression.Compress(s.data);
        if |p| == 0 {
          return None;
        }
        b := Some([2] + (SizeBits(|p|) + (SizeBits(|s.data|) + p)));
        assert Packed(b.value, s.data, p);
      } else {
        b := Some([1] + (SizeBits(|s.data|) + s.data));
      }
      return;
    }
    if !Readable(s.data) {
      return None;
    }
    b := Some([0] + IntBits(Stoi(s.data)));
  }

  lemma {:induction false} NoBytes(n: nat)
    ensures LowBytes(0, n) == seq(n, _ => 0)
  {
    if n > 0 { NoBytes(n - 1); }
  }

  lemma LowBytesStep(x: nat, n: nat)
    requires n > 0
    ensures LowBytes(x, n) == [x % 256] + LowBytes(x / 256, n - 1)
  {
  }

  /** The least significant byte comes first. */
  lemma SmallBits(x: nat)
    requires x < 256
    ensures SizeBits(x) == [x, 0, 0, 0, 0, 0, 0, 0] && IntBits(x) == [x, 0, 0, 0]
    ensures IntBits(-2) == [254, 255, 255, 255] && SizeBits(258) == [2, 1, 0, 0, 0, 0, 0, 0]
  {
    hide LowBytes;
    NoBytes(0);
    NoBytes(3);
    NoBytes(6);
    NoBytes(7);
    LowBytesStep(x, 8);
    LowBytesStep(x, 4);
    LowBytesStep(258, 8);
    LowBytesStep(1, 7);
    LowBytesStep(0xFFFF_FFFE, 4);
    LowBytesStep(0xFF_FFFF, 3);
    LowBytesStep(0xFFFF, 2);
    LowBytesStep(0xFF, 1);
  }

  lemma Kinds(b: seq<byte>, s: Stored)
    requires TextBytes(b, s)
    ensures s.Valid() && |b| > 0 && (b[0] == 0 <==> s.encoding.INT?)
    ensures b[0] == 0 ==> Readable(s.data) && b[1..] == IntBits(Stoi(s.data))
    ensures b[0] == 1 ==> |s.data| < SIZE_LIMIT && b[1..] == SizeBits(|s.data|) + s.data
    ensures b[0] > 1 ==> |s.data| < SIZE_LIMIT && exists p: seq<byte> :: Packed(b, s.data, p)
  {
    hide Container.Stands, SizeBits, IntBits, IntegerShaped, Stoi;
  }

  /** `Str::DecodeValue` on a written string: what was written, and not a byte more is consumed. */
  method DecodeText(src: Source, ghost b: seq<byte>, ghost s: Stored, ghost rest: seq<byte>) returns (r: Stored)
    requires TextBytes(b, s) && src.data == b + rest
    modifies src
    ensures r == Restored(s) && src.data == rest
  {
    hide Container.Stands, SizeBits, IntBits, LittleEndian;
    Kinds(b, s);
    ghost var text := s.data;
    ghost var tail := b[1..] + rest;
    assert src.data[0] == b[0] && src.data[1..] == tail;
    var kind := src.Pop();
    hide TextBytes;
    if kind == 0 {
      assert tail == IntBits(Stoi(text)) + rest;
      var i := src.ReadInt(Stoi(text), rest);
      return Stored(ToText(i), INT);
    }
    var data;
    if kind == 1 {
      assert tail == SizeBits(|text|) + (text + rest);
      var size := src.ReadSize(|text|, text + rest);
      data := src.PeekString(size);
      assert data == (text + rest)[..|text|] == text && src.data == (text + rest)[|text|..] == rest;
    } else {
      ghost var p :| Packed(b, text, p);
      assert b[1..] == SizeBits(|p|) + (SizeBits(|text|) + p);
      assert tail == SizeBits(|p|) + (SizeBits(|text|) + (p + rest));
      var packed := src.ReadSize(|p|, SizeBits(|text|) + (p + rest));
      var _ := src.ReadSize(|text|, p + rest);
      var payload := src.PeekString(packed);
      assert payload == (p + rest)[..|p|] == p && src.data == (p + rest)[|p|..] == rest;
      data := Compression.Decompress(payload, text);
    }
    r := Stored(data, RAW);
  }

  /** A string that comes back as it was: raw, and not empty when compressed, or the text of an `int`. */
  predicate Survives(s: Stored, compress: bool)
    requires s.Valid()
  {
    if s.encoding.INT? then Readable(s.data) && Canonical(s.data) else compress ==> s.data != []
  }

  lemma SurvivesWhen(s: Stored, compress: bool)
    requires s.Valid()
    ensures Saves(s, compress) && Restored(s) == s <==> Survives(s, compress)
  {
    if s.encoding.INT? { ToTextStoi(s.data); }
  }

  /** A string object survives saving and loading exactly when `Survives` says so. */
  method SaveAndLoad(s: Stored, compress: bool) returns (r: Option<Stored>)
    requires s.Valid() && SizeOk(s.data, compress)
    ensures r.Some? <==> Saves(s, compress)
    ensures r == Some(s) <==> Survives(s, compress)
  {
    hide TextBytes;
    SurvivesWhen(s, compress);
    var b := EncodeText(s, compress);
    if b.None? {
      return None;
    }
    var src := new Source(b.value);
    assert b.value + [] == b.value;
    var t := DecodeText(src, b.value, s, []);
    r := Some(t);
  }

  /** "007" comes back as "7". */
  lemma LeadingZeros(compress: bool)
    ensures var s := FromText([48, 48, 55]); Saves(s, compress) && Restored(s).data == [55]
  {
    assert [48, 48, 55][..2] == [48, 48] && [48, 48][..1] == [48] && [48][..0] == [];
    assert Value([48]) == 0 && Value([48, 48]) == 0 && Value([48, 48, 55]) == 7;
  }

  /** "2147483648" is one more than an `int` holds: saving it throws. */
  lemma TooLarge(compress: bool)
    ensures !Saves(FromText(ToText(0x8000_0000)), compress)
  {
    StoiToText(0x8000_0000);
  }

  /** A "-" is raw and stays so: with digits appended it survives, where the same text set at once may not. */
  lemma MinusAppended(digits: Text, compress: bool)
    requires AllDigits(digits) && digits != []
    ensures var s, t := Appended(FromText([MINUS]), digits), FromText([MINUS] + digits);
      && s.data == t.data && s.Valid() && Survives(s, compress) && t.encoding.INT?
      && (digits[0] == ZERO ==> !Survives(t, compress))
  {
    var text := [MINUS] + digits;
    assert text[1..] == digits && text[0] == MINUS && text[1] == digits[0];
    assert !IsDigit([MINUS][0]);
  }
}
