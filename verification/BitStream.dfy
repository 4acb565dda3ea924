/** The FSE bit streams: written forwards, read backwards from the end, so that they form a stack. */
module BitStream {
  import opened Bytes
  import opened Powers

  lemma {:induction false} LittleEndianBound(s: seq<byte>)
    ensures LittleEndian(s) < Pow2(8 * |s|)
  {
    if s != [] {
      LittleEndianBound(s[1..]);
      assert Pow2(8 * |s|) == 256 * Pow2(8 * (|s| - 1)) by { Pow2Add(8, 8 * (|s| - 1)); assert Pow2(8) == 256; }
    }
  }

  lemma {:induction false} LittleEndianConcat(a: seq<byte>, b: seq<byte>)
    ensures LittleEndian(a + b) == LittleEndian(a) + LittleEndian(b) * Pow2(8 * |a|)
  {
    if a == [] {
      assert a + b == b;
    } else {
      LittleEndianConcat(a[1..], b);
      assert (a + b)[1..] == a[1..] + b;
      var p := Pow2(8 * (|a| - 1));
      assert Pow2(8 * |a|) == 256 * p by { Pow2Add(8, 8 * (|a| - 1)); assert Pow2(8) == 256; }
      MulAssoc(256, LittleEndian(b), p);
      MulAssoc(LittleEndian(b), 256, p);
    }
  }

  /** The low `n` bytes of `x`. */
  function LowBytes(x: nat, n: nat): (r: seq<byte>)
    ensures |r| == n
  {
    if n == 0 then [] else [x % 256] + LowBytes(x / 256, n - 1)
  }

  lemma {:induction false} LowBytesValue(x: nat, n: nat)
    ensures LittleEndian(LowBytes(x, n)) == Rem(x, Pow2(8 * n))
  {
    if n > 0 {
      LowBytesValue(x / 256, n - 1);
      var p := Pow2(8 * (n - 1));
      assert Pow2(8 * n) == p * 256 by { Pow2Add(8 * (n - 1), 8); assert Pow2(8) == 256; }
      assert LowBytes(x, n)[1..] == LowBytes(x / 256, n - 1);
      DivModProduct(x % 256, x / 256, 256, p);
      assert x == x % 256 + (x / 256) * 256;
    }
  }

  /** A stack of bits: the value of all bits pushed so far, first pushed lowest, and their number. */
  datatype Bits = Bits(v: nat, n: nat) {
    ghost predicate Valid() { v < Pow2(n) }

    /** Puts the `w` bits of `b` on top. */
    function Push(b: nat, w: nat): Bits
    {
      Bits(v + b * Pow2(n), n + w)
    }

    /** The top `w` bits. */
    function Top(w: nat): nat
      requires w <= n
    {
      Quot(v, Pow2(n - w))
    }

    function Pop(w: nat): Bits
      requires w <= n
    {
      Bits(Rem(v, Pow2(n - w)), n - w)
    }
  }

  lemma PushValid(s: Bits, b: nat, w: nat)
    requires s.Valid() && b < Pow2(w)
    ensures s.Push(b, w).Valid()
  {
    Pow2Add(w, s.n);
    MulMono(b + 1, Pow2(w), Pow2(s.n));
    assert (b + 1) * Pow2(s.n) == b * Pow2(s.n) + Pow2(s.n);
  }

  /** Last in, first out. */
  lemma PopPush(s: Bits, b: nat, w: nat)
    requires s.Valid()
    ensures s.Push(b, w).Top(w) == b && s.Push(b, w).Pop(w) == s
  {
    DivParts(s.v, b, Pow2(s.n));
  }

  /** Two pushes can be taken off in one go. */
  lemma PushTwice(s: Bits, a: nat, wa: nat, b: nat, wb: nat)
    ensures s.Push(a, wa).Push(b, wb) == s.Push(a + b * Pow2(wa), wa + wb)
  {
    Pow2Add(wa, s.n);
    MulAssoc(b, Pow2(wa), Pow2(s.n));
    assert (a + b * Pow2(wa)) * Pow2(s.n) == a * Pow2(s.n) + (b * Pow2(wa)) * Pow2(s.n);
  }

  /** Two values pushed one after the other and taken off together. */
  lemma PopTwice(s: Bits, a: nat, wa: nat, b: nat, wb: nat)
    requires s.Valid() && a < Pow2(wa)
    ensures var s' := s.Push(a, wa).Push(b, wb); var x := s'.Top(wb + wa);
      Rem(x, Pow2(wa)) == a && Quot(x, Pow2(wa)) == b && s'.Pop(wb + wa) == s
  {
    hide Pow2, Quot, Rem;
    PushTwice(s, a, wa, b, wb);
    PopPush(s, a + b * Pow2(wa), wa + wb);
    DivParts(a, b, Pow2(wa));
  }

  /** The bitwise or of two words. */
  function Or(a: nat, b: nat): nat
  {
    if a == 0 then b
    else if b == 0 then a
    else (if a % 2 == 1 || b % 2 == 1 then 1 else 0) + 2 * Or(a / 2, b / 2)
  }

  lemma OrDouble(a: nat, b: nat)
    ensures Or(a, 2 * b) == a % 2 + 2 * Or(a / 2, b)
  {
  }

  /** Where the bits do not overlap, the or is the sum. */
  lemma {:induction false} OrParts(a: nat, b: nat, n: nat)
    requires a < Pow2(n)
    ensures Or(a, b * Pow2(n)) == a + b * Pow2(n)
  {
    hide Or, Pow2;
    if n == 0 {
      OrNothing(a, b);
    } else {
      OrHalves(a, b, n);
      OrParts(a / 2, b, n - 1);
    }
  }

  lemma OrNothing(a: nat, b: nat)
    requires a < Pow2(0)
    ensures Or(a, b * Pow2(0)) == a + b * Pow2(0)
  {
  }

  lemma OrHalves(a: nat, b: nat, n: nat)
    requires n > 0 && a < Pow2(n)
    ensures a / 2 < Pow2(n - 1) && b * Pow2(n) == 2 * (b * Pow2(n - 1))
    ensures Or(a, b * Pow2(n)) == a % 2 + 2 * Or(a / 2, b * Pow2(n - 1))
  {
    hide Or;
    var p := Pow2(n - 1);
    assert Pow2(n) == 2 * p;
    assert b * (2 * p) == 2 * (b * p);
    OrDouble(a, b * p);
  }

  /**
    The fields of `fse_out_stream64` together with the destination written so far. A shift of a
    64-bit word by 64 is undefined, so the word it leaves is the parameter `residue`.
   */
  datatype Words = Words(buf: seq<byte>, accum: nat, nbits: nat) {
    /** `fse_out_push64`. */
    function Put(b: nat, n: nat, residue: nat): Words
    {
      Words(buf, Or(accum, if nbits < 64 then b * Pow2(nbits) else residue), nbits + n)
    }

    /** `fse_out_flush64`. */
    function Spill(residue: nat): Words
    {
      var k := nbits / 8;
      Words(buf + LowBytes(accum, k), if k < 8 then Quot(accum, Pow2(8 * k)) else residue, nbits - 8 * k)
    }

    /** The bytes written by `fse_out_finish64`. */
    function Finish(): seq<byte>
    {
      buf + LowBytes(accum, (nbits + 7) / 8)
    }
  }

  /** `fse_out_stream64` together with the destination written so far. */
  class OutStream {
    var buf: seq<byte> // bytes written, including what was there before the stream
    var accum: nat     // bits not yet written
    var nbits: int

    ghost predicate Valid()
      reads this
    {
      0 <= nbits <= 64 && accum < Pow2(nbits)
    }

    ghost function State(): Words
      reads this
      requires Valid()
    {
      Words(buf, accum, nbits)
    }

    /** All the bits written, as one stack. */
    ghost function View(): (s: Bits)
      reads this
      requires Valid()
    {
      Bits(LittleEndian(buf) + accum * Pow2(8 * |buf|), 8 * |buf| + nbits)
    }

    constructor (buf: seq<byte>)
      ensures Valid() && this.buf == buf && nbits == 0 && State() == Words(buf, 0, 0)
      ensures View() == Bits(LittleEndian(buf), 8 * |buf|)
    {
      this.buf, accum, nbits := buf, 0, 0;
    }

    /** `fse_out_push64`; the shift by `nbits` must be defined. */
    method Push(n: nat, b: nat)
      requires Valid() && b < Pow2(n) && nbits < 64 && nbits + n <= 64
      modifies this`accum, this`nbits
      ensures Valid() && View() == old(View()).Push(b, n) && nbits == old(nbits) + n
      ensures State() == old(State()).Put(b, n, 0)
    {
      hide Or, Pow2, LittleEndian;
      PushValid(Bits(accum, nbits), b, n);
      PushTwice(Bits(LittleEndian(buf), 8 * |buf|), accum, nbits, b, n);
      OrParts(accum, b, nbits);
      accum := Or(accum, b * Pow2(nbits));
      nbits := nbits + n;
    }

    /** `fse_out_flush64`: writes the full bytes; between 0 and 7 bits stay behind. The shift must be defined. */
    method Flush()
      requires Valid() && nbits < 64
      modifies this
      ensures Valid() && View() == old(View()) && nbits <= 7
      ensures old(buf) <= buf && |buf| <= |old(buf)| + 8
      ensures State() == old(State()).Spill(0)
    {
      var k: nat := nbits / 8;
      hide Pow2, Quot, Rem;
      var low, high := LowBytes(accum, k), Quot(accum, Pow2(8 * k));
      FlushValue(buf, accum, nbits, k);
      buf, accum, nbits := buf + low, high, nbits - 8 * k;
    }

    /** `fse_out_finish64`: writes everything, padded with zero bits; minus the padding is left in `nbits`. */
    method Finish()
      requires Valid()
      modifies this
      ensures -7 <= nbits <= 0 && accum == 0 && old(buf) <= buf && buf == old(State()).Finish()
      ensures 8 * |buf| + nbits == old(View()).n && LittleEndian(buf) == old(View()).v
    {
      var k: nat := (nbits + 7) / 8;
      hide Pow2, Quot, Rem;
      LowBytesValue(accum, k);
      Pow2Mono(nbits, 8 * k);
      DivParts(accum, 0, Pow2(8 * k));
      LittleEndianConcat(buf, LowBytes(accum, k));
      buf, accum, nbits := buf + LowBytes(accum, k), 0, nbits - 8 * k;
    }
  }

  lemma FlushValue(buf: seq<byte>, accum: nat, nbits: nat, k: nat)
    requires accum < Pow2(nbits) && 8 * k <= nbits
    ensures var buf', high := buf + LowBytes(accum, k), Quot(accum, Pow2(8 * k));
      && high < Pow2(nbits - 8 * k)
      && LittleEndian(buf') + high * Pow2(8 * |buf'|) == LittleEndian(buf) + accum * Pow2(8 * |buf|)
  {
    hide Pow2, Quot, Rem, LowBytes, LittleEndian;
    var p, b := Pow2(8 * k), Pow2(8 * |buf|);
    var low, high := Rem(accum, p), Quot(accum, p);
    QuotRem(accum, p);
    LowBytesValue(accum, k);
    LittleEndianConcat(buf, LowBytes(accum, k));
    Pow2Add(8 * k, 8 * |buf|);
    MulAssoc(high, p, b);
    assert (low + high * p) * b == low * b + (high * p) * b;
    Pow2Add(nbits - 8 * k, 8 * k);
    if high >= Pow2(nbits - 8 * k) {
      MulMono(Pow2(nbits - 8 * k), high, p);
      assert false;
    }
  }

  /** `fse_in_stream64` reading `buf` from its end towards its start. */
  class InStream {
    const buf: seq<byte>
    var pos: nat   // bytes before `pos` are still to be loaded
    var accum: nat // bits loaded
    var nbits: int

    ghost predicate Valid()
      reads this
    {
      pos <= |buf| && 0 <= nbits < 64 && accum < Pow2(nbits)
    }

    /** The bits still to be read, loaded or not. */
    ghost function View(): Bits
      reads this
      requires Valid()
    {
      Bits(LittleEndian(buf[..pos]) + accum * Pow2(8 * pos), 8 * pos + nbits)
    }

    constructor (buf: seq<byte>)
      ensures this.buf == buf
    {
      this.buf, pos, accum, nbits := buf, 0, 0, 0;
    }

    /** `fse_in_checked_init64`: loads eight bytes, or seven when there is no padding. */
    method Init(n: int) returns (ok: bool)
      requires -7 <= n <= 0
      modifies this
      ensures ok <==> |buf| >= (if n == 0 then 7 else 8) && LittleEndian(buf) < Pow2(8 * |buf| + n)
      ensures ok ==> Valid() && 56 <= nbits && View() == Bits(LittleEndian(buf), 8 * |buf| + n)
    {
      hide Pow2, LittleEndian, Quot, Rem;
      var k := if n == 0 then 7 else 8;
      if |buf| < k {
        return false;
      }
      pos := |buf| - k;
      accum := LittleEndian(buf[pos..]);
      nbits := n + 8 * k;
      InitValue(buf, pos, nbits);
      ok := Quot(accum, Pow2(nbits)) == 0;
    }

    /** `fse_in_checked_flush64`: loads whole bytes until between 56 and 63 bits are held. */
    method Flush() returns (ok: bool)
      requires Valid()
      modifies this`pos, this`accum, this`nbits
      ensures ok <==> (63 - old(nbits)) / 8 <= old(pos)
      ensures old(View()).n >= 63 ==> ok
      ensures ok ==> Valid() && View() == old(View()) && 56 <= nbits
      ensures !ok ==> unchanged(this)
    {
      hide Pow2, LittleEndian;
      var k: nat := (63 - nbits) / 8;
      ok := k <= pos;
      if ok {
        LoadValue(buf, pos, accum, nbits, k);
        pos := pos - k;
        accum := LittleEndian(buf[pos..pos + k]) + accum * Pow2(8 * k);
        nbits := nbits + 8 * k;
      }
    }

    /** `fse_in_pull64`. */
    method Pull(n: nat) returns (r: nat)
      requires Valid() && n <= nbits
      modifies this`accum, this`nbits
      ensures Valid() && nbits == old(nbits) - n
      ensures r == old(View()).Top(n) && View() == old(View()).Pop(n)
    {
      hide Pow2, LittleEndian, Quot, Rem;
      PullValue(buf[..pos], accum, nbits, n);
      nbits := nbits - n;
      r, accum := Quot(accum, Pow2(nbits)), Rem(accum, Pow2(nbits));
    }
  }

  lemma InitValue(buf: seq<byte>, pos: nat, nbits: nat)
    requires pos <= |buf|
    ensures var accum := LittleEndian(buf[pos..]);
      && LittleEndian(buf) == LittleEndian(buf[..pos]) + accum * Pow2(8 * pos)
      && (accum < Pow2(nbits) <==> LittleEndian(buf) < Pow2(8 * pos + nbits))
      && (accum < Pow2(nbits) <==> Quot(accum, Pow2(nbits)) == 0)
  {
    hide Pow2, LittleEndian, Quot, Rem;
    var low, accum, p, q := LittleEndian(buf[..pos]), LittleEndian(buf[pos..]), Pow2(8 * pos), Pow2(nbits);
    LittleEndianConcat(buf[..pos], buf[pos..]);
    assert buf[..pos] + buf[pos..] == buf;
    LittleEndianBound(buf[..pos]);
    Pow2Add(nbits, 8 * pos);
    if accum < q {
      MulMono(accum + 1, q, p);
      assert (accum + 1) * p == accum * p + p;
      DivParts(accum, 0, q);
    } else {
      MulMono(q, accum, p);
      QuotRem(accum, q);
      assert Rem(accum, q) < q;
    }
  }

  lemma LoadValue(buf: seq<byte>, pos: nat, accum: nat, nbits: nat, k: nat)
    requires k <= pos <= |buf| && accum < Pow2(nbits)
    ensures var accum' := LittleEndian(buf[pos - k..pos]) + accum * Pow2(8 * k);
      && accum' < Pow2(nbits + 8 * k)
      && LittleEndian(buf[..pos]) + accum * Pow2(8 * pos)
         == LittleEndian(buf[..pos - k]) + accum' * Pow2(8 * (pos - k))
  {
    hide Pow2, LittleEndian;
    var low, mid := LittleEndian(buf[..pos - k]), LittleEndian(buf[pos - k..pos]);
    var p, q := Pow2(8 * (pos - k)), Pow2(8 * k);
    LittleEndianConcat(buf[..pos - k], buf[pos - k..pos]);
    assert buf[..pos - k] + buf[pos - k..pos] == buf[..pos];
    LittleEndianBound(buf[pos - k..pos]);
    PushValid(Bits(mid, 8 * k), accum, nbits);
    Pow2Add(8 * k, 8 * (pos - k));
    MulAssoc(accum, q, p);
    assert (mid + accum * q) * p == mid * p + (accum * q) * p;
  }

  lemma PullValue(rest: seq<byte>, accum: nat, nbits: nat, n: nat)
    requires n <= nbits && accum < Pow2(nbits)
    ensures var s := Bits(LittleEndian(rest) + accum * Pow2(8 * |rest|), 8 * |rest| + nbits);
      && s.Top(n) == Quot(accum, Pow2(nbits - n))
      && s.Pop(n) == Bits(LittleEndian(rest) + Rem(accum, Pow2(nbits - n)) * Pow2(8 * |rest|), 8 * |rest| + nbits - n)
  {
    hide Pow2, LittleEndian, Quot, Rem;
    LittleEndianBound(rest);
    Pow2Add(nbits - n, 8 * |rest|);
    DivModProduct(LittleEndian(rest), accum, Pow2(8 * |rest|), Pow2(nbits - n));
  }

  /** A value and its width in bits. */
  datatype Field = Field(bits: nat, width: nat)

  ghost predicate Fits(f: Field)
  {
    f.width <= 56 && f.bits < Pow2(f.width)
  }

  function PushAll(s: Bits, fields: seq<Field>): Bits
  {
    if fields == [] then s
    else var n := |fields| - 1; PushAll(s, fields[..n]).Push(fields[n].bits, fields[n].width)
  }

  lemma {:induction false} PushAllValid(s: Bits, fields: seq<Field>)
    requires s.Valid() && forall f :: f in fields ==> Fits(f)
    ensures PushAll(s, fields).Valid() && PushAll(s, fields).n >= s.n
  {
    if fields != [] {
      var n := |fields| - 1;
      PushAllValid(s, fields[..n]);
      assert Fits(fields[n]);
      PushValid(PushAll(s, fields[..n]), fields[n].bits, fields[n].width);
    }
  }

  /** Writes `fields` after `prefix`, flushing where asked and wherever the accumulator would be full. */
  method WriteFields(prefix: seq<byte>, fields: seq<Field>, flushes: set<nat>) returns (buf: seq<byte>, n: int)
    requires forall f :: f in fields ==> Fits(f)
    ensures -7 <= n <= 0 && prefix <= buf
    ensures var s := PushAll(Bits(LittleEndian(prefix), 8 * |prefix|), fields);
      LittleEndian(buf) == s.v && 8 * |buf| + n == s.n
  {
    hide LittleEndian, Pow2;
    var out := new OutStream(prefix);
    ghost var s0 := out.View();
    for i := 0 to |fields|
      invariant out.Valid() && out.nbits < 64 && prefix <= out.buf
      invariant out.View() == PushAll(s0, fields[..i])
    {
      assert Fits(fields[i]);
      if i in flushes || out.nbits + fields[i].width > 63 {
        out.Flush();
      }
      out.Push(fields[i].width, fields[i].bits);
      assert fields[..i + 1][..i] == fields[..i];
    }
    assert fields[..|fields|] == fields;
    out.Finish();
    buf, n := out.buf, out.nbits;
  }

  /** Reads the widths of `fields` back, last first, and gets the fields back, last first. */
  method ReadFields(prefix: seq<byte>, fields: seq<Field>, buf: seq<byte>, n: int) returns (values: seq<nat>)
    requires |prefix| >= 8 && -7 <= n <= 0
    requires forall f :: f in fields ==> Fits(f)
    requires var s := PushAll(Bits(LittleEndian(prefix), 8 * |prefix|), fields);
      LittleEndian(buf) == s.v && 8 * |buf| + n == s.n
    ensures |values| == |fields|
    ensures forall i :: 0 <= i < |fields| ==> values[i] == fields[|fields| - 1 - i].bits
  {
    hide LittleEndian, Pow2;
    ghost var s0 := Bits(LittleEndian(prefix), 8 * |prefix|);
    LittleEndianBound(prefix);
    PushAllValid(s0, fields);
    var in_ := new InStream(buf);
    var ok := in_.Init(n);
    values := [];
    assert fields[..|fields|] == fields;
    for i := |fields| downto 0
      invariant in_.Valid() && in_.View() == PushAll(s0, fields[..i])
      invariant |values| == |fields| - i
      invariant forall k :: 0 <= k < |values| ==> values[k] == fields[|fields| - 1 - k].bits
    {
      assert fields[..i + 1][..i] == fields[..i];
      assert Fits(fields[i]);
      PushAllValid(s0, fields[..i]);
      PopPush(PushAll(s0, fields[..i]), fields[i].bits, fields[i].width);
      ok := in_.Flush();
      var v := in_.Pull(fields[i].width);
      values := values + [v];
    }
  }

  /** The bit stream is a stack: what was written comes back last first, wherever it was flushed. */
  method FieldsRoundTrip(prefix: seq<byte>, fields: seq<Field>, flushes: set<nat>) returns (values: seq<nat>)
    requires |prefix| >= 8 && forall f :: f in fields ==> Fits(f)
    ensures |values| == |fields| && forall i :: 0 <= i < |fields| ==> values[i] == fields[|fields| - 1 - i].bits
  {
    hide LittleEndian, Pow2, PushAll;
    var buf, n := WriteFields(prefix, fields, flushes);
    values := ReadFields(prefix, fields, buf, n);
  }
}
