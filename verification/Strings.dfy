/** The string object: its text and the encoding it carries along, which decides how it is saved. */
module Strings {
  import opened Bytes
  import opened Decimal
  import opened TextOrder

  datatype Encoding = INT | RAW

  /** The fields of a `Str`. */
  datatype Stored = Stored(data: Text, encoding: Encoding) {
    /** Only what looks like an integer is marked as one; the converse does not hold. */
    predicate Valid() { encoding.INT? ==> IntegerShaped(data) }
  }

  /** A string made by its constructor or by `Set`. */
  function FromText(data: Text): (s: Stored)
    ensures s.Valid()
  {
    Stored(data, if IntegerShaped(data) then INT else RAW)
  }

  /** What `RedisStrToInt` finds: no integer, one that `std::stoi` refuses, or its value. */
  datatype Parsed = NoInt | OutOfRange | Int(value: int)

  /** The sign is taken off first, so the least `int` is out of range. */
  function Parse(raw: Text): Parsed
  {
    if raw == [] || !IntegerShaped(raw) then NoInt
    else if -INT_MAX <= Stoi(raw) <= INT_MAX then Int(Stoi(raw))
    else OutOfRange
  }

  /** The string after `Append`; the encoding is looked at again only when it was an integer's. */
  function Appended(s: Stored, more: Text): Stored
  {
    var data := s.data + more;
    Stored(data, if s.encoding.INT? && Parse(data).NoInt? then RAW else s.encoding)
  }

  method OnlyDigits(s: Text) returns (r: bool)
    ensures r <==> AllDigits(s)
  {
    for i := 0 to |s|
      invariant AllDigits(s[..i])
    {
      if s[i] < 48 || s[i] > 57 {
        return false;
      }
      assert s[..i + 1] == s[..i] + [s[i]];
    }
    assert s[..|s|] == s;
    return true;
  }

  /** `RedisStrToInt`. */
  method RedisStrToInt(raw: Text) returns (r: Parsed)
    ensures r == Parse(raw)
  {
    if raw == [] {
      return NoInt;
    }
    var abs := if raw[0] != MINUS then raw else raw[1..];
    if abs == [] {
      assert !IsDigit(raw[0]);
      return NoInt;
    }
    var digits := OnlyDigits(abs);
    if !digits {
      assert raw[0] != MINUS ==> !IntegerShaped(raw);
      return NoInt;
    }
    if Value(abs) > INT_MAX {
      return OutOfRange;
    }
    return Int(if raw[0] != MINUS then Value(abs) else -(Value(abs) as int));
  }

  /** What `IncrBy` returns: no text, an exception, or the new text. */
  datatype Reply = Nil | Threw | New(text: Text)

  class Str {
    var data: Text
    var encoding: Encoding

    ghost function State(): Stored
      reads this
    {
      Stored(data, encoding)
    }

    constructor (data: Text)
      ensures State() == FromText(data) && State().Valid()
    {
      this.data, encoding := data, INT;
      new;
      Set(data);
    }

    /** `Set`: an integer until a character says otherwise. */
    method Set(data: Text)
      modifies this
      ensures State() == FromText(data) && State().Valid()
    {
      this.data, encoding := data, INT;
      for i := 0 to |data|
        invariant this.data == data && encoding == INT
        invariant forall k :: 0 <= k < i ==> IsDigit(data[k]) || (k == 0 && data[0] == MINUS && |data| > 1)
      {
        if (data[i] < 48 || data[i] > 57) && !(i == 0 && data[i] == MINUS && |data| > 1) {
          assert !IntegerShaped(data) by {
            assert |data| > 1 && data[0] == MINUS && i > 0 ==> data[1..][i - 1] == data[i];
          }
          encoding := RAW;
          return;
        }
      }
    }

    /** `Append`: the new size; none when the exception of `std::stoi` gets out. */
    method Append(more: Text) returns (size: Option<nat>)
      requires State().Valid()
      modifies this
      ensures State() == Appended(old(State()), more) && State().Valid()
      ensures size == if old(encoding).INT? && Parse(data).OutOfRange? then None else Some(|data|)
    {
      data := data + more;
      if encoding == INT {
        var value := RedisStrToInt(data);
        if value.OutOfRange? {
          return None;
        }
        if value.NoInt? {
          encoding := RAW;
        }
      }
      return Some(|data|);
    }

    /** `IncrBy`, as long as the sum is an `int`. */
    method IncrBy(delta: int) returns (r: Reply)
      requires State().Valid()
      requires encoding.INT? && Parse(data).Int? ==> INT_MIN <= Parse(data).value + delta <= INT_MAX
      modifies this
      ensures State().Valid()
      ensures r.New? <==> old(encoding).INT? && Parse(old(data)).Int?
      ensures r.New? ==> data == r.text && encoding.INT? && Stoi(data) == Stoi(old(data)) + delta && Canonical(data)
      ensures r.Threw? <==> old(encoding).INT? && Parse(old(data)).OutOfRange?
      ensures !r.New? ==> data == old(data) && (encoding.INT? <==> r.Threw?)
    {
      if encoding != INT {
        return Nil;
      }
      var value := RedisStrToInt(data);
      if value.OutOfRange? {
        return Threw;
      }
      if value.NoInt? {
        encoding := RAW;
        return Nil;
      }
      data := ToText(value.value + delta);
      StoiToText(value.value + delta);
      ToTextStoi(data);
      return New(data);
    }
  }
}
