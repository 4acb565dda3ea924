/** Byte strings and their lexicographic order. */
module TextOrder {
  import opened Bytes

  type Text = seq<byte>

  /** Byte-wise lexicographic order, as of `std::string`. */
  predicate Less(a: Text, b: Text) {
    b != [] && (a == [] || a[0] < b[0] || (a[0] == b[0] && Less(a[1..], b[1..])))
  }

  /** `a` ends where `b` goes on, or has the smaller byte where they first differ. */
  ghost predicate Precedes(a: Text, b: Text) {
    a < b || exists i :: DiffersAt(a, b, i) && a[i] < b[i]
  }

  /** The first position where the two differ. */
  ghost predicate DiffersAt(a: Text, b: Text, i: int) {
    0 <= i < |a| && i < |b| && a[..i] == b[..i] && a[i] != b[i]
  }

  lemma {:induction false} LessIs(a: Text, b: Text)
    ensures Less(a, b) <==> Precedes(a, b)
  {
    if a != [] && b != [] {
      if a[0] != b[0] {
        assert DiffersAt(a, b, 0);
      } else {
        LessIs(a[1..], b[1..]);
        assert a == [a[0]] + a[1..] && b == [b[0]] + b[1..];
        forall i ensures DiffersAt(a[1..], b[1..], i) <==> i >= 0 && DiffersAt(a, b, i + 1) {
          if 0 <= i < |a| - 1 && i < |b| - 1 {
            assert a[..i + 1] == [a[0]] + a[1..][..i] && b[..i + 1] == [b[0]] + b[1..][..i];
          }
        }
        if exists i :: DiffersAt(a, b, i) && a[i] < b[i] {
          var i :| DiffersAt(a, b, i) && a[i] < b[i];
          assert DiffersAt(a[1..], b[1..], i - 1);
        }
      }
    }
  }

  lemma LessAlwaysIs()
    ensures forall a: Text, b: Text {:trigger Less(a, b)} {:trigger Precedes(a, b)} :: Less(a, b) <==> Precedes(a, b)
  {
    forall a: Text, b: Text ensures Less(a, b) <==> Precedes(a, b) { LessIs(a, b); }
  }

  lemma {:induction false} LessTotal(a: Text, b: Text)
    ensures Less(a, b) || a == b || Less(b, a)
    ensures !(Less(a, b) && (a == b || Less(b, a)))
  {
    if a != [] && b != [] && a[0] == b[0] {
      LessTotal(a[1..], b[1..]);
      assert a == [a[0]] + a[1..] && b == [b[0]] + b[1..];
    }
  }

  lemma {:induction false} LessTransitive(a: Text, b: Text, c: Text)
    requires Less(a, b) && Less(b, c)
    ensures Less(a, c)
  {
    if a != [] && a[0] == b[0] == c[0] { LessTransitive(a[1..], b[1..], c[1..]); }
  }
}
