/** Byte-wise comparison of strings, unsigned, with a proper prefix ordered
    first. This is `std::string::compare` (and so `operator<` used by
    `std::sort` on strings), and it is `strcmp` on strings holding no NUL. */
module Lexicographic {
  import opened Bytes

  /** Sign of the comparison of a with b: -1, 0 or 1. */
  function Compare(a: seq<Byte>, b: seq<Byte>): (c: int)
    ensures -1 <= c <= 1
  {
    if a == [] && b == [] then 0
    else if a == [] then -1
    else if b == [] then 1
    else if a[0] < b[0] then -1
    else if a[0] > b[0] then 1
    else Compare(a[1..], b[1..])
  }

  /** a sorts before b. */
  predicate Less(a: seq<Byte>, b: seq<Byte>) {
    Compare(a, b) < 0
  }

  /** Strings compare equal only when they are equal. */
  lemma {:induction false} CompareZeroIffEqual(a: seq<Byte>, b: seq<Byte>)
    ensures Compare(a, b) == 0 <==> a == b
    decreases |a|
  {
    if a != [] && b != [] && a[0] == b[0] {
      CompareZeroIffEqual(a[1..], b[1..]);
      assert a == [a[0]] + a[1..] && b == [b[0]] + b[1..];
    }
  }

  /** Swapping the arguments flips the sign. */
  lemma {:induction false} CompareAntisymmetric(a: seq<Byte>, b: seq<Byte>)
    ensures Compare(b, a) == -Compare(a, b)
    decreases |a|
  {
    if a != [] && b != [] && a[0] == b[0] {
      CompareAntisymmetric(a[1..], b[1..]);
    }
  }

  /** The order is transitive. */
  lemma {:induction false} LessTransitive(a: seq<Byte>, b: seq<Byte>, c: seq<Byte>)
    requires Less(a, b) && Less(b, c)
    ensures Less(a, c)
    decreases |a|
  {
    if a != [] && b != [] && c != [] && a[0] == b[0] && b[0] == c[0] {
      LessTransitive(a[1..], b[1..], c[1..]);
    }
  }

  /** A proper prefix sorts first. */
  lemma {:induction false} PrefixIsLess(a: seq<Byte>, rest: seq<Byte>)
    requires rest != []
    ensures Less(a, a + rest)
    decreases |a|
  {
    if a != [] {
      assert (a + rest)[1..] == a[1..] + rest;
      PrefixIsLess(a[1..], rest);
    }
  }

  /** "Greater than" on strings, as `std::sort` sees it. */
  predicate Greater(a: seq<Byte>, b: seq<Byte>) {
    Compare(a, b) > 0
  }

  /** Any two strings are ordered one way or the other, or equal, and the
      "not greater" relation is transitive: a strict total order. */
  lemma GreaterIsStrictOrder()
    ensures forall x, y :: Greater(x, y) ==> !Greater(y, x)
    ensures forall x, y, z :: !Greater(x, y) && !Greater(y, z) ==> !Greater(x, z)
    ensures forall x, y :: x != y ==> Greater(x, y) || Greater(y, x)
  {
    forall x, y ensures Greater(x, y) ==> !Greater(y, x) {
      CompareAntisymmetric(x, y);
    }
    forall x, y, z | !Greater(x, y) && !Greater(y, z) ensures !Greater(x, z) {
      CompareZeroIffEqual(x, y);
      CompareZeroIffEqual(y, z);
      if Compare(x, y) < 0 && Compare(y, z) < 0 {
        LessTransitive(x, y, z);
      }
    }
    forall x, y | x != y ensures Greater(x, y) || Greater(y, x) {
      CompareZeroIffEqual(x, y);
      CompareAntisymmetric(x, y);
    }
  }
}
