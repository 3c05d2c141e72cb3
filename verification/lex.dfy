/**
 The text order every comparison of the table uses. Cells are C strings
 compared with `strcmp`, which orders them byte by byte as unsigned values,
 with a proper prefix first. On UTF-8 text that order coincides with the
 order of code points, so cells are modelled as `string` and compared
 character by character.
 */
module Lex {

  /** Three-way comparison with the sign convention of `strcmp`: -1, 0 or 1
      as `a` sorts before, equal to, or after `b`. */
  function Compare(a: string, b: string): (r: int)
    ensures -1 <= r <= 1
    ensures r == 0 <==> a == b
    decreases |a|
  {
    if |a| == 0 && |b| == 0 then 0
    else if |a| == 0 then -1
    else if |b| == 0 then 1
    else if a[0] < b[0] then -1
    else if a[0] > b[0] then 1
    else
      var r := Compare(a[1..], b[1..]);
      assert a == [a[0]] + a[1..] && b == [b[0]] + b[1..];
      r
  }

  /** `strcmp(a, b) < 0` */
  predicate Less(a: string, b: string) {
    Compare(a, b) < 0
  }

  /** `strcmp(a, b) <= 0` */
  predicate LessEq(a: string, b: string) {
    Compare(a, b) <= 0
  }

  /** Swapping the operands flips the sign of the comparison. */
  lemma {:induction false} CompareAntisymmetric(a: string, b: string)
    ensures Compare(b, a) == -Compare(a, b)
    decreases |a|
  {
    if |a| > 0 && |b| > 0 && a[0] == b[0] {
      CompareAntisymmetric(a[1..], b[1..]);
    }
  }

  /** `LessEq` is transitive. */
  lemma {:induction false} CompareTransitive(a: string, b: string, c: string)
    requires LessEq(a, b) && LessEq(b, c)
    ensures LessEq(a, c)
    decreases |a|
  {
    if |a| > 0 && |b| > 0 && |c| > 0 && a[0] == b[0] == c[0] {
      CompareTransitive(a[1..], b[1..], c[1..]);
    }
  }

  /** Any two strings are comparable. */
  lemma Total(a: string, b: string)
    ensures LessEq(a, b) || LessEq(b, a)
    ensures !Less(a, b) ==> LessEq(b, a)
  {
    CompareAntisymmetric(a, b);
  }

  /** `LessEq` is antisymmetric, so it is a total order on strings. */
  lemma Antisymmetric(a: string, b: string)
    requires LessEq(a, b) && LessEq(b, a)
    ensures a == b
  {
    CompareAntisymmetric(a, b);
  }

  /** A strict step followed by a weak one is strict. */
  lemma LessLessEqTransitive(a: string, b: string, c: string)
    requires Less(a, b) && LessEq(b, c)
    ensures Less(a, c)
  {
    CompareTransitive(a, b, c);
    if a == c {
      Antisymmetric(a, b);
    }
  }

  /** A weak step followed by a strict one is strict. */
  lemma LessEqLessTransitive(a: string, b: string, c: string)
    requires LessEq(a, b) && Less(b, c)
    ensures Less(a, c)
  {
    CompareTransitive(a, b, c);
    if a == c {
      Antisymmetric(b, c);
    }
  }

  /** The empty string, the table's marker for a missing cell, sorts first. */
  lemma EmptyIsLeast(s: string)
    ensures LessEq("", s)
    ensures s != "" ==> Less("", s)
  {
  }

  /** A proper prefix sorts strictly before the longer string. */
  lemma {:induction false} PrefixIsLess(a: string, b: string)
    requires |a| < |b| && a == b[..|a|]
    ensures Less(a, b)
    decreases |a|
  {
    if |a| > 0 {
      assert a[0] == b[0];
      assert a[1..] == b[1..][..|a[1..]|];
      PrefixIsLess(a[1..], b[1..]);
    }
  }

  /** The first position where two texts differ decides their order, by the
      characters found there; what follows plays no part. */
  lemma {:induction false} FirstDifferenceDecides(p: string, x: char, y: char, s: string, u: string)
    requires x != y
    ensures Compare(p + [x] + s, p + [y] + u) == (if x < y then -1 else 1)
    decreases |p|
  {
    var a, b := p + [x] + s, p + [y] + u;
    if |p| == 0 {
      assert a[0] == x && b[0] == y;
    } else {
      assert a[0] == p[0] && b[0] == p[0];
      assert a[1..] == p[1..] + [x] + s && b[1..] == p[1..] + [y] + u;
      FirstDifferenceDecides(p[1..], x, y, s, u);
    }
  }
}
