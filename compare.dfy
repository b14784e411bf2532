/**
 * Three-way comparison as Rust's `std::cmp::Ordering` gives it, and the
 * order Rust's `Ord for String` puts on text: lexicographic, character by
 * character, a proper prefix before the longer string. For UTF-8 text this
 * is the same as comparing the bytes, so `char` order is enough here.
 */
module Compare {

  datatype Ordering = Less | Equal | Greater {

    /** `Ordering::reverse`: what comparing the arguments the other way round gives. */
    function Reverse(): Ordering {
      match this
      case Less => Greater
      case Equal => Equal
      case Greater => Less
    }

    /** `Ordering::then_with`: the second key only decides ties of the first. */
    function Then(next: Ordering): Ordering {
      if this == Equal then next else this
    }
  }

  /** `i32::cmp`. */
  function CmpInt(a: int, b: int): Ordering {
    if a < b then Less else if a == b then Equal else Greater
  }

  /** `f64::partial_cmp` on a number that is not NaN, modelled on exact reals. */
  function CmpReal(a: real, b: real): Ordering {
    if a < b then Less else if a == b then Equal else Greater
  }

  /** `String::cmp`: lexicographic order on characters. */
  function CmpStr(a: string, b: string): (o: Ordering)
    ensures o == Equal <==> a == b
    decreases |a|
  {
    if a == [] then (if b == [] then Equal else Less)
    else if b == [] then Greater
    else if a[0] < b[0] then Less
    else if a[0] > b[0] then Greater
    else
      assert a == [a[0]] + a[1..] && b == [b[0]] + b[1..];
      CmpStr(a[1..], b[1..])
  }

  /** `a <= b` for Rust strings. */
  predicate StrLe(a: string, b: string) {
    CmpStr(a, b) != Greater
  }

  /** Comparing the other way round reverses the answer. */
  lemma {:induction false} CmpStrReverse(a: string, b: string)
    ensures CmpStr(b, a) == CmpStr(a, b).Reverse()
    decreases |a|
  {
    if a != [] && b != [] && a[0] == b[0] {
      CmpStrReverse(a[1..], b[1..]);
    }
  }

  /** The string order is antisymmetric. */
  lemma StrLeAntisymmetric(a: string, b: string)
    requires StrLe(a, b) && StrLe(b, a)
    ensures a == b
  {
    CmpStrReverse(a, b);
  }

  /** The string order is transitive. */
  lemma {:induction false} StrLeTransitive(a: string, b: string, c: string)
    requires StrLe(a, b) && StrLe(b, c)
    ensures StrLe(a, c)
    decreases |a|
  {
    if a != [] && b != [] && c != [] && a[0] == b[0] == c[0] {
      StrLeTransitive(a[1..], b[1..], c[1..]);
    }
  }

  /** The empty string, the "no current topic" sentinel of both scans, comes before every other string. */
  lemma EmptyIsLeast(s: string)
    ensures StrLe("", s)
    ensures s != "" ==> CmpStr("", s) == Less
  {
  }

  /** Nothing sorts before the empty string. */
  lemma {:induction false} NothingBelowEmpty(a: string)
    requires StrLe(a, "")
    ensures a == ""
  {
    EmptyIsLeast(a);
    StrLeAntisymmetric(a, "");
  }
}
