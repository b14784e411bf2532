/**
 * Line handling that the record constructors rely on: `str::split(" ")`,
 * which cuts at EVERY single space (two spaces in a row give an empty
 * field), and `str::parse::<i32>` for the relevance grade.
 */
module Fields {
  import opened Basics

  /** `s.split(sep)`: the pieces between separators, in order; `""` gives one empty piece. */
  function Split(s: string, sep: char): (fields: seq<string>)
    ensures |fields| >= 1
    ensures forall i :: 0 <= i < |fields| ==> sep !in fields[i]
    decreases |s|
  {
    if s == [] then [""]
    else
      var rest := Split(s[1..], sep);
      if s[0] == sep then [""] + rest
      else [[s[0]] + rest[0]] + rest[1..]
  }

  /** The inverse of `Split`: the pieces glued back with one separator between neighbours. */
  function Join(fields: seq<string>, sep: char): string
    decreases |fields|
  {
    if fields == [] then ""
    else if |fields| == 1 then fields[0]
    else fields[0] + [sep] + Join(fields[1..], sep)
  }

  /** `Join` of four pieces. */
  lemma JoinFour(a: string, b: string, c: string, d: string, sep: char)
    ensures Join([a, b, c, d], sep) == a + [sep] + b + [sep] + c + [sep] + d
  {
    assert [a, b, c, d][1..] == [b, c, d] && [b, c, d][1..] == [c, d] && [c, d][1..] == [d];
    assert Join([d], sep) == d;
    assert Join([c, d], sep) == c + [sep] + d;
    assert Join([b, c, d], sep) == b + [sep] + (c + [sep] + d);
  }

  /** `Join` of six pieces. */
  lemma JoinSix(a: string, b: string, c: string, d: string, e: string, f: string, sep: char)
    ensures Join([a, b, c, d, e, f], sep) == a + [sep] + b + [sep] + c + [sep] + d + [sep] + e + [sep] + f
  {
    assert [a, b, c, d, e, f][1..] == [b, c, d, e, f];
    JoinFour(c, d, e, f, sep);
    assert [b, c, d, e, f][1..] == [c, d, e, f];
  }

  /** Splitting loses nothing: gluing the pieces back gives the line. */
  lemma {:induction false} JoinSplit(s: string, sep: char)
    ensures Join(Split(s, sep), sep) == s
    decreases |s|
  {
    if s != [] {
      var rest := Split(s[1..], sep);
      JoinSplit(s[1..], sep);
      if s[0] == sep {
        assert s == [sep] + s[1..];
      } else {
        assert s == [s[0]] + s[1..];
        if |rest| > 1 {
          assert rest == [rest[0]] + rest[1..];
        }
      }
    }
  }

  /** A piece without the separator in front of more text stays one piece. */
  lemma {:induction false} SplitPrefix(w: string, t: string, sep: char)
    requires sep !in w
    ensures Split(w + t, sep) == [w + Split(t, sep)[0]] + Split(t, sep)[1..]
    decreases |w|
  {
    if w != [] {
      assert (w + t)[1..] == w[1..] + t;
      SplitPrefix(w[1..], t, sep);
      assert [w[0]] + (w[1..] + Split(t, sep)[0]) == w + Split(t, sep)[0];
    } else {
      assert w + t == t;
      assert w + Split(t, sep)[0] == Split(t, sep)[0];
      assert Split(t, sep) == [Split(t, sep)[0]] + Split(t, sep)[1..];
    }
  }

  /** Fields that hold no separator come back unchanged from `Split` after `Join`. */
  lemma {:induction false} SplitJoin(fields: seq<string>, sep: char)
    requires |fields| >= 1
    requires forall i :: 0 <= i < |fields| ==> sep !in fields[i]
    ensures Split(Join(fields, sep), sep) == fields
    decreases |fields|
  {
    if |fields| == 1 {
      SplitPrefix(fields[0], "", sep);
      assert fields[0] + "" == fields[0];
    } else {
      var t := Join(fields[1..], sep);
      SplitJoin(fields[1..], sep);
      assert fields[0] + [sep] + t == fields[0] + ([sep] + t);
      SplitPrefix(fields[0], [sep] + t, sep);
      assert ([sep] + t)[1..] == t;
      assert fields[0] + "" == fields[0];
      assert fields == [fields[0]] + fields[1..];
    }
  }

  const I32Min: int := -0x8000_0000
  const I32Max: int := 0x7fff_ffff

  predicate IsDigit(c: char) {
    '0' <= c <= '9'
  }

  predicate AllDigits(s: string) {
    forall i :: 0 <= i < |s| ==> IsDigit(s[i])
  }

  /** The decimal value of a run of ASCII digits, most significant first. */
  function DigitsValue(s: string): nat
    requires AllDigits(s)
    decreases |s|
  {
    if s == [] then 0
    else DigitsValue(s[..|s| - 1]) * 10 + (s[|s| - 1] as int - '0' as int)
  }

  /**
   * `s.parse::<i32>()`: an optional `+` or `-`, then one or more ASCII
   * digits and nothing else, with a value that fits in 32 signed bits;
   * `None` is the `Err` that `unwrap` turns into a panic.
   */
  function ParseI32(s: string): (r: Option<int>)
    ensures r.Some? ==> I32Min <= r.value <= I32Max
  {
    var negative := |s| > 0 && s[0] == '-';
    var digits := if |s| > 0 && (s[0] == '-' || s[0] == '+') then s[1..] else s;
    if digits == [] || !AllDigits(digits) then None
    else
      var magnitude: int := DigitsValue(digits);
      var v := if negative then -magnitude else magnitude;
      if I32Min <= v <= I32Max then Some(v) else None
  }

  /** The decimal text of a natural number, without leading zeros. */
  function ShowNat(n: nat): (s: string)
    ensures s != [] && AllDigits(s)
    decreases n
  {
    if n < 10 then ['0' + n as char]
    else ShowNat(n / 10) + ['0' + (n % 10) as char]
  }

  /** The decimal text of an integer, `-` in front of a negative one. */
  function ShowInt(n: int): string {
    if n < 0 then "-" + ShowNat(-n) else ShowNat(n)
  }

  lemma {:induction false} DigitsValueShowNat(n: nat)
    ensures DigitsValue(ShowNat(n)) == n
    decreases n
  {
    if n >= 10 {
      DigitsValueShowNat(n / 10);
      var s := ShowNat(n);
      assert s[..|s| - 1] == ShowNat(n / 10);
    }
  }

  /** Printing a grade and parsing it back gives the grade, for every 32-bit value. */
  lemma ParseShowInt(n: int)
    requires I32Min <= n <= I32Max
    ensures ParseI32(ShowInt(n)) == Some(n)
    ensures ' ' !in ShowInt(n)
  {
    if n < 0 {
      DigitsValueShowNat(-n);
      assert ShowInt(n)[1..] == ShowNat(-n);
    } else {
      DigitsValueShowNat(n);
    }
  }
}
