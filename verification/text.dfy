/**
 * The string primitives the Rust code relies on: `str::split(char)`,
 * `str::starts_with`, `u32::from_str` and the decimal rendering of `{}`.
 */
module Text {
  import opened Outcomes

  predicate StartsWith(s: string, prefix: string) {
    |prefix| <= |s| && s[..|prefix|] == prefix
  }

  /** Inverse of `Split`: the pieces glued back with the separator. */
  function Join(pieces: seq<string>, sep: char): string {
    if |pieces| == 0 then ""
    else if |pieces| == 1 then pieces[0]
    else pieces[0] + [sep] + Join(pieces[1..], sep)
  }

  /**
   * `s.split(sep)`: always at least one piece, no piece holds the separator,
   * every piece is made of characters of `s`, and there is exactly one piece
   * when the separator does not occur.
   */
  function Split(s: string, sep: char): (pieces: seq<string>)
    ensures |pieces| >= 1
    ensures forall i :: 0 <= i < |pieces| ==> sep !in pieces[i]
    ensures forall i, c :: 0 <= i < |pieces| && c in pieces[i] ==> c in s
    ensures |pieces| == 1 <==> sep !in s
    decreases |s|
  {
    if |s| == 0 then [""]
    else
      var rest := Split(s[1..], sep);
      assert forall c :: c in s[1..] ==> c in s;
      if s[0] == sep then [""] + rest
      else [[s[0]] + rest[0]] + rest[1..]
  }

  lemma {:induction false} SplitJoin(s: string, sep: char)
    ensures Join(Split(s, sep), sep) == s
    decreases |s|
  {
    if |s| > 0 {
      var rest := Split(s[1..], sep);
      SplitJoin(s[1..], sep);
      assert s == [s[0]] + s[1..];
      if s[0] == sep {
        JoinCons("", rest, sep);
      } else {
        JoinHead(s[0], rest, sep);
      }
    }
  }

  /** Joining a piece in front of at least one more adds it and a separator. */
  lemma JoinCons(p: string, rest: seq<string>, sep: char)
    requires |rest| >= 1
    ensures Join([p] + rest, sep) == p + [sep] + Join(rest, sep)
  {
    assert ([p] + rest)[1..] == rest;
  }

  /** Extending the first piece by a character extends the joined text by it. */
  lemma JoinHead(c: char, pieces: seq<string>, sep: char)
    requires |pieces| >= 1
    ensures Join([[c] + pieces[0]] + pieces[1..], sep) == [c] + Join(pieces, sep)
  {
    var ext := [[c] + pieces[0]] + pieces[1..];
    if |pieces| > 1 {
      assert ext[1..] == pieces[1..];
      assert Join(ext, sep) == [c] + pieces[0] + [sep] + Join(pieces[1..], sep);
    }
  }

  /** The first piece of `a + t`, when `a` holds no separator, extends `a`. */
  lemma {:induction false} SplitHead(a: string, t: string, sep: char)
    requires sep !in a
    ensures Split(a + t, sep)[0] == a + Split(t, sep)[0]
    ensures Split(a + t, sep)[1..] == Split(t, sep)[1..]
    decreases |a|
  {
    if |a| > 0 {
      assert (a + t)[1..] == a[1..] + t;
      SplitHead(a[1..], t, sep);
      assert a == [a[0]] + a[1..];
    } else {
      assert a + t == t;
    }
  }

  /** Splitting `a + [sep] + b` with `a` separator-free yields `a` then the pieces of `b`. */
  lemma SplitAfter(a: string, b: string, sep: char)
    requires sep !in a
    ensures Split(a + [sep] + b, sep) == [a] + Split(b, sep)
  {
    var t := [sep] + b;
    SplitHead(a, t, sep);
    assert t[1..] == b;
    assert Split(t, sep) == [""] + Split(b, sep);
    assert a + [sep] + b == a + t;
    var r := Split(a + t, sep);
    assert r[0] == a;
    assert r[1..] == ([""] + Split(b, sep))[1..] == Split(b, sep);
    assert r == [r[0]] + r[1..];
  }

  /** When `t` starts with the separator (or is empty) the first piece of `a + t` is exactly `a`. */
  lemma SplitStop(a: string, t: string, sep: char)
    requires sep !in a
    requires t == [] || t[0] == sep
    ensures Split(a + t, sep)[0] == a
  {
    SplitHead(a, t, sep);
    if t != [] {
      assert Split(t, sep) == [""] + Split(t[1..], sep);
    }
  }

  /**
   * A separator between two texts splits them apart: the pieces of
   * `a + [sep] + b` are the pieces of `a` followed by those of `b`.
   */
  lemma {:induction false} SplitConcat(a: string, b: string, sep: char)
    ensures Split(a + [sep] + b, sep) == Split(a, sep) + Split(b, sep)
    decreases |a|
  {
    if a == [] {
      assert a + [sep] + b == [sep] + b;
      SplitCons(sep, b, sep);
    } else {
      var t := a[1..];
      assert a == [a[0]] + t;
      assert a + [sep] + b == [a[0]] + (t + [sep] + b);
      SplitCons(a[0], t + [sep] + b, sep);
      SplitCons(a[0], t, sep);
      SplitConcat(t, b, sep);
      ConsPieces(a[0], sep, Split(t, sep), Split(b, sep));
    }
  }

  /** One step of `Split`: the first character either ends the first piece or joins it. */
  lemma SplitCons(c: char, t: string, sep: char)
    ensures Split([c] + t, sep) ==
      if c == sep then [""] + Split(t, sep) else [[c] + Split(t, sep)[0]] + Split(t, sep)[1..]
  {
    assert ([c] + t)[1..] == t;
  }

  /** The step of `Split` commutes with appending more pieces. */
  lemma ConsPieces(c: char, sep: char, x: seq<string>, y: seq<string>)
    requires |x| >= 1
    ensures var r := x + y;
      (if c == sep then [""] + r else [[c] + r[0]] + r[1..]) ==
      (if c == sep then [""] + x else [[c] + x[0]] + x[1..]) + y
  {
    var r := x + y;
    if c != sep {
      assert r[0] == x[0] && r[1..] == x[1..] + y;
    }
  }

  /** The first piece of `t` starts with `t`'s first character when that is not the separator. */
  lemma SplitHeadChar(t: string, sep: char)
    requires t != [] && t[0] != sep
    ensures Split(t, sep)[0] != [] && Split(t, sep)[0][0] == t[0]
  {
  }

  // ---------------------------------------------------------------- numbers

  predicate IsDigit(c: char) {
    '0' <= c <= '9'
  }

  predicate AllDigits(s: string) {
    forall i :: 0 <= i < |s| ==> IsDigit(s[i])
  }

  function DigitChar(d: nat): (c: char)
    requires d < 10
    ensures IsDigit(c) && c as int - '0' as int == d
  {
    ('0' as int + d) as char
  }

  /** The value of a decimal digit string. */
  function ValueOf(s: string): nat
    requires AllDigits(s)
    decreases |s|
  {
    if s == [] then 0
    else ValueOf(s[..|s| - 1]) * 10 + (s[|s| - 1] as int - '0' as int)
  }

  /** Rendering of an unsigned integer by `format!("{}")`: shortest decimal, no sign. */
  function Show(n: nat): (s: string)
    ensures |s| >= 1 && AllDigits(s)
    ensures |s| > 1 ==> s[0] != '0'
  {
    if n < 10 then [DigitChar(n)] else Show(n / 10) + [DigitChar(n % 10)]
  }

  lemma {:induction false} ValueOfShow(n: nat)
    ensures ValueOf(Show(n)) == n
  {
    if n >= 10 {
      var s := Show(n);
      assert s[..|s| - 1] == Show(n / 10);
      ValueOfShow(n / 10);
    }
  }

  lemma ShowInjective(a: nat, b: nat)
    requires Show(a) == Show(b)
    ensures a == b
  {
    ValueOfShow(a);
    ValueOfShow(b);
  }

  /**
   * `u32::from_str`: an optional leading `+`, then one or more decimal
   * digits whose value fits in 32 bits; anything else (empty text, a sign
   * alone, a `-`, any other character, an overflow) is an error.
   */
  function ParseU32(s: string): (r: Option<U32>)
    ensures s == [] ==> r == None
    ensures r.Some? ==> forall i :: 0 <= i < |s| ==> IsDigit(s[i]) || (i == 0 && s[i] == '+')
  {
    var digits := if |s| > 0 && s[0] == '+' then s[1..] else s;
    if |digits| == 0 || !AllDigits(digits) then None
    else
      var v := ValueOf(digits);
      if v < U32Limit then Some(v) else None
  }

  /** Parsing the rendering of any `u32` gives it back. */
  lemma ParseShow(n: nat)
    requires n < U32Limit
    ensures ParseU32(Show(n)) == Some(n)
  {
    ValueOfShow(n);
  }
}
