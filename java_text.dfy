/** The parts of java.lang that the serializer relies on: String.split with one ordinary
    separator character and the default limit 0, Integer.parseInt in radix 10, and the
    toString conversions that Bukkit's ConfigurationSection.getString applies. */
module JavaText {
  import opened Wrappers

  /** Every piece of `s` between occurrences of `sep`, empty pieces included: the list that
      String.split collects before it discards trailing empty strings. */
  function Pieces(s: string, sep: char): (r: seq<string>)
    ensures |r| >= 1
    ensures forall i :: 0 <= i < |r| ==> sep !in r[i]
    decreases |s|
  {
    if s == [] then [[]]
    else
      var rest := Pieces(s[1..], sep);
      if s[0] == sep then [[]] + rest
      else [[s[0]] + rest[0]] + rest[1..]
  }

  /** The pieces put back together, one separator between neighbours (String.join). */
  function Join(ps: seq<string>, sep: char): string
  {
    if ps == [] then []
    else if |ps| == 1 then ps[0]
    else ps[0] + [sep] + Join(ps[1..], sep)
  }

  /** Drops the empty strings at the end of a split result, as split with limit 0 does. */
  function DropTrailingEmpty(ps: seq<string>): (r: seq<string>)
    ensures r <= ps
    ensures r == [] || r[|r| - 1] != []
    ensures forall i :: |r| <= i < |ps| ==> ps[i] == []
  {
    if ps != [] && ps[|ps| - 1] == [] then DropTrailingEmpty(ps[..|ps| - 1]) else ps
  }

  /** `s.split(sep)` for a separator that is not a regular-expression metacharacter:
      without an occurrence of `sep` the whole string is the only part (so "" gives [""]);
      otherwise the pieces with the trailing empty ones removed (so ":" gives []). */
  function Split(s: string, sep: char): (r: seq<string>)
    ensures forall i :: 0 <= i < |r| ==> sep !in r[i]
    ensures sep !in s ==> r == [s]
  {
    if sep !in s then [s] else DropTrailingEmpty(Pieces(s, sep))
  }

  /** Where the separator occurs, the parts are the leading pieces and only empty pieces
      were dropped after them. */
  lemma SplitDropsOnlyTrailingEmpties(s: string, sep: char)
    requires sep in s
    ensures Split(s, sep) <= Pieces(s, sep)
    ensures Split(s, sep) == [] || Split(s, sep)[|Split(s, sep)| - 1] != []
    ensures forall i :: |Split(s, sep)| <= i < |Pieces(s, sep)| ==> Pieces(s, sep)[i] == []
  {
  }

  function Repeat(c: char, n: nat): (r: string)
  {
    seq(n, _ => c)
  }

  /** Splitting loses nothing: joining the pieces gives the string back. */
  lemma {:induction false} JoinPieces(s: string, sep: char)
    ensures Join(Pieces(s, sep), sep) == s
    decreases |s|
  {
    if s != [] {
      var rest := Pieces(s[1..], sep);
      JoinPieces(s[1..], sep);
      if s[0] == sep {
        assert Pieces(s, sep)[1..] == rest;
      } else {
        assert Pieces(s, sep)[1..] == rest[1..];
        if |rest| > 1 {
          assert rest[1..][1..] == rest[2..];
          assert Join(rest, sep) == rest[0] + [sep] + Join(rest[1..], sep);
        }
      }
    }
  }

  lemma {:induction false} PiecesOfPlain(a: string, sep: char)
    requires sep !in a
    ensures Pieces(a, sep) == [a]
    decreases |a|
  {
    if a != [] {
      PiecesOfPlain(a[1..], sep);
      assert [a[0]] + a[1..] == a;
    }
  }

  lemma {:induction false} PiecesOfSeparators(sep: char, n: nat)
    ensures Pieces(Repeat(sep, n), sep) == seq(n + 1, _ => [])
  {
    if n > 0 {
      assert Repeat(sep, n)[1..] == Repeat(sep, n - 1);
      PiecesOfSeparators(sep, n - 1);
    }
  }

  /** A separator splits the piece list in two: the pieces before it and the pieces after it. */
  lemma {:induction false} PiecesAround(x: string, y: string, sep: char)
    ensures Pieces(x + [sep] + y, sep) == Pieces(x, sep) + Pieces(y, sep)
    decreases |x|
  {
    var s := x + [sep] + y;
    if x == [] {
      assert s[1..] == y;
    } else {
      assert s[1..] == x[1..] + [sep] + y;
      PiecesAround(x[1..], y, sep);
    }
  }

  lemma {:induction false} DropTrailingEmptyOfEmpties(xs: seq<string>, ys: seq<string>)
    requires xs != [] && xs[|xs| - 1] != []
    requires forall i :: 0 <= i < |ys| ==> ys[i] == []
    ensures DropTrailingEmpty(xs + ys) == xs
    decreases |ys|
  {
    if ys != [] {
      assert (xs + ys)[..|xs + ys| - 1] == xs + ys[..|ys| - 1];
      DropTrailingEmptyOfEmpties(xs, ys[..|ys| - 1]);
    } else {
      assert xs + ys == xs;
    }
  }

  /** A separator-free, non-empty b followed by n separators: b, then n empty pieces. */
  lemma PiecesOfPlainThenSeparators(b: string, n: nat, sep: char)
    requires sep !in b
    ensures Pieces(b + Repeat(sep, n), sep) == [b] + seq(n, _ => [])
  {
    PiecesOfPlain(b, sep);
    if n == 0 {
      assert b + Repeat(sep, n) == b;
    } else {
      assert b + Repeat(sep, n) == b + [sep] + Repeat(sep, n - 1);
      PiecesAround(b, Repeat(sep, n - 1), sep);
      PiecesOfSeparators(sep, n - 1);
    }
  }

  /** `(a + sep + b + sep...sep).split(sep)` has exactly the two parts a and b whenever neither
      contains the separator and b is not empty, whatever the number of trailing separators
      (so "A:1" and "A:1:" both give ["A", "1"]). */
  lemma SplitPair(a: string, b: string, n: nat, sep: char)
    requires sep !in a && sep !in b && b != []
    ensures Split(a + [sep] + b + Repeat(sep, n), sep) == [a, b]
  {
    var s := a + [sep] + b + Repeat(sep, n);
    assert s[|a|] == sep;
    assert s == a + [sep] + (b + Repeat(sep, n));
    PiecesAround(a, b + Repeat(sep, n), sep);
    PiecesOfPlain(a, sep);
    PiecesOfPlainThenSeparators(b, n, sep);
    assert Pieces(s, sep) == [a, b] + seq(n, _ => []);
    DropTrailingEmptyOfEmpties([a, b], seq(n, _ => []));
  }

  /** `a + sep` (a without the separator) splits into the one part a: the trailing empty
      piece is dropped, so "A:" has a single part. */
  lemma SplitTrailingSeparator(a: string, sep: char)
    requires sep !in a && a != []
    ensures Split(a + [sep], sep) == [a]
  {
    assert (a + [sep])[|a|] == sep;
    assert a + [sep] == a + [sep] + [];
    PiecesAround(a, [], sep);
    PiecesOfPlain(a, sep);
    DropTrailingEmptyOfEmpties([a], [[]]);
  }

  // ----- Integer.parseInt(s) and Integer.toString(n) -----

  /** The range of a Java `int`. */
  const IntMin: int := -0x8000_0000
  const IntMax: int := 0x7fff_ffff

  predicate IsDigit(c: char) { '0' <= c <= '9' }

  predicate AllDigits(s: string) { forall i :: 0 <= i < |s| ==> IsDigit(s[i]) }

  /** The value of a string of decimal digits, most significant digit first. */
  function DigitsValue(ds: string): nat
    requires AllDigits(ds)
  {
    if ds == [] then 0 else DigitsValue(ds[..|ds| - 1]) * 10 + (ds[|ds| - 1] as int - '0' as int)
  }

  /** Integer.parseInt(s): an optional '-' or '+' sign, then at least one decimal digit, and a
      value that fits in an `int`; anything else is a NumberFormatException (None). */
  function ParseInt(s: string): (r: Option<int>)
    ensures r.Some? ==> IntMin <= r.value <= IntMax
    ensures r.Some? ==> s != [] && forall i :: 0 < i < |s| ==> IsDigit(s[i])
    ensures r.Some? ==> IsDigit(s[0]) || (|s| > 1 && (s[0] == '-' || s[0] == '+'))
    ensures s == [] || s == "-" || s == "+" ==> r == None
  {
    if s == [] then None
    else
      var digits := if s[0] == '-' || s[0] == '+' then s[1..] else s;
      if digits == [] || !AllDigits(digits) then None
      else
        var v: int := if s[0] == '-' then 0 - (DigitsValue(digits) as int) else DigitsValue(digits);
        if IntMin <= v <= IntMax then Some(v) else None
  }

  /** The value Integer.parseInt gives a string of digits, unsigned, with '+' or with '-':
      the digits' value when it fits in an `int`, a NumberFormatException (None) when it
      overflows. */
  lemma ParseIntOfDigits(d: string)
    requires d != [] && AllDigits(d)
    ensures ParseInt(d) == if DigitsValue(d) <= IntMax then Some(DigitsValue(d)) else None
    ensures ParseInt("+" + d) == if DigitsValue(d) <= IntMax then Some(DigitsValue(d)) else None
    ensures ParseInt("-" + d) == if IntMin <= 0 - DigitsValue(d) as int then Some(0 - DigitsValue(d) as int) else None
  {
    assert IsDigit(d[0]);
    assert ("+" + d)[1..] == d;
    assert ("-" + d)[1..] == d;
  }

  function DigitChar(d: nat): char
    requires d < 10
  {
    ('0' as int + d) as char
  }

  /** The decimal digits of n without leading zeros (Integer.toString of a non-negative int). */
  function NatToString(n: nat): (r: string)
    ensures r != [] && AllDigits(r)
  {
    if n < 10 then [DigitChar(n)] else NatToString(n / 10) + [DigitChar(n % 10)]
  }

  /** Integer.toString(n): a '-' for negative numbers, then the digits. */
  function IntToString(n: int): (r: string)
  {
    if n < 0 then "-" + NatToString(-n) else NatToString(n)
  }

  lemma {:induction false} DigitsOfNatToString(n: nat)
    ensures DigitsValue(NatToString(n)) == n
  {
    if n >= 10 {
      var s := NatToString(n);
      assert s[..|s| - 1] == NatToString(n / 10);
      DigitsOfNatToString(n / 10);
    }
  }

  /** Integer.parseInt reads back every `int` that Integer.toString writes. */
  lemma ParseIntToString(n: int)
    requires IntMin <= n <= IntMax
    ensures ParseInt(IntToString(n)) == Some(n)
  {
    var s := IntToString(n);
    if n < 0 {
      assert s[1..] == NatToString(-n);
      DigitsOfNatToString(-n);
    } else {
      DigitsOfNatToString(n);
    }
  }

  /** The text of a number contains only digits and a leading minus sign. */
  lemma IntToStringChars(n: int)
    ensures IntToString(n) != []
    ensures forall i :: 0 <= i < |IntToString(n)| ==> IsDigit(IntToString(n)[i]) || IntToString(n)[i] == '-'
  {
  }

  /** Java's `(short)` cast of an int: the low 16 bits read as a two's-complement number. */
  function ToShort(i: int): (s: int)
    ensures -0x8000 <= s < 0x8000
    ensures (i - s) % 0x1_0000 == 0
    ensures -0x8000 <= i < 0x8000 ==> s == i
  {
    (i + 0x8000) % 0x1_0000 - 0x8000
  }

  /** Boolean.toString. */
  function BoolToString(b: bool): string
  {
    if b then "true" else "false"
  }

  /** The elements separated by ", " (the body of AbstractCollection.toString). */
  function CommaJoin(items: seq<string>): string
  {
    if items == [] then []
    else if |items| == 1 then items[0]
    else items[0] + ", " + CommaJoin(items[1..])
  }

  /** List.toString of a list of strings: "[a, b]". */
  function ListToString(items: seq<string>): string
  {
    "[" + CommaJoin(items) + "]"
  }
}
