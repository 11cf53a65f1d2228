/**
 The string operations the program relies on: repeating a character
 (`'=' * level`), rendering a non-negative integer in decimal (`str(id)`,
 `%d`), and joining lines with a separator (`"\n".join(ids)`), each with the
 inverse that recovers its input.
 */
module Text {

  /** `n` copies of `c`, as Python's `c * n` for n >= 0. */
  function Repeat(c: char, n: nat): (r: string)
    ensures |r| == n
    ensures forall i :: 0 <= i < n ==> r[i] == c
  {
    if n == 0 then [] else [c] + Repeat(c, n - 1)
  }

  predicate IsDigit(c: char) {
    '0' <= c <= '9'
  }

  predicate AllDigits(s: string) {
    forall i :: 0 <= i < |s| ==> IsDigit(s[i])
  }

  function DigitChar(d: nat): (c: char)
    requires d < 10
    ensures IsDigit(c)
    ensures c as int - '0' as int == d
  {
    ('0' as int + d) as char
  }

  /** Decimal rendering of a non-negative integer: at least one digit, and no
      leading zero unless the number is zero. */
  function NatToString(n: nat): (s: string)
    ensures |s| > 0 && AllDigits(s)
    ensures s[0] == '0' ==> n == 0 && |s| == 1
    decreases n
  {
    if n < 10 then [DigitChar(n)]
    else NatToString(n / 10) + [DigitChar(n % 10)]
  }

  /** The number a string of decimal digits denotes. */
  function DecimalValue(s: string): nat
    requires AllDigits(s)
    decreases |s|
  {
    if |s| == 0 then 0
    else DecimalValue(s[..|s| - 1]) * 10 + (s[|s| - 1] as int - '0' as int)
  }

  /** Reading the decimal rendering back yields the number rendered. */
  lemma {:induction false} DecimalRoundTrip(n: nat)
    ensures DecimalValue(NatToString(n)) == n
    decreases n
  {
    if n >= 10 {
      DecimalRoundTrip(n / 10);
      var s := NatToString(n);
      assert s[..|s| - 1] == NatToString(n / 10);
    }
  }

  /** Each of three strings written one after the other can be cut back out. */
  lemma ThreeParts(a: string, b: string, c: string)
    ensures var s := a + b + c;
      && s[..|a|] == a
      && s[|a|..|s| - |c|] == b
      && s[|s| - |c|..] == c
  {
  }

  /** The pieces written one after the other. */
  function Concat(xs: seq<string>): string {
    if |xs| == 0 then "" else xs[0] + Concat(xs[1..])
  }

  /** The number of characters in all the pieces together. */
  function Size(xs: seq<string>): nat {
    if |xs| == 0 then 0 else |xs[0]| + Size(xs[1..])
  }

  /** `sep.join(xs)`: the pieces with `sep` between neighbours. It starts with
      the first piece, holds every character of the pieces plus one separator
      per pair of neighbours, and with an empty separator is the plain
      concatenation; Split is its inverse (SplitJoin, JoinSplit). */
  function Join(xs: seq<string>, sep: string): (r: string)
    ensures |xs| > 0 ==> xs[0] <= r
    ensures |xs| > 0 ==> |r| == Size(xs) + (|xs| - 1) * |sep|
    ensures |sep| == 0 ==> r == Concat(xs)
  {
    if |xs| == 0 then ""
    else if |xs| == 1 then xs[0]
    else xs[0] + sep + Join(xs[1..], sep)
  }

  /** `s.split(c)`: the maximal pieces of `s` between occurrences of `c`;
      there is always one more piece than there are occurrences. */
  function Split(s: string, c: char): (r: seq<string>)
    ensures |r| > 0
    ensures forall i :: 0 <= i < |r| ==> c !in r[i]
    decreases |s|
  {
    if |s| == 0 then [""]
    else
      var rest := Split(s[1..], c);
      if s[0] == c then [""] + rest
      else [[s[0]] + rest[0]] + rest[1..]
  }

  lemma {:induction false} SplitPiece(x: string, c: char, rest: string)
    requires c !in x
    ensures Split(x + [c] + rest, c) == [x] + Split(rest, c)
    decreases |x|
  {
    var s := x + [c] + rest;
    if |x| == 0 {
      assert s[1..] == rest;
    } else {
      assert s[0] == x[0];
      assert s[1..] == x[1..] + [c] + rest;
      SplitPiece(x[1..], c, rest);
      assert [x[0]] + x[1..] == x;
    }
  }

  lemma {:induction false} SplitWhole(x: string, c: char)
    requires c !in x
    ensures Split(x, c) == [x]
    decreases |x|
  {
    if |x| > 0 {
      SplitWhole(x[1..], c);
      assert [x[0]] + x[1..] == x;
    }
  }

  /** Splitting a joined list at the separator gives the list back, provided
      it is non-empty and no piece contains the separator. */
  lemma {:induction false} SplitJoin(xs: seq<string>, c: char)
    requires |xs| > 0
    requires forall i :: 0 <= i < |xs| ==> c !in xs[i]
    ensures Split(Join(xs, [c]), c) == xs
    decreases |xs|
  {
    if |xs| == 1 {
      SplitWhole(xs[0], c);
    } else {
      SplitJoin(xs[1..], c);
      SplitPiece(xs[0], c, Join(xs[1..], [c]));
      assert [xs[0]] + xs[1..] == xs;
    }
  }

  /** Joining the pieces of a split restores the string. */
  lemma {:induction false} JoinSplit(s: string, c: char)
    ensures Join(Split(s, c), [c]) == s
    decreases |s|
  {
    if |s| > 0 {
      var rest := Split(s[1..], c);
      JoinSplit(s[1..], c);
      if s[0] == c {
        assert Join([""] + rest, [c]) == "" + [c] + Join(rest, [c]);
        assert [s[0]] + s[1..] == s;
      } else {
        var r := [[s[0]] + rest[0]] + rest[1..];
        if |rest| == 1 {
          assert Join(r, [c]) == [s[0]] + rest[0];
        } else {
          assert r[1..] == rest[1..];
          assert Join(rest, [c]) == rest[0] + [c] + Join(rest[1..], [c]);
          assert Join(r, [c]) == [s[0]] + rest[0] + [c] + Join(rest[1..], [c]);
        }
        assert [s[0]] + s[1..] == s;
      }
    }
  }
}
