/**
 The JavaScript string built-ins the survey tool relies on: `String(n)` for an
 integer, `padStart` with a one-character fill, and `Array.prototype.join`;
 together with the inverses used to state what they produce (reading a digit
 string back as a number, and `split` on one character).
 */
module Strings {

  predicate IsDigit(c: char) { '0' <= c <= '9' }

  predicate AllDigits(s: string) { forall i :: 0 <= i < |s| ==> IsDigit(s[i]) }

  function DigitChar(d: nat): (c: char)
    requires d < 10
    ensures IsDigit(c) && DigitValue(c) == d
  {
    ('0' as int + d) as char
  }

  function DigitValue(c: char): nat
    requires IsDigit(c)
  {
    c as int - '0' as int
  }

  /** `String(n)` for a non-negative integer: its decimal digits, with no leading zero. */
  function NatToDecimal(n: nat): (s: string)
    ensures |s| >= 1 && AllDigits(s)
    ensures s[0] == '0' <==> n == 0
    ensures n < 10 <==> |s| == 1
    decreases n
  {
    if n < 10 then [DigitChar(n)] else NatToDecimal(n / 10) + [DigitChar(n % 10)]
  }

  /** The number a digit string denotes (most significant digit first). */
  function DecimalValue(s: string): nat
    requires AllDigits(s)
    decreases |s|
  {
    if s == [] then 0
    else
      var p := s[..|s| - 1];
      assert forall i :: 0 <= i < |p| ==> p[i] == s[i];
      DecimalValue(p) * 10 + DigitValue(s[|s| - 1])
  }

  /** Reading the decimal text of `n` back gives `n`. */
  lemma {:induction false} DecimalValueOfDecimal(n: nat)
    ensures DecimalValue(NatToDecimal(n)) == n
    decreases n
  {
    if n >= 10 {
      var s := NatToDecimal(n);
      assert s[..|s| - 1] == NatToDecimal(n / 10);
      DecimalValueOfDecimal(n / 10);
    }
  }

  lemma {:induction false} LeadingNonZeroIsPositive(s: string)
    requires AllDigits(s) && |s| >= 1 && s[0] != '0'
    ensures DecimalValue(s) > 0
    decreases |s|
  {
    if |s| > 1 {
      var p := s[..|s| - 1];
      assert p[0] == s[0];
      LeadingNonZeroIsPositive(p);
    }
  }

  /** A digit string without a superfluous leading zero is the decimal text of its value. */
  lemma {:induction false} DecimalOfDecimalValue(s: string)
    requires AllDigits(s) && |s| >= 1 && (s[0] == '0' ==> |s| == 1)
    ensures NatToDecimal(DecimalValue(s)) == s
    decreases |s|
  {
    var p, d := s[..|s| - 1], DigitValue(s[|s| - 1]);
    if |s| == 1 {
      assert s == [DigitChar(d)];
    } else {
      assert p[0] == s[0];
      LeadingNonZeroIsPositive(p);
      DecimalOfDecimalValue(p);
      var v := DecimalValue(s);
      assert v == DecimalValue(p) * 10 + d;
      assert v / 10 == DecimalValue(p) && v % 10 == d;
      assert s == p + [DigitChar(d)];
    }
  }

  /**
   `String(i)` for an integer: a minus sign exactly for negative numbers, then the
   decimal text of the magnitude, with no superfluous leading zero.
   */
  function IntToDecimal(i: int): (s: string)
    ensures |s| >= 1
    ensures s[0] == '-' <==> i < 0
    ensures forall k :: 0 <= k < |s| ==> IsDigit(s[k]) || (k == 0 && s[k] == '-')
    ensures var d := if i < 0 then s[1..] else s;
      && |d| >= 1 && AllDigits(d)
      && DecimalValue(d) == (if i < 0 then -i else i)
      && (d[0] == '0' ==> i == 0)
  {
    var m: nat := if i < 0 then -i else i;
    DecimalValueOfDecimal(m);
    var d := NatToDecimal(m);
    if i < 0 then
      assert ("-" + d)[1..] == d;
      "-" + d
    else d
  }

  function Repeat(c: char, k: nat): (r: string)
    ensures |r| == k && forall i :: 0 <= i < k ==> r[i] == c
  {
    seq(k, _ => c)
  }

  /**
   `s.padStart(width, fill)` for a one-character fill: `s` itself when it is
   already `width` long or longer (never truncated), otherwise `s` preceded by
   as many fill characters as make it exactly `width` long.
   */
  function PadStart(s: string, width: nat, fill: char): (r: string)
    ensures |r| == if |s| < width then width else |s|
    ensures r[|r| - |s|..] == s
    ensures forall i :: 0 <= i < |r| - |s| ==> r[i] == fill
  {
    if |s| < width then Repeat(fill, width - |s|) + s else s
  }

  /** `parts.join(sep)`: the parts with one separator between neighbours. */
  function Join(sep: string, parts: seq<string>): string
    decreases |parts|
  {
    if |parts| == 0 then ""
    else if |parts| == 1 then parts[0]
    else parts[0] + sep + Join(sep, parts[1..])
  }

  lemma JoinCons(sep: string, a: string, ps: seq<string>)
    ensures Join(sep, [a] + ps) == a + (if |ps| == 0 then "" else sep + Join(sep, ps))
  {
    assert ([a] + ps)[1..] == ps;
  }

  /** A character in neither the separator nor any part is not in the joined text. */
  lemma {:induction false} NotInJoin(c: char, sep: string, parts: seq<string>)
    requires c !in sep
    requires forall k :: 0 <= k < |parts| ==> c !in parts[k]
    ensures c !in Join(sep, parts)
    decreases |parts|
  {
    if |parts| > 1 {
      NotInJoin(c, sep, parts[1..]);
    }
  }

  /** Joining two non-empty lists is joining each and putting one separator between. */
  lemma {:induction false} JoinAppend(sep: string, xs: seq<string>, ys: seq<string>)
    requires |xs| >= 1 && |ys| >= 1
    ensures Join(sep, xs + ys) == Join(sep, xs) + sep + Join(sep, ys)
    decreases |xs|
  {
    var t := xs[1..];
    assert xs == [xs[0]] + t;
    assert xs + ys == [xs[0]] + (t + ys);
    JoinCons(sep, xs[0], t + ys);
    JoinCons(sep, xs[0], t);
    if |t| > 0 {
      JoinAppend(sep, t, ys);
    }
  }

  /** Replacing one part `a + sep + b` by the two parts `a` and `b` leaves the joined text unchanged. */
  lemma {:induction false} JoinSplice(sep: string, xs: seq<string>, a: string, b: string, ys: seq<string>)
    ensures Join(sep, xs + [a + sep + b] + ys) == Join(sep, xs + [a, b] + ys)
    decreases |xs|
  {
    if xs == [] {
      assert xs + [a + sep + b] + ys == [a + sep + b] + ys;
      assert xs + [a, b] + ys == [a] + ([b] + ys);
      JoinCons(sep, a + sep + b, ys);
      JoinCons(sep, a, [b] + ys);
      JoinCons(sep, b, ys);
    } else {
      var t := xs[1..];
      assert xs + [a + sep + b] + ys == [xs[0]] + (t + [a + sep + b] + ys);
      assert xs + [a, b] + ys == [xs[0]] + (t + [a, b] + ys);
      JoinCons(sep, xs[0], t + [a + sep + b] + ys);
      JoinCons(sep, xs[0], t + [a, b] + ys);
      JoinSplice(sep, t, a, b, ys);
    }
  }

  /**
   `s.split(c)`: the maximal pieces of `s` between occurrences of `c`; there is
   always at least one piece, and no piece contains `c`.
   */
  function SplitOn(c: char, s: string): (r: seq<string>)
    ensures |r| >= 1
    ensures forall k :: 0 <= k < |r| ==> c !in r[k]
    decreases |s|
  {
    if s == [] then [""]
    else
      var rest := SplitOn(c, s[1..]);
      if s[0] == c then [""] + rest else [[s[0]] + rest[0]] + rest[1..]
  }

  /** Splitting text that starts with a separator-free prefix extends the first piece by that prefix. */
  lemma {:induction false} SplitOnPrefix(c: char, a: string, t: string)
    requires c !in a
    ensures SplitOn(c, a + t) == [a + SplitOn(c, t)[0]] + SplitOn(c, t)[1..]
    decreases |a|
  {
    if a == [] {
      var x := SplitOn(c, t);
      assert a + t == t && a + x[0] == x[0];
      assert [x[0]] + x[1..] == x;
    } else {
      assert a[0] in a;
      assert (a + t)[0] == a[0] != c && (a + t)[1..] == a[1..] + t;
      SplitOnPrefix(c, a[1..], t);
      var rest := SplitOn(c, a[1..] + t);
      assert SplitOn(c, a + t) == [[a[0]] + rest[0]] + rest[1..];
      assert [a[0]] + (a[1..] + SplitOn(c, t)[0]) == a + SplitOn(c, t)[0];
    }
  }

  /** Splitting undoes joining, provided no part contains the separator. */
  lemma {:induction false} SplitOnJoin(c: char, parts: seq<string>)
    requires |parts| >= 1
    requires forall k :: 0 <= k < |parts| ==> c !in parts[k]
    ensures SplitOn(c, Join([c], parts)) == parts
    decreases |parts|
  {
    var rest := parts[1..];
    JoinCons([c], parts[0], rest);
    assert [parts[0]] + rest == parts;
    if |rest| == 0 {
      SplitOnPrefix(c, parts[0], "");
    } else {
      var t := [c] + Join([c], rest);
      SplitOnPrefix(c, parts[0], t);
      assert t[1..] == Join([c], rest);
      SplitOnJoin(c, rest);
      assert t != [] && t[0] == c;
      assert SplitOn(c, t) == [""] + SplitOn(c, t[1..]);
      assert SplitOn(c, t) == [""] + rest;
      assert SplitOn(c, t)[0] == "" && SplitOn(c, t)[1..] == rest;
      assert parts[0] + "" == parts[0];
      assert Join([c], parts) == parts[0] + t;
    }
  }

  /** Joining undoes splitting, for every text. */
  lemma {:induction false} JoinSplitOn(c: char, s: string)
    ensures Join([c], SplitOn(c, s)) == s
    decreases |s|
  {
    if s != [] {
      var rest := SplitOn(c, s[1..]);
      JoinSplitOn(c, s[1..]);
      if s[0] == c {
        JoinCons([c], "", rest);
        assert s == [c] + s[1..];
      } else {
        var r := [[s[0]] + rest[0]] + rest[1..];
        JoinCons([c], [s[0]] + rest[0], rest[1..]);
        JoinCons([c], rest[0], rest[1..]);
        assert [rest[0]] + rest[1..] == rest;
        assert s == [s[0]] + s[1..];
      }
    }
  }
}
