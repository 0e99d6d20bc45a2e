/** Character-level helpers standing in for Python's str methods, int() and "%d". */
module Text {

  predicate IsDigit(c: char) {
    '0' <= c <= '9'
  }

  predicate AllDigits(s: string) {
    forall i :: 0 <= i < |s| ==> IsDigit(s[i])
  }

  /** A decimal numeral as "%d" prints it: no sign, no leading zero except in "0". */
  predicate Canonical(s: string) {
    |s| > 0 && AllDigits(s) && (|s| == 1 || s[0] != '0')
  }

  function DigitValue(c: char): nat
    requires IsDigit(c)
  {
    (c as int) - ('0' as int)
  }

  function DigitChar(d: nat): (c: char)
    requires d < 10
    ensures IsDigit(c) && DigitValue(c) == d
  {
    (('0' as int) + d) as char
  }

  /** int(s) on a run of decimal digits (leading zeros are accepted). */
  function ParseNat(s: string): nat
    requires AllDigits(s)
  {
    if s == [] then 0 else ParseNat(s[..|s| - 1]) * 10 + DigitValue(s[|s| - 1])
  }

  /** "%d" % n for a non-negative n. */
  function NatToString(n: nat): (s: string)
    ensures |s| > 0 && AllDigits(s)
  {
    if n < 10 then [DigitChar(n)] else NatToString(n / 10) + [DigitChar(n % 10)]
  }

  lemma {:induction false} ParseNatToString(n: nat)
    ensures ParseNat(NatToString(n)) == n
  {
    var s := NatToString(n);
    if n >= 10 {
      assert s[..|s| - 1] == NatToString(n / 10);
      ParseNatToString(n / 10);
    }
  }

  lemma {:induction false} NatToStringCanonical(n: nat)
    ensures Canonical(NatToString(n))
  {
    if n >= 10 {
      NatToStringCanonical(n / 10);
      assert NatToString(n)[0] == NatToString(n / 10)[0];
    }
  }

  lemma {:induction false} ParseNatPositive(s: string)
    requires |s| > 0 && AllDigits(s) && s[0] != '0'
    ensures ParseNat(s) > 0
  {
    if |s| > 1 {
      ParseNatPositive(s[..|s| - 1]);
    }
  }

  /** A canonical numeral is exactly what "%d" prints for the value int() reads from it. */
  lemma {:induction false} NatToStringParse(s: string)
    requires Canonical(s)
    ensures NatToString(ParseNat(s)) == s
  {
    if |s| > 1 {
      var init := s[..|s| - 1];
      ParseNatPositive(init);
      NatToStringParse(init);
      var n := ParseNat(s);
      assert n / 10 == ParseNat(init) && n % 10 == DigitValue(s[|s| - 1]);
      assert s == init + [s[|s| - 1]];
    }
  }

  /** str.replace("!", ""): every negation marker removed. */
  function StripBang(s: string): (r: string)
    ensures '!' !in r
    ensures |r| <= |s|
    ensures forall c :: c != '!' ==> multiset(r)[c] == multiset(s)[c]
  {
    if s == [] then []
    else
      assert s == [s[0]] + s[1..];
      (if s[0] == '!' then [] else [s[0]]) + StripBang(s[1..])
  }

  /** The replace works piece by piece, so every other character keeps its place. */
  lemma {:induction false} StripBangAppend(a: string, b: string)
    ensures StripBang(a + b) == StripBang(a) + StripBang(b)
  {
    if a == [] {
      assert a + b == b;
    } else {
      assert (a + b)[1..] == a[1..] + b;
      StripBangAppend(a[1..], b);
    }
  }

  /** Removing the markers a second time changes nothing. */
  lemma StripBangTwice(s: string)
    ensures StripBang(StripBang(s)) == StripBang(s)
  {
    StripBangNoop(StripBang(s));
  }

  lemma {:induction false} StripBangNoop(s: string)
    requires '!' !in s
    ensures StripBang(s) == s
  {
    if s != [] {
      StripBangNoop(s[1..]);
    }
  }

  /** str.replace("*", t): every '*' replaced by t. */
  function ReplaceStar(s: string, t: string): string
  {
    if s == [] then [] else (if s[0] == '*' then t else [s[0]]) + ReplaceStar(s[1..], t)
  }

  lemma {:induction false} ReplaceStarAppend(a: string, b: string, t: string)
    ensures ReplaceStar(a + b, t) == ReplaceStar(a, t) + ReplaceStar(b, t)
  {
    if a == [] {
      assert a + b == b;
    } else {
      assert (a + b)[1..] == a[1..] + b;
      ReplaceStarAppend(a[1..], b, t);
    }
  }

  lemma {:induction false} ReplaceStarNoStar(a: string, t: string)
    requires '*' !in a
    ensures ReplaceStar(a, t) == a
  {
    if a != [] {
      ReplaceStarNoStar(a[1..], t);
    }
  }

  /** sep.join(xs). */
  function Join(xs: seq<string>, sep: string): string
  {
    if |xs| == 0 then ""
    else if |xs| == 1 then xs[0]
    else xs[0] + sep + Join(xs[1..], sep)
  }

  /** s.split(c) for a one-character separator: always at least one piece. */
  function SplitOn(s: string, c: char): (r: seq<string>)
    ensures |r| > 0
  {
    if s == [] then [""]
    else
      var rest := SplitOn(s[1..], c);
      if s[0] == c then [""] + rest else [[s[0]] + rest[0]] + rest[1..]
  }

  lemma {:induction false} SplitOnNoSep(a: string, c: char)
    requires c !in a
    ensures SplitOn(a, c) == [a]
  {
    if a != [] {
      SplitOnNoSep(a[1..], c);
      assert a[0] != c;
      assert [a[0]] + a[1..] == a;
    }
  }

  lemma {:induction false} SplitOnAfterPiece(a: string, c: char, b: string)
    requires c !in a
    ensures SplitOn(a + [c] + b, c) == [a] + SplitOn(b, c)
  {
    if a == [] {
      assert a + [c] + b == [c] + b;
      assert ([c] + b)[1..] == b;
    } else {
      assert (a + [c] + b)[1..] == a[1..] + [c] + b;
      SplitOnAfterPiece(a[1..], c, b);
      assert [a[0]] + a[1..] == a;
    }
  }

  /** Splitting a join on a separator that occurs in no piece gives the pieces back. */
  lemma {:induction false} SplitJoin(xs: seq<string>, c: char)
    requires |xs| > 0
    requires forall i :: 0 <= i < |xs| ==> c !in xs[i]
    ensures SplitOn(Join(xs, [c]), c) == xs
  {
    if |xs| == 1 {
      SplitOnNoSep(xs[0], c);
    } else {
      SplitJoin(xs[1..], c);
      SplitOnAfterPiece(xs[0], c, Join(xs[1..], [c]));
      assert [xs[0]] + xs[1..] == xs;
    }
  }
}
