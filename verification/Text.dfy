/** The ASCII string operations the codecs share: strip, replace, split, upper case, decimal numerals. */
module Text {
  import opened Nulls

  /** What Python's `str.strip()` removes, within ASCII. */
  predicate IsSpace(c: char) {
    c == ' ' || '\t' <= c <= '\r' || '\U{1c}' <= c <= '\U{1f}'
  }

  function StripLeft(s: string): string {
    if s == [] || !IsSpace(s[0]) then s else StripLeft(s[1..])
  }

  function StripRight(s: string): string {
    if s == [] || !IsSpace(s[|s| - 1]) then s else StripRight(s[..|s| - 1])
  }

  function Strip(s: string): string {
    StripRight(StripLeft(s))
  }

  /** `s.replace(c, "")` for a one-character `c`. */
  function Remove(s: string, c: char): string {
    if s == [] then [] else (if s[0] == c then [] else [s[0]]) + Remove(s[1..], c)
  }

  function UpperChar(c: char): char {
    if 'a' <= c <= 'z' then (c as int - 32) as char else c
  }

  function Upper(s: string): (r: string)
    ensures |r| == |s|
    ensures forall i :: 0 <= i < |s| ==> r[i] == UpperChar(s[i])
  {
    seq(|s|, i requires 0 <= i < |s| => UpperChar(s[i]))
  }

  /** `s.split(c, 1)`, when there is a `c` to split at. */
  function SplitFirst(s: string, c: char): (r: Option<(string, string)>)
    ensures r == None <==> c !in s
    ensures r.Some? ==> c !in r.value.0 && s == r.value.0 + [c] + r.value.1
  {
    if s == [] then None
    else if s[0] == c then Some(([], s[1..]))
    else match SplitFirst(s[1..], c)
      case None => None
      case Some((a, b)) => Some(([s[0]] + a, b))
  }

  lemma {:induction false} SplitFirstAt(a: string, c: char, b: string)
    requires c !in a
    ensures SplitFirst(a + [c] + b, c) == Some((a, b))
  {
    var s := a + [c] + b;
    if a == [] {
      assert s[1..] == b;
    } else {
      assert s[1..] == a[1..] + [c] + b;
      SplitFirstAt(a[1..], c, b);
      assert a[0] in a && [s[0]] + a[1..] == a;
    }
  }

  /** `s.split(c)`. */
  function Split(s: string, c: char): (r: seq<string>)
    ensures |r| >= 1
    decreases |s|
  {
    match SplitFirst(s, c)
    case None => [s]
    case Some((a, b)) => [a] + Split(b, c)
  }

  lemma {:induction false} StripRightSpaces(s: string, post: string)
    requires forall c :: c in post ==> IsSpace(c)
    ensures StripRight(s + post) == StripRight(s)
  {
    if post == [] {
      assert s + post == s;
    } else {
      var t := s + post;
      assert IsSpace(post[|post| - 1]);
      assert t[..|t| - 1] == s + post[..|post| - 1];
      StripRightSpaces(s, post[..|post| - 1]);
    }
  }

  lemma {:induction false} StripLeftSpaces(pre: string, s: string)
    requires forall c :: c in pre ==> IsSpace(c)
    ensures StripLeft(pre + s) == StripLeft(s)
  {
    if pre == [] {
      assert pre + s == s;
    } else {
      assert IsSpace(pre[0]) && (pre + s)[1..] == pre[1..] + s;
      StripLeftSpaces(pre[1..], s);
    }
  }

  /** The six ASCII whitespace characters and the four separators that Python strips. */
  lemma WhitespaceIs(c: char)
    ensures IsSpace(c) <==> c in [' ', '\t', '\n', '\U{0b}', '\U{0c}', '\r', '\U{1c}', '\U{1d}', '\U{1e}', '\U{1f}']
  {
  }

  predicate AllSpace(s: string) {
    forall c :: c in s ==> IsSpace(c)
  }

  lemma {:induction false} StripLeftSplits(s: string) returns (pre: string)
    ensures s == pre + StripLeft(s) && AllSpace(pre)
    ensures StripLeft(s) != [] ==> !IsSpace(StripLeft(s)[0])
  {
    if s == [] || !IsSpace(s[0]) {
      pre := [];
    } else {
      var rest := StripLeftSplits(s[1..]);
      pre := [s[0]] + rest;
    }
  }

  lemma {:induction false} StripRightSplits(s: string) returns (post: string)
    ensures s == StripRight(s) + post && AllSpace(post)
    ensures StripRight(s) != [] ==> !IsSpace(StripRight(s)[|StripRight(s)| - 1])
    ensures StripRight(s) != [] ==> StripRight(s)[0] == s[0]
  {
    if s == [] || !IsSpace(s[|s| - 1]) {
      post := [];
    } else {
      var rest := StripRightSplits(s[..|s| - 1]);
      post := rest + [s[|s| - 1]];
    }
  }

  /** Stripping takes off whitespace at both ends, all of it, and nothing else. */
  lemma StripSplits(s: string) returns (pre: string, post: string)
    ensures s == pre + Strip(s) + post && AllSpace(pre) && AllSpace(post)
    ensures Strip(s) != [] ==> !IsSpace(Strip(s)[0]) && !IsSpace(Strip(s)[|Strip(s)| - 1])
  {
    pre := StripLeftSplits(s);
    post := StripRightSplits(StripLeft(s));
    assert s == pre + (Strip(s) + post);
  }

  const LOWER_CASE := "abcdefghijklmnopqrstuvwxyz"
  const UPPER_CASE := "ABCDEFGHIJKLMNOPQRSTUVWXYZ"

  /** Upper case changes the twenty-six letters, each to its own capital. */
  lemma UpperLetters(c: char)
    ensures forall i :: 0 <= i < 26 && LOWER_CASE[i] == c ==> UpperChar(c) == UPPER_CASE[i]
    ensures c !in LOWER_CASE ==> UpperChar(c) == c
  {
    if 'a' <= c <= 'z' {
      assert LOWER_CASE[c as int - 'a' as int] == c;
    }
  }

  lemma {:induction false} RemoveConcat(a: string, b: string, c: char)
    ensures Remove(a + b, c) == Remove(a, c) + Remove(b, c)
  {
    if a == [] {
      assert a + b == b;
    } else {
      assert (a + b)[1..] == a[1..] + b;
      RemoveConcat(a[1..], b, c);
    }
  }

  /** A string whose only whitespace is plain spaces: stripping takes away nothing that `Remove` would keep. */
  lemma {:induction false} StripLeftOnlySpaces(s: string)
    requires forall c :: c in s && IsSpace(c) ==> c == ' '
    ensures Remove(StripLeft(s), ' ') == Remove(s, ' ')
    ensures forall c :: c in StripLeft(s) ==> c in s
  {
    if s != [] && IsSpace(s[0]) {
      StripLeftOnlySpaces(s[1..]);
    }
  }

  lemma {:induction false} StripRightOnlySpaces(s: string)
    requires forall c :: c in s && IsSpace(c) ==> c == ' '
    ensures Remove(StripRight(s), ' ') == Remove(s, ' ')
  {
    if s != [] && IsSpace(s[|s| - 1]) {
      var front := s[..|s| - 1];
      StripRightOnlySpaces(front);
      assert s == front + [s[|s| - 1]];
      RemoveConcat(front, [s[|s| - 1]], ' ');
      assert Remove([s[|s| - 1]], ' ') == [];
    }
  }

  /** Surrounding whitespace and interior spaces are all that `strip().replace(" ", "")` discards. */
  lemma CleanedSurround(pre: string, mid: string, post: string)
    requires forall c :: c in pre + post ==> IsSpace(c)
    requires forall c :: c in mid && IsSpace(c) ==> c == ' '
    ensures Remove(Strip(pre + mid + post), ' ') == Remove(mid, ' ')
  {
    forall c | c in pre ensures IsSpace(c) {
      assert c in pre + post;
    }
    forall c | c in post ensures IsSpace(c) {
      assert c in pre + post;
    }
    assert pre + mid + post == pre + (mid + post);
    StripLeftSpaces(pre, mid + post);
    StripOutside(mid, post);
  }

  lemma {:induction false} StripOutside(mid: string, post: string)
    requires forall c :: c in post ==> IsSpace(c)
    requires forall c :: c in mid && IsSpace(c) ==> c == ' '
    ensures Remove(StripRight(StripLeft(mid + post)), ' ') == Remove(mid, ' ')
  {
    if mid == [] {
      assert mid + post == post + [] == post;
      StripLeftSpaces(post, []);
      assert StripLeft(post) == [];
    } else if IsSpace(mid[0]) {
      assert (mid + post)[1..] == mid[1..] + post;
      StripOutside(mid[1..], post);
    } else {
      assert StripLeft(mid + post) == mid + post;
      StripRightSpaces(mid, post);
      StripRightOnlySpaces(mid);
    }
  }
}

/** Decimal numerals, as `str(int)` prints them and `int(str)` reads them back. */
module Decimal {
  import opened Nulls

  function DigitChar(d: nat): char
    requires d < 10
  {
    ('0' as int + d) as char
  }

  predicate IsDigit(c: char) {
    '0' <= c <= '9'
  }

  function DigitValue(c: char): (v: nat)
    requires IsDigit(c)
    ensures v < 10 && DigitChar(v) == c
  {
    c as int - '0' as int
  }

  /** `s.isdigit()` within ASCII. */
  predicate AllDigits(s: string) {
    s != [] && forall i :: 0 <= i < |s| ==> IsDigit(s[i])
  }

  function Print(n: nat): string {
    if n < 10 then [DigitChar(n)] else Print(n / 10) + [DigitChar(n % 10)]
  }

  function Value(s: string): nat
    requires forall i :: 0 <= i < |s| ==> IsDigit(s[i])
  {
    if s == [] then 0 else 10 * Value(s[..|s| - 1]) + DigitValue(s[|s| - 1])
  }

  function PrintInt(n: int): string {
    if n < 0 then "-" + Print(-n) else Print(n)
  }

  function ParseInt(s: string): Option<int> {
    if AllDigits(s) then Some(Value(s))
    else if s != [] && s[0] == '-' && AllDigits(s[1..]) then Some(-(Value(s[1..]) as int))
    else None
  }

  lemma {:induction false} ValueOfPrint(n: nat)
    ensures AllDigits(Print(n)) && Value(Print(n)) == n
    ensures Print(n)[0] == '0' ==> n == 0
    ensures n < 10 <==> |Print(n)| == 1
  {
    if n >= 10 {
      ValueOfPrint(n / 10);
      var s := Print(n);
      assert s[..|s| - 1] == Print(n / 10);
    } else {
      assert Print(n)[..0] == [];
    }
  }

  lemma ParsePrinted(n: int)
    ensures ParseInt(PrintInt(n)) == Some(n)
    ensures PrintInt(n) != []
  {
    if n < 0 {
      ValueOfPrint(-n);
      assert PrintInt(n)[0] == '-' && PrintInt(n)[1..] == Print(-n);
    } else {
      ValueOfPrint(n);
    }
  }

  /** A numeral without a leading zero is the one that is printed for its value. */
  lemma {:induction false} PrintOfValue(s: string)
    requires AllDigits(s) && (|s| > 1 ==> s[0] != '0')
    ensures Print(Value(s)) == s
    ensures |s| > 1 ==> Value(s) >= 10
  {
    var front, last := s[..|s| - 1], s[|s| - 1];
    assert s == front + [last];
    if |s| > 1 {
      PrintOfValue(front);
      if |front| == 1 {
        assert front[..0] == [] && Value(front) == DigitValue(front[0]) > 0;
      }
    } else {
      assert front == [];
    }
  }

  function Pow10(d: nat): (p: nat)
    ensures p >= 1
  {
    if d == 0 then 1 else 10 * Pow10(d - 1)
  }

  const DIGIT_CHARS := "0123456789"

  /** Counted from the right, place `i` of a numeral holds the digit of the `i`-th power of ten. */
  lemma PrintPlaces(n: nat, i: nat)
    requires i < |Print(n)|
    ensures Print(n)[|Print(n)| - 1 - i] == DIGIT_CHARS[n / Pow10(i) % 10]
  {
    PlaceDigit(n, i);
    DigitIs(n / Pow10(i) % 10);
  }

  lemma {:induction false} PlaceDigit(n: nat, i: nat)
    requires i < |Print(n)|
    ensures Print(n)[|Print(n)| - 1 - i] == DigitChar(n / Pow10(i) % 10)
    decreases i
  {
    if i == 0 {
      assert n / Pow10(0) == n;
    } else {
      assert n >= 10;
      PlaceDigit(n / 10, i - 1);
      DivideTwice(n, Pow10(i - 1));
    }
  }

  lemma DigitIs(d: nat)
    requires d < 10
    ensures DigitChar(d) == DIGIT_CHARS[d]
  {
  }

  lemma DivideTwice(n: nat, p: nat)
    requires p > 0
    ensures n / 10 / p == n / (10 * p)
  {
    var q, r := n / (10 * p), n % (10 * p);
    assert n == 10 * (q * p) + r;
    assert n / 10 == q * p + r / 10;
    QuotientIs(n / 10, p, q, r / 10);
  }

  lemma QuotientIs(n: nat, p: nat, q: nat, r: nat)
    requires p > 0 && n == q * p + r && r < p
    ensures n / p == q
  {
    var d, m := n / p, n % p;
    assert n == d * p + m && m < p;
    assert (d + 1) * p == d * p + p && (q + 1) * p == q * p + p;
    if d < q {
      Multiples(d + 1, q, p);
    } else if q < d {
      Multiples(q + 1, d, p);
    }
  }

  lemma Multiples(a: nat, b: nat, p: nat)
    requires a <= b
    ensures a * p <= b * p
  {
  }

  lemma {:induction false} PrintLength(n: nat, d: nat)
    requires d >= 1 && n < Pow10(d)
    ensures |Print(n)| <= d
  {
    if n >= 10 {
      PrintLength(n / 10, d - 1);
    }
  }

  /** Python's `int(x)` on a float: truncation toward zero. */
  function Truncate(x: real): int {
    if x >= 0.0 then x.Floor else -((-x).Floor)
  }

  lemma TruncateTowardZero(x: real)
    ensures x >= 0.0 ==> 0 <= Truncate(x) && Truncate(x) as real <= x < (Truncate(x) + 1) as real
    ensures x <= 0.0 ==> Truncate(x) <= 0 && (Truncate(x) - 1) as real < x <= Truncate(x) as real
  {
  }

  /** `s.zfill(d)` for an unsigned numeral. */
  function ZFill(s: string, d: nat): string {
    if |s| >= d then s else ['0'] + ZFill(s, d - 1)
  }

  lemma {:induction false} LeadingZero(s: string)
    requires forall i :: 0 <= i < |s| ==> IsDigit(s[i])
    ensures Value(['0'] + s) == Value(s)
  {
    var t := ['0'] + s;
    if s == [] {
      assert t[..0] == [];
    } else {
      LeadingZero(s[..|s| - 1]);
      assert t[..|t| - 1] == ['0'] + s[..|s| - 1];
    }
  }

  /** Zero-filling keeps the number and reaches exactly the asked width. */
  lemma {:induction false} ZFillValue(s: string, d: nat)
    requires AllDigits(s) && |s| <= d
    ensures |ZFill(s, d)| == d && AllDigits(ZFill(s, d)) && Value(ZFill(s, d)) == Value(s)
    decreases d
  {
    if |s| < d {
      ZFillValue(s, d - 1);
      LeadingZero(ZFill(s, d - 1));
    }
  }
}
