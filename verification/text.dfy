/**
  The string primitives of Rust's `str` that the registry client relies on,
  modelled on `seq<char>`: `split(char)` with its inverse `join`,
  `trim_start_matches(&str)` (called `trim_left_matches` in older Rust),
  `trim_matches(char)`, and the decimal rendering `format!("{}", n)` of an
  unsigned integer together with its parser.
 */
module Text {
  import opened Wrappers

  /* ---------------------------------------------------------------------
     Prefixes, repetition
     --------------------------------------------------------------------- */

  predicate StartsWith(s: string, p: string) {
    |p| <= |s| && s[..|p|] == p
  }

  /** `p` written `k` times in a row */
  function Repeat(p: string, k: nat): string
  {
    if k == 0 then "" else p + Repeat(p, k - 1)
  }

  /** The character `c` written `k` times in a row */
  function Run(c: char, k: nat): (r: string)
    ensures |r| == k
    ensures forall i :: 0 <= i < k ==> r[i] == c
  {
    seq(k, _ => c)
  }

  /** `s` is `inner` with some number of `c` before and after it */
  ghost predicate Padded(s: string, inner: string, c: char) {
    exists i: nat, j: nat :: s == Run(c, i) + inner + Run(c, j)
  }

  /* ---------------------------------------------------------------------
     split / join
     --------------------------------------------------------------------- */

  /** Index of the first occurrence of `d` in `s` */
  function IndexOf(s: string, d: char): (i: nat)
    requires d in s
    ensures i < |s| && s[i] == d
    ensures d !in s[..i]
  {
    if s[0] == d then 0 else 1 + IndexOf(s[1..], d)
  }

  /** Rust's `s.split(d).collect()`: the maximal pieces between occurrences of `d`.
      There is always at least one piece; an empty `s` gives `[""]`. */
  function Split(s: string, d: char): (parts: seq<string>)
    ensures |parts| >= 1
    ensures forall i :: 0 <= i < |parts| ==> d !in parts[i]
    ensures Join(parts, d) == s
    ensures |parts| == 1 <==> d !in s
    decreases |s|
  {
    if d !in s then [s]
    else
      var i := IndexOf(s, d);
      var rest := Split(s[i + 1..], d);
      assert s == s[..i] + [d] + s[i + 1..];
      [s[..i]] + rest
  }

  /** The pieces glued back together with `d` between neighbours */
  function Join(parts: seq<string>, d: char): string
    requires |parts| >= 1
  {
    if |parts| == 1 then parts[0] else parts[0] + [d] + Join(parts[1..], d)
  }

  lemma JoinPair(a: string, b: string, d: char)
    ensures Join([a, b], d) == a + [d] + b
  {
    assert [a, b][1..] == [b];
  }

  lemma JoinTriple(a: string, b: string, c: string, d: char)
    ensures Join([a, b, c], d) == a + [d] + (b + [d] + c)
  {
    assert [a, b, c][1..] == [b, c];
    JoinPair(b, c, d);
  }

  /** Text in front of a join belongs to its first piece */
  lemma JoinPrepend(a: string, parts: seq<string>, d: char)
    requires |parts| >= 1
    ensures a + Join(parts, d) == Join([a + parts[0]] + parts[1..], d)
  {
    var q := [a + parts[0]] + parts[1..];
    assert q[1..] == parts[1..];
  }

  /** Split undoes Join whenever no piece contains the separator */
  lemma {:induction false} SplitJoin(parts: seq<string>, d: char)
    requires |parts| >= 1
    requires forall i :: 0 <= i < |parts| ==> d !in parts[i]
    ensures Split(Join(parts, d), d) == parts
    decreases |parts|
  {
    if |parts| == 1 {
    } else {
      var tail := Join(parts[1..], d);
      var s := parts[0] + [d] + tail;
      assert s[|parts[0]|] == d;
      assert d in s;
      IndexOfAfterFree(parts[0], d, tail);
      var i := IndexOf(s, d);
      assert s[..i] == parts[0];
      assert s[i + 1..] == tail;
      SplitJoin(parts[1..], d);
      assert Split(s, d) == [parts[0]] + parts[1..];
    }
  }

  lemma {:induction false} IndexOfAfterFree(a: string, d: char, b: string)
    requires d !in a
    ensures d in a + [d] + b && IndexOf(a + [d] + b, d) == |a|
    decreases |a|
  {
    if |a| > 0 {
      assert (a + [d] + b)[1..] == a[1..] + [d] + b;
      IndexOfAfterFree(a[1..], d, b);
    }
  }

  /** A piece free of `d` followed by `d` is split off as the first piece */
  lemma SplitCons(a: string, d: char, b: string)
    requires d !in a
    ensures Split(a + [d] + b, d) == [a] + Split(b, d)
  {
    var s := a + [d] + b;
    IndexOfAfterFree(a, d, b);
    assert s[..|a|] == a;
    assert s[|a| + 1..] == b;
  }

  /** The text before the first `d`, i.e. `split(d).next()` */
  function Before(s: string, d: char): (r: string)
    ensures d !in r
    ensures d in s ==> StartsWith(s, r + [d])
    ensures d !in s ==> r == s
  {
    var parts := Split(s, d);
    if d in s then
      assert s == parts[0] + [d] + Join(parts[1..], d);
      assert (s[..|parts[0]| + 1]) == parts[0] + [d];
      parts[0]
    else parts[0]
  }

  /* ---------------------------------------------------------------------
     trim_start_matches(&str)
     --------------------------------------------------------------------- */

  /** Rust's `s.trim_start_matches(p)`: every leading copy of `p` is removed */
  function TrimStartMatches(s: string, p: string): (r: string)
    ensures |p| > 0 ==> !StartsWith(r, p)
    ensures |p| == 0 ==> r == s
    decreases |s|
  {
    if |p| > 0 && StartsWith(s, p) then TrimStartMatches(s[|p|..], p) else s
  }

  /** What was removed is a whole number of copies of `p` */
  lemma {:induction false} TrimStartMatchesShape(s: string, p: string)
    ensures exists k: nat :: s == Repeat(p, k) + TrimStartMatches(s, p)
    decreases |s|
  {
    if |p| > 0 && StartsWith(s, p) {
      var r := TrimStartMatches(s, p);
      var t := s[|p|..];
      assert r == TrimStartMatches(t, p);
      TrimStartMatchesShape(t, p);
      var k: nat :| t == Repeat(p, k) + r;
      assert s == p + t;
      PrependCopy(p, t, k, r);
    } else {
      assert s == Repeat(p, 0) + TrimStartMatches(s, p);
    }
  }

  lemma PrependCopy(p: string, t: string, k: nat, r: string)
    requires t == Repeat(p, k) + r
    ensures p + t == Repeat(p, k + 1) + r
  {
    assert Repeat(p, k + 1) == p + Repeat(p, k);
  }

  /** Conversely, any number of leading copies in front of a text that does not
      itself start with `p` are removed, and nothing more */
  lemma {:induction false} TrimStartMatchesRepeat(p: string, k: nat, rest: string)
    requires |p| > 0 && !StartsWith(rest, p)
    ensures TrimStartMatches(Repeat(p, k) + rest, p) == rest
    decreases k
  {
    if k > 0 {
      var s := Repeat(p, k) + rest;
      assert Repeat(p, k) == p + Repeat(p, k - 1);
      assert s == p + (Repeat(p, k - 1) + rest);
      assert s[..|p|] == p;
      assert s[|p|..] == Repeat(p, k - 1) + rest;
      assert TrimStartMatches(s, p) == TrimStartMatches(s[|p|..], p);
      TrimStartMatchesRepeat(p, k - 1, rest);
    }
  }

  /* ---------------------------------------------------------------------
     trim_matches(char)
     --------------------------------------------------------------------- */

  function TrimStartChar(s: string, c: char): (r: string)
    ensures |r| <= |s| && r == s[|s| - |r|..]
    ensures |r| > 0 ==> r[0] != c
    ensures forall i :: 0 <= i < |s| - |r| ==> s[i] == c
    decreases |s|
  {
    if |s| > 0 && s[0] == c then TrimStartChar(s[1..], c) else s
  }

  function TrimEndChar(s: string, c: char): (r: string)
    ensures |r| <= |s| && r == s[..|r|]
    ensures |r| > 0 ==> r[|r| - 1] != c
    ensures forall i :: |r| <= i < |s| ==> s[i] == c
    decreases |s|
  {
    if |s| > 0 && s[|s| - 1] == c then TrimEndChar(s[..|s| - 1], c) else s
  }

  /** Rust's `s.trim_matches(c)`: every leading and trailing `c` is removed,
      so the result neither starts nor ends with `c` */
  function TrimMatches(s: string, c: char): (r: string)
    ensures |r| == 0 || (r[0] != c && r[|r| - 1] != c)
  {
    var a := TrimStartChar(s, c);
    var r := TrimEndChar(a, c);
    assert |r| > 0 ==> r[0] == a[0];
    r
  }

  /** A stretch of text made only of `c` is a run of `c` */
  lemma RunOfSame(s: string, c: char)
    requires forall k :: 0 <= k < |s| ==> s[k] == c
    ensures s == Run(c, |s|)
  {
  }

  /** A text cut into a head of `c`, a middle and a tail of `c` */
  lemma Sandwich(s: string, c: char, m: nat, n: nat)
    requires m <= n <= |s|
    requires forall k :: 0 <= k < m ==> s[k] == c
    requires forall k :: n <= k < |s| ==> s[k] == c
    ensures s == Run(c, m) + s[m..n] + Run(c, |s| - n)
  {
    RunOfSame(s[..m], c);
    RunOfSame(s[n..], c);
    assert s == s[..m] + s[m..n] + s[n..];
  }

  /** A suffix `a` of `s` after a run of `c`, and a prefix `r` of `a` before
      a run of `c`, leave `s` as run, `r`, run */
  lemma PeelBoth(s: string, a: string, r: string, c: char)
    requires |a| <= |s| && a == s[|s| - |a|..]
    requires forall k :: 0 <= k < |s| - |a| ==> s[k] == c
    requires |r| <= |a| && r == a[..|r|]
    requires forall k :: |r| <= k < |a| ==> a[k] == c
    ensures s == Run(c, |s| - |a|) + r + Run(c, |a| - |r|)
  {
    var m := |s| - |a|;
    var n := m + |r|;
    assert s[m..n] == r;
    assert forall k :: n <= k < |s| ==> s[k] == a[k - m];
    Sandwich(s, c, m, n);
  }

  /** Everything TrimMatches cuts off, on either side, is `c` */
  lemma TrimMatchesShape(s: string, c: char)
    ensures Padded(s, TrimMatches(s, c), c)
  {
    var a := TrimStartChar(s, c);
    var r := TrimEndChar(a, c);
    PeelBoth(s, a, r, c);
    assert r == TrimMatches(s, c);
  }

  /** A text with no `c` at either end is left alone by TrimMatches, whatever
      run of `c` surrounds it: the trim is exactly the inverse of quoting */
  lemma TrimMatchesUnwraps(c: char, i: nat, v: string, j: nat)
    requires |v| == 0 || (v[0] != c && v[|v| - 1] != c)
    ensures TrimMatches(Run(c, i) + v + Run(c, j), c) == v
  {
    var s := Run(c, i) + v + Run(c, j);
    if |v| == 0 {
      assert s == Run(c, i + j) + v;
      TrimStartRun(c, i + j, v);
    } else {
      assert s == Run(c, i) + (v + Run(c, j));
      TrimStartRun(c, i, v + Run(c, j));
      TrimEndRun(c, v, j);
    }
  }

  lemma {:induction false} TrimStartRun(c: char, i: nat, rest: string)
    requires |rest| == 0 || rest[0] != c
    ensures TrimStartChar(Run(c, i) + rest, c) == rest
    decreases i
  {
    if i > 0 {
      assert (Run(c, i) + rest)[1..] == Run(c, i - 1) + rest;
      TrimStartRun(c, i - 1, rest);
    }
  }

  lemma {:induction false} TrimEndRun(c: char, v: string, j: nat)
    requires |v| == 0 || v[|v| - 1] != c
    ensures TrimEndChar(v + Run(c, j), c) == v
    decreases j
  {
    if j > 0 {
      var s := v + Run(c, j);
      assert s[..|s| - 1] == v + Run(c, j - 1);
      TrimEndRun(c, v, j - 1);
    } else {
      assert v + Run(c, 0) == v;
    }
  }

  /* ---------------------------------------------------------------------
     Decimal rendering of unsigned integers, `format!("{}", n)`
     --------------------------------------------------------------------- */

  predicate IsDigit(ch: char) {
    '0' <= ch <= '9'
  }

  function DigitChar(d: nat): (ch: char)
    requires d < 10
    ensures IsDigit(ch)
  {
    ['0', '1', '2', '3', '4', '5', '6', '7', '8', '9'][d]
  }

  function DigitValue(ch: char): (d: nat)
    requires IsDigit(ch)
    ensures d < 10 && DigitChar(d) == ch
  {
    (ch as int - '0' as int)
  }

  /** Rust's `Display` of an unsigned integer: base 10, no sign, no leading zero */
  function Decimal(n: nat): (s: string)
    ensures |s| >= 1
    ensures forall i :: 0 <= i < |s| ==> IsDigit(s[i])
    ensures s[0] == '0' ==> n == 0 && s == "0"
  {
    if n < 10 then [DigitChar(n)] else Decimal(n / 10) + [DigitChar(n % 10)]
  }

  /** The value of a non-empty string of digits (the inverse of Decimal) */
  function ParseDecimal(s: string): (r: Option<nat>)
    ensures r.Some? <==> |s| >= 1 && forall i :: 0 <= i < |s| ==> IsDigit(s[i])
    decreases |s|
  {
    if |s| == 0 || !IsDigit(s[|s| - 1]) then None
    else if |s| == 1 then Some(DigitValue(s[0]))
    else match ParseDecimal(s[..|s| - 1])
      case None => None
      case Some(m) => Some(10 * m + DigitValue(s[|s| - 1]))
  }

  lemma {:induction false} ParseDecimalOfDecimal(n: nat)
    ensures ParseDecimal(Decimal(n)) == Some(n)
  {
    if n >= 10 {
      var s := Decimal(n);
      ParseDecimalOfDecimal(n / 10);
      assert s[..|s| - 1] == Decimal(n / 10);
      assert DigitValue(DigitChar(n % 10)) == n % 10;
    } else {
      assert DigitValue(DigitChar(n)) == n;
    }
  }
}
