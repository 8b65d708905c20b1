/** The handful of Python `str` operations the backup catalog uses, on `seq<char>`:
    `strip`, `split`, `split` with a limit, `join`, `rsplit(sep, 1)`, `endswith`,
    `startswith`, `replace(old, "")`, slicing `s[:n]`, and zero-padded decimal rendering. */
module Strings {

  /** Index of the first `c` in `s`, or `|s|` when `c` does not occur. */
  function IndexOf(s: string, c: char): (i: nat)
    ensures i <= |s|
    ensures i < |s| ==> s[i] == c
    ensures forall j :: 0 <= j < i ==> s[j] != c
  {
    if s == [] then 0
    else if s[0] == c then 0
    else 1 + IndexOf(s[1..], c)
  }

  /** Index of the last `c` in `s`, or -1 when `c` does not occur. */
  function LastIndexOf(s: string, c: char): (i: int)
    ensures -1 <= i < |s|
    ensures 0 <= i ==> s[i] == c
    ensures forall j :: i < j < |s| ==> s[j] != c
  {
    if s == [] then -1
    else if s[|s| - 1] == c then |s| - 1
    else LastIndexOf(s[..|s| - 1], c)
  }

  /** `s.split(c)`: never empty, and no part holds the separator. */
  function Split(s: string, c: char): (parts: seq<string>)
    ensures |parts| >= 1
    ensures forall k :: 0 <= k < |parts| ==> c !in parts[k]
    decreases |s|
  {
    var i := IndexOf(s, c);
    if i == |s| then [s] else [s[..i]] + Split(s[i + 1..], c)
  }

  /** `s.split(c, limit)`: at most `limit` cuts, taken from the left. */
  function SplitN(s: string, c: char, limit: nat): (parts: seq<string>)
    ensures 1 <= |parts| <= limit + 1
    ensures forall k :: 0 <= k < |parts| - 1 ==> c !in parts[k]
    decreases limit
  {
    var i := IndexOf(s, c);
    if limit == 0 || i == |s| then [s] else [s[..i]] + SplitN(s[i + 1..], c, limit - 1)
  }

  /** `c.join(parts)`. */
  function Join(parts: seq<string>, c: char): string
  {
    if |parts| == 0 then ""
    else if |parts| == 1 then parts[0]
    else parts[0] + [c] + Join(parts[1..], c)
  }

  /** `s.rsplit(c, 1)` for a string that holds `c`: the text before and after the last `c`. */
  function RSplitOnce(s: string, c: char): (halves: (string, string))
    requires c in s
    ensures halves.0 + [c] + halves.1 == s
    ensures c !in halves.1
  {
    var i := LastIndexOf(s, c);
    assert s == s[..i] + [c] + s[i + 1..];
    (s[..i], s[i + 1..])
  }

  function StripLeft(s: string, c: char): (r: string)
    ensures |r| <= |s| && r == s[|s| - |r|..]
    ensures r != [] ==> r[0] != c
  {
    if s != [] && s[0] == c then StripLeft(s[1..], c) else s
  }

  function StripRight(s: string, c: char): (r: string)
    ensures |r| <= |s| && r == s[..|r|]
    ensures r != [] ==> r[|r| - 1] != c
  {
    if s != [] && s[|s| - 1] == c then StripRight(s[..|s| - 1], c) else s
  }

  /** `s.strip(c)`: what is left after removing every leading and trailing `c`. */
  function Strip(s: string, c: char): (r: string)
    ensures r != [] ==> r[0] != c && r[|r| - 1] != c
    ensures (s == [] || (s[0] != c && s[|s| - 1] != c)) ==> r == s
  {
    var l := StripLeft(s, c);
    var r := StripRight(l, c);
    assert r != [] ==> r[0] == l[0];
    r
  }

  predicate StartsWith(s: string, prefix: string)
  {
    |prefix| <= |s| && s[..|prefix|] == prefix
  }

  predicate EndsWith(s: string, suffix: string)
  {
    |suffix| <= |s| && s[|s| - |suffix|..] == suffix
  }

  /** `s.replace(pat, "")`: every non-overlapping occurrence of `pat`, scanned from the left, removed. */
  function RemoveAll(s: string, pat: string): (r: string)
    requires pat != []
    ensures |r| <= |s|
    decreases |s|
  {
    if |s| < |pat| then s
    else if s[..|pat|] == pat then RemoveAll(s[|pat|..], pat)
    else [s[0]] + RemoveAll(s[1..], pat)
  }

  /** Python's `s[:n]`, which never fails on a short string. */
  function Take(s: string, n: nat): (r: string)
    ensures |r| == if |s| < n then |s| else n
    ensures r == s[..|r|]
  {
    if |s| <= n then s else s[..n]
  }

  // ---------------------------------------------------------------------------
  // Properties of the operations above

  lemma IndexOfAfter(a: string, c: char, b: string)
    requires c !in a
    ensures IndexOf(a + [c] + b, c) == |a|
  {
    var s := a + [c] + b;
    assert s[|a|] == c;
  }

  /** Splitting a join gives the parts back, when no part holds the separator. */
  lemma {:induction false} SplitJoin(parts: seq<string>, c: char)
    requires |parts| >= 1
    requires forall k :: 0 <= k < |parts| ==> c !in parts[k]
    ensures Split(Join(parts, c), c) == parts
  {
    if |parts| == 1 {
      assert IndexOf(parts[0], c) == |parts[0]|;
    } else {
      var rest := Join(parts[1..], c);
      var s := parts[0] + [c] + rest;
      IndexOfAfter(parts[0], c, rest);
      assert s[..|parts[0]|] == parts[0];
      assert s[|parts[0]| + 1..] == rest;
      SplitJoin(parts[1..], c);
      assert [parts[0]] + parts[1..] == parts;
    }
  }

  /** Joining a split gives the string back. */
  lemma {:induction false} JoinSplit(s: string, c: char)
    ensures Join(Split(s, c), c) == s
    decreases |s|
  {
    var i := IndexOf(s, c);
    if i < |s| {
      var tail := s[i + 1..];
      var rest := Split(tail, c);
      var parts := Split(s, c);
      assert parts == [s[..i]] + rest;
      assert |parts| >= 2 && parts[0] == s[..i] && parts[1..] == rest;
      calc {
        Join(parts, c);
        s[..i] + [c] + Join(rest, c);
        { JoinSplit(tail, c); }
        s[..i] + [c] + tail;
      }
      assert s == s[..i] + [c] + tail;
    }
  }

  /** A join of two or more parts is the join of all but the last, the separator, and the last. */
  lemma {:induction false} JoinSnoc(parts: seq<string>, c: char)
    requires |parts| >= 2
    ensures Join(parts, c) == Join(parts[..|parts| - 1], c) + [c] + parts[|parts| - 1]
  {
    if |parts| > 2 {
      JoinSnoc(parts[1..], c);
      assert parts[1..][..|parts[1..]| - 1] == parts[..|parts| - 1][1..];
    }
  }

  /** No separator appears in a join of one separator-free part; a join of two or more has one. */
  lemma {:induction false} JoinHasSeparator(parts: seq<string>, c: char)
    requires forall k :: 0 <= k < |parts| ==> c !in parts[k]
    ensures c in Join(parts, c) <==> |parts| >= 2
  {
    if |parts| >= 2 {
      assert Join(parts, c)[|parts[0]|] == c;
    }
  }

  /** `rsplit(c, 1)` of a join of two or more separator-free parts splits off exactly the last part. */
  lemma RSplitJoin(parts: seq<string>, c: char)
    requires |parts| >= 2
    requires forall k :: 0 <= k < |parts| ==> c !in parts[k]
    ensures c in Join(parts, c)
    ensures RSplitOnce(Join(parts, c), c) == (Join(parts[..|parts| - 1], c), parts[|parts| - 1])
  {
    JoinHasSeparator(parts, c);
    JoinSnoc(parts, c);
    var init := Join(parts[..|parts| - 1], c);
    var last := parts[|parts| - 1];
    var s := init + [c] + last;
    assert s[|init|] == c;
    assert LastIndexOf(s, c) == |init|;
    assert s[..|init|] == init;
    assert s[|init| + 1..] == last;
  }

  /** `split(c, 2)` of `a c b c rest` gives back the three pieces exactly when neither `a` nor
      `b` holds `c`; otherwise the first `c` inside them is taken for a separator. */
  lemma SplitTwiceJoin(a: string, b: string, rest: string, c: char)
    ensures SplitN(a + [c] + b + [c] + rest, c, 2) == [a, b, rest] <==> c !in a && c !in b
  {
    var s := a + [c] + b + [c] + rest;
    if c !in a && c !in b {
      var tail := b + [c] + rest;
      assert s == a + [c] + tail;
      IndexOfAfter(a, c, tail);
      assert s[..|a|] == a && s[|a| + 1..] == tail;
      IndexOfAfter(b, c, rest);
      assert tail[..|b|] == b && tail[|b| + 1..] == rest;
      assert SplitN(rest, c, 0) == [rest];
      assert SplitN(tail, c, 1) == [b, rest];
      assert SplitN(s, c, 2) == [a] + SplitN(tail, c, 1);
    } else {
      var parts := SplitN(s, c, 2);
      assert |parts| < 3 || (c !in parts[0] && c !in parts[1]);
    }
  }

  /** `replace(pat, "")` leaves alone a string in which `pat` cannot start. */
  lemma {:induction false} RemoveAllAbsent(s: string, pat: string)
    requires pat != []
    requires pat[0] !in s
    ensures RemoveAll(s, pat) == s
    decreases |s|
  {
    if |s| >= |pat| {
      assert s[..|pat|][0] == s[0];
      RemoveAllAbsent(s[1..], pat);
      assert [s[0]] + s[1..] == s;
    }
  }

  /** Removing `pat` from `s + pat`, where `pat` cannot start inside `s`, gives `s`. */
  lemma {:induction false} RemoveAllSuffix(s: string, pat: string)
    requires pat != []
    requires pat[0] !in s
    ensures RemoveAll(s + pat, pat) == s
    decreases |s|
  {
    var t := s + pat;
    if s == [] {
      assert t == pat;
      assert t[|pat|..] == [];
    } else {
      assert t[..|pat|][0] == s[0];
      assert t[1..] == s[1..] + pat;
      RemoveAllSuffix(s[1..], pat);
      assert [s[0]] + s[1..] == s;
    }
  }

  // ---------------------------------------------------------------------------
  // Decimal digits

  predicate IsDigit(ch: char)
  {
    '0' <= ch <= '9'
  }

  predicate AllDigits(s: string)
  {
    forall k :: 0 <= k < |s| ==> IsDigit(s[k])
  }

  function Pow10(n: nat): (p: nat)
    ensures p >= 1
  {
    if n == 0 then 1 else 10 * Pow10(n - 1)
  }

  /** The value of a string of decimal digits. */
  function DigitsValue(s: string): (v: nat)
    requires AllDigits(s)
    ensures v < Pow10(|s|)
  {
    if s == [] then 0
    else DigitsValue(s[..|s| - 1]) * 10 + (s[|s| - 1] as int - '0' as int)
  }

  /** `n` written with exactly `width` decimal digits, zero-padded on the left (`%0<width>d`
      for `n < 10^width`). */
  function Padded(n: nat, width: nat): (s: string)
    ensures |s| == width && AllDigits(s)
  {
    if width == 0 then "" else Padded(n / 10, width - 1) + [('0' as int + n % 10) as char]
  }

  /** Reading back a zero-padded rendering gives the number. */
  lemma {:induction false} PaddedValue(n: nat, width: nat)
    requires n < Pow10(width)
    ensures DigitsValue(Padded(n, width)) == n
  {
    if width > 0 {
      PaddedValue(n / 10, width - 1);
      var s := Padded(n, width);
      assert s[..|s| - 1] == Padded(n / 10, width - 1);
    }
  }
}
