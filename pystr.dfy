/** The Python string built-ins the converter relies on, as pure functions over
    `string` (= `seq<char>`): `strip()`, `str(n)` for a natural number,
    `replace(old, new)`, `split(sep)`, `"".join(...)`, `os.path.basename`, and
    the occurrence count used to state the placeholder invariants. */
module PyStr {

  // ---------------------------------------------------------------------------
  // Whitespace and strip()
  // ---------------------------------------------------------------------------

  /** The fixed whitespace set used for `strip()`: space, tab, newline,
      carriage return, vertical tab and form feed. */
  predicate IsSpace(c: char) {
    c == ' ' || c == '\t' || c == '\n' || c == '\r' || c == '\U{000B}' || c == '\U{000C}'
  }

  /** Neither the first nor the last character is whitespace. */
  predicate NoOuterSpace(s: string) {
    s == [] || (!IsSpace(s[0]) && !IsSpace(s[|s| - 1]))
  }

  /** `s.lstrip()`: the suffix left after dropping leading whitespace. */
  function LStrip(s: string): string
    decreases |s|
  {
    if s != [] && IsSpace(s[0]) then LStrip(s[1..]) else s
  }

  /** `s.rstrip()`: the prefix left after dropping trailing whitespace. */
  function RStrip(s: string): string
    decreases |s|
  {
    if s != [] && IsSpace(s[|s| - 1]) then RStrip(s[..|s| - 1]) else s
  }

  /** `s.strip()`. */
  function Strip(s: string): string
  {
    LStrip(RStrip(s))
  }

  /** `lstrip()` cuts off exactly the leading whitespace. */
  lemma {:induction false} LStripSpec(s: string)
    ensures var r := LStrip(s);
      && |r| <= |s| && r == s[|s| - |r|..]
      && (r == [] || !IsSpace(r[0]))
      && (forall k :: 0 <= k < |s| - |r| ==> IsSpace(s[k]))
    decreases |s|
  {
    if s != [] && IsSpace(s[0]) {
      LStripSpec(s[1..]);
      var r := LStrip(s);
      forall k | 0 <= k < |s| - |r| ensures IsSpace(s[k]) {
        if k > 0 { assert s[k] == s[1..][k - 1]; }
      }
    }
  }

  /** `rstrip()` cuts off exactly the trailing whitespace. */
  lemma {:induction false} RStripSpec(s: string)
    ensures var r := RStrip(s);
      && |r| <= |s| && r == s[..|r|]
      && (r == [] || !IsSpace(r[|r| - 1]))
      && (forall k :: |r| <= k < |s| ==> IsSpace(s[k]))
    decreases |s|
  {
    if s != [] && IsSpace(s[|s| - 1]) {
      RStripSpec(s[..|s| - 1]);
      var r := RStrip(s);
      forall k | |r| <= k < |s| ensures IsSpace(s[k]) {
        if k < |s| - 1 { assert s[k] == s[..|s| - 1][k]; }
      }
    }
  }

  /** `strip()` leaves no whitespace at either end. */
  lemma StripNoOuterSpace(s: string)
    ensures NoOuterSpace(Strip(s))
  {
    var m := RStrip(s);
    var r := LStrip(m);
    RStripSpec(s);
    LStripSpec(m);
    if r != [] {
      assert r[|r| - 1] == m[|m| - 1];
    }
  }

  /** What `strip()` returns is a contiguous piece of its input, and only
      whitespace is cut off on either side of it. */
  lemma StripSlice(s: string)
    ensures var r, i := Strip(s), |RStrip(s)| - |Strip(s)|;
              0 <= i <= |s| - |r| && r == s[i..i + |r|]
              && (forall k :: 0 <= k < i ==> IsSpace(s[k]))
              && (forall k :: i + |r| <= k < |s| ==> IsSpace(s[k]))
  {
    var m := RStrip(s);
    var r := LStrip(m);
    RStripSpec(s);
    LStripSpec(m);
    var i := |m| - |r|;
    assert r == s[i..i + |r|] by {
      assert r == m[i..];
      assert s[i..|m|] == s[..|m|][i..];
    }
    forall k | 0 <= k < i ensures IsSpace(s[k]) {
      assert s[k] == m[k];
    }
    assert r == Strip(s);
  }

  /** A string without outer whitespace is its own `strip()`. */
  lemma StripClean(s: string)
    requires NoOuterSpace(s)
    ensures Strip(s) == s
  {
  }

  /** `strip()` is idempotent. */
  lemma StripIdempotent(s: string)
    ensures Strip(Strip(s)) == Strip(s)
  {
    StripNoOuterSpace(s);
    StripClean(Strip(s));
  }

  // ---------------------------------------------------------------------------
  // str(n) for a natural number, and its inverse
  // ---------------------------------------------------------------------------

  predicate IsDigit(c: char) { '0' <= c <= '9' }

  predicate AllDigits(s: string) { forall k :: 0 <= k < |s| ==> IsDigit(s[k]) }

  function DigitChar(d: nat): (c: char)
    requires d < 10
    ensures IsDigit(c) && c as int - '0' as int == d
  {
    ['0', '1', '2', '3', '4', '5', '6', '7', '8', '9'][d]
  }

  /** A string of digits contains no other character. */
  lemma DigitsLack(s: string, c: char)
    requires AllDigits(s) && !IsDigit(c)
    ensures c !in s
  {
  }

  /** `str(n)`: the decimal digits of `n`, most significant first. */
  function NatStr(n: nat): (r: string)
    ensures |r| > 0 && AllDigits(r)
  {
    if n < 10 then [DigitChar(n)] else NatStr(n / 10) + [DigitChar(n % 10)]
  }

  /** `int(s)` for a string of decimal digits. */
  function ParseDigits(s: string): nat
    requires AllDigits(s)
  {
    if s == [] then 0
    else ParseDigits(s[..|s| - 1]) * 10 + (s[|s| - 1] as int - '0' as int)
  }

  /** `int(str(n)) == n`. */
  lemma {:induction false} ParseNatStr(n: nat)
    ensures ParseDigits(NatStr(n)) == n
  {
    if n >= 10 {
      var s := NatStr(n);
      assert s[..|s| - 1] == NatStr(n / 10);
      ParseNatStr(n / 10);
    }
  }

  /** Different numbers print differently. */
  lemma NatStrInjective(m: nat, n: nat)
    requires NatStr(m) == NatStr(n)
    ensures m == n
  {
    ParseNatStr(m);
    ParseNatStr(n);
  }

  // ---------------------------------------------------------------------------
  // Counting occurrences of a pattern
  // ---------------------------------------------------------------------------

  /** Whether `t` occurs in `s` starting at index 0. */
  predicate StartsWith(s: string, t: string) {
    |t| <= |s| && s[..|t|] == t
  }

  /** The number of (possibly overlapping) positions at which `t` occurs in `s`. */
  function CountOcc(s: string, t: string): nat
    requires |t| > 0
    decreases |s|
  {
    if |s| < |t| then 0
    else (if s[..|t|] == t then 1 else 0) + CountOcc(s[1..], t)
  }

  /** An occurrence of `t` must begin with `t[0]`, so a string without that
      character contains none. */
  lemma {:induction false} CountOccWithoutFirstChar(s: string, t: string)
    requires |t| > 0 && t[0] !in s
    ensures CountOcc(s, t) == 0
    decreases |s|
  {
    if |s| >= |t| {
      assert s[..|t|][0] == s[0];
      CountOccWithoutFirstChar(s[1..], t);
    }
  }

  /** Counting is additive over a concatenation when no occurrence can straddle
      the seam: that is the case when the character on either side of the seam
      does not occur in the pattern. */
  lemma {:induction false} CountOccAppend(a: string, b: string, t: string)
    requires |t| > 0
    requires a == [] || b == [] || a[|a| - 1] !in t || b[0] !in t
    ensures CountOcc(a + b, t) == CountOcc(a, t) + CountOcc(b, t)
    decreases |a|
  {
    if a == [] {
      assert a + b == b;
    } else if |a + b| >= |t| {
      assert (a + b)[1..] == a[1..] + b;
      CountOccAppend(a[1..], b, t);
      if |a| >= |t| {
        assert (a + b)[..|t|] == a[..|t|];
      } else {
        // a short `a` contributes no occurrence, and none straddles the seam
        assert (a + b)[|a| - 1] == a[|a| - 1];
        assert b != [] ==> (a + b)[|a|] == b[0];
        assert (a + b)[..|t|] != t;
        assert CountOcc(a[1..], t) == 0;
      }
    } else {
      assert b == [] || |a| < |t|;
      if b == [] {
        assert a + b == a;
      } else {
        ShortCount(a, t);
        ShortCount(b, t);
      }
    }
  }

  /** A string shorter than the pattern contains none of it. */
  lemma ShortCount(s: string, t: string)
    requires 0 < |t| && |s| < |t|
    ensures CountOcc(s, t) == 0
  {
  }

  /** `s.index(c)`: the position of the first `c`. */
  function IndexOf(s: string, c: char): (i: nat)
    requires c in s
    ensures i < |s| && s[i] == c && c !in s[..i]
  {
    if s[0] == c then 0 else 1 + IndexOf(s[1..], c)
  }

  /** In `xs + [c] + ys` with no `c` in `xs`, the first `c` is the one after `xs`. */
  lemma {:induction false} IndexOfAfter(xs: string, ys: string, c: char)
    requires c !in xs
    ensures IndexOf(xs + [c] + ys, c) == |xs|
    decreases |xs|
  {
    if xs != [] {
      assert (xs + [c] + ys)[1..] == xs[1..] + [c] + ys;
      IndexOfAfter(xs[1..], ys, c);
    }
  }

  // ---------------------------------------------------------------------------
  // str.replace(old, new)
  // ---------------------------------------------------------------------------

  /** `s.replace("", v)`: `v` inserted before every character and at the end. */
  function InsertEverywhere(s: string, v: string): string
  {
    if s == [] then v else v + [s[0]] + InsertEverywhere(s[1..], v)
  }

  /** `s.replace(k, v)`: every non-overlapping occurrence of `k`, found left to
      right, replaced by `v`. */
  function Replace(s: string, k: string, v: string): string
    decreases |s|
  {
    if k == [] then InsertEverywhere(s, v)
    else if |s| < |k| then s
    else if s[..|k|] == k then v + Replace(s[|k|..], k, v)
    else [s[0]] + Replace(s[1..], k, v)
  }

  /** The number of occurrences `Replace` rewrites: non-overlapping, left to right. */
  function Matches(s: string, k: string): nat
    requires |k| > 0
    decreases |s|
  {
    if |s| < |k| then 0
    else if s[..|k|] == k then 1 + Matches(s[|k|..], k)
    else Matches(s[1..], k)
  }

  /** Each rewritten occurrence changes the length by `|v| - |k|` and nothing
      else changes it. */
  lemma {:induction false} ReplaceLength(s: string, k: string, v: string)
    requires |k| > 0
    ensures |Replace(s, k, v)| == |s| + Matches(s, k) * (|v| - |k|)
    decreases |s|
  {
    if |s| >= |k| {
      var d := |v| - |k|;
      if s[..|k|] == k {
        var rest := s[|k|..];
        ReplaceLength(rest, k, v);
        var m := Matches(rest, k);
        assert |Replace(s, k, v)| == |v| + |rest| + m * d;
        assert Matches(s, k) == m + 1;
        MulSucc(m, d);
      } else {
        ReplaceLength(s[1..], k, v);
        assert |Replace(s, k, v)| == 1 + |s[1..]| + Matches(s[1..], k) * d;
      }
    }
  }

  lemma MulSucc(m: nat, d: int)
    ensures (m + 1) * d == m * d + d
  {
  }

  /** A pattern that does not occur leaves the string unchanged. */
  lemma {:induction false} ReplaceAbsent(s: string, k: string, v: string)
    requires |k| > 0 && CountOcc(s, k) == 0
    ensures Replace(s, k, v) == s
    decreases |s|
  {
    if |s| >= |k| {
      ReplaceAbsent(s[1..], k, v);
      assert [s[0]] + s[1..] == s;
    }
  }

  /** Replacing a pattern by itself is the identity (for the empty pattern too). */
  lemma {:induction false} ReplaceSelf(s: string, k: string)
    ensures Replace(s, k, k) == s
    decreases |s|
  {
    if k == [] {
      InsertEverywhereEmpty(s);
    } else if |s| >= |k| {
      if s[..|k|] == k {
        ReplaceSelf(s[|k|..], k);
        assert s[..|k|] + s[|k|..] == s;
      } else {
        ReplaceSelf(s[1..], k);
        assert [s[0]] + s[1..] == s;
      }
    }
  }

  lemma {:induction false} InsertEverywhereEmpty(s: string)
    ensures InsertEverywhere(s, "") == s
    decreases |s|
  {
    if s != [] {
      InsertEverywhereEmpty(s[1..]);
      assert [s[0]] + s[1..] == s;
    }
  }

  /** A prefix holding no first character of the pattern is copied unchanged:
      no occurrence can start inside it. */
  lemma {:induction false} ReplaceSkipPrefix(pre: string, s: string, k: string, v: string)
    requires k != [] && k[0] !in pre
    ensures Replace(pre + s, k, v) == pre + Replace(s, k, v)
    decreases |pre|
  {
    if pre != [] {
      var t := pre + s;
      assert t[0] == pre[0];
      assert t[1..] == pre[1..] + s;
      ReplaceSkipPrefix(pre[1..], s, k, v);
      if |t| >= |k| {
        assert t[..|k|][0] == pre[0];
        assert Replace(t, k, v) == [pre[0]] + Replace(pre[1..] + s, k, v);
        assert [pre[0]] + (pre[1..] + Replace(s, k, v)) == pre + Replace(s, k, v);
      } else {
        assert Replace(s, k, v) == s;
      }
    } else {
      assert pre + s == s;
    }
  }

  /** An occurrence at the very start is rewritten, and the scan resumes after it. */
  lemma ReplaceAtStart(k: string, s: string, v: string)
    requires k != []
    ensures Replace(k + s, k, v) == v + Replace(s, k, v)
  {
    var t := k + s;
    assert t[..|k|] == k && t[|k|..] == s;
  }

  // ---------------------------------------------------------------------------
  // split(sep) and join
  // ---------------------------------------------------------------------------

  /** `s.split(c)` for a one-character separator: the maximal separator-free
      pieces, including empty ones; always at least one piece. */
  function Split(s: string, c: char): (r: seq<string>)
    ensures |r| > 0
    ensures forall i :: 0 <= i < |r| ==> c !in r[i]
    decreases |s|
  {
    if s == [] then [[]]
    else
      var rest := Split(s[1..], c);
      if s[0] == c then [[]] + rest
      else [[s[0]] + rest[0]] + rest[1..]
  }

  /** `"".join(parts)`. */
  function Concat(parts: seq<string>): string
  {
    if parts == [] then [] else parts[0] + Concat(parts[1..])
  }

  /** `c.join(parts)` for a one-character separator. */
  function JoinWith(parts: seq<string>, c: char): string
    requires |parts| > 0
  {
    if |parts| == 1 then parts[0] else parts[0] + [c] + JoinWith(parts[1..], c)
  }

  /** `s` with every `c` removed. */
  function Remove(s: string, c: char): (r: string)
    ensures c !in r
  {
    if s == [] then [] else (if s[0] == c then [] else [s[0]]) + Remove(s[1..], c)
  }

  /** Splitting then joining with the same separator gives the string back. */
  lemma {:induction false} JoinSplit(s: string, c: char)
    ensures JoinWith(Split(s, c), c) == s
    decreases |s|
  {
    if s != [] {
      JoinSplit(s[1..], c);
      var rest := Split(s[1..], c);
      if s[0] != c {
        if |rest| > 1 {
          assert ([s[0]] + rest[0]) + [c] + JoinWith(rest[1..], c) == [s[0]] + (rest[0] + [c] + JoinWith(rest[1..], c));
        }
      }
      assert [s[0]] + s[1..] == s;
    }
  }

  /** A separator-free string splits into itself alone. */
  lemma {:induction false} SplitNoSep(s: string, c: char)
    requires c !in s
    ensures Split(s, c) == [s]
    decreases |s|
  {
    if s != [] {
      SplitNoSep(s[1..], c);
      assert [s[0]] + s[1..] == s;
    }
  }

  /** A separator splits the pieces of its two sides apart. */
  lemma {:induction false} SplitAround(a: string, b: string, c: char)
    ensures Split(a + [c] + b, c) == Split(a, c) + Split(b, c)
    decreases |a|
  {
    if a == [] {
      assert a + [c] + b == [c] + b;
      assert ([c] + b)[1..] == b;
    } else {
      var s := a + [c] + b;
      assert s[0] == a[0];
      assert s[1..] == a[1..] + [c] + b;
      SplitAround(a[1..], b, c);
    }
  }

  /** Joining the pieces without separator drops exactly the separators. */
  lemma {:induction false} ConcatSplit(s: string, c: char)
    ensures Concat(Split(s, c)) == Remove(s, c)
    decreases |s|
  {
    if s != [] {
      ConcatSplit(s[1..], c);
      var rest := Split(s[1..], c);
      if s[0] != c {
        assert Concat([[s[0]] + rest[0]] + rest[1..]) == [s[0]] + rest[0] + Concat(rest[1..]);
        assert Concat(rest) == rest[0] + Concat(rest[1..]);
      } else {
        assert Concat([[]] + rest) == Concat(rest);
      }
    }
  }

  /** Pieces free of a character join into a string free of it. */
  lemma {:induction false} ConcatLacks(parts: seq<string>, c: char)
    requires forall i :: 0 <= i < |parts| ==> c !in parts[i]
    ensures c !in Concat(parts)
    decreases |parts|
  {
    if parts != [] {
      assert forall i :: 0 <= i < |parts[1..]| ==> c !in parts[1..][i] by {
        forall i | 0 <= i < |parts[1..]| ensures c !in parts[1..][i] { assert parts[1..][i] == parts[i + 1]; }
      }
      ConcatLacks(parts[1..], c);
    }
  }

  /** Removing a character that does not occur changes nothing. */
  lemma {:induction false} RemoveAbsent(s: string, c: char)
    requires c !in s
    ensures Remove(s, c) == s
    decreases |s|
  {
    if s != [] {
      assert c !in s[1..];
      RemoveAbsent(s[1..], c);
      assert [s[0]] + s[1..] == s;
    }
  }

  // ---------------------------------------------------------------------------
  // os.path.basename (POSIX)
  // ---------------------------------------------------------------------------

  /** `os.path.basename(p)`: everything after the last `/` (all of `p` when it
      has none). */
  function Basename(p: string): string
    decreases |p|
  {
    if p == [] || p[|p| - 1] == '/' then []
    else Basename(p[..|p| - 1]) + [p[|p| - 1]]
  }

  /** The base name is the slash-free tail of the path, cut at the last slash. */
  lemma {:induction false} BasenameSpec(p: string)
    ensures var r := Basename(p);
      && '/' !in r
      && |r| <= |p| && r == p[|p| - |r|..]
      && (|r| < |p| ==> p[|p| - |r| - 1] == '/')
    decreases |p|
  {
    if p != [] && p[|p| - 1] != '/' {
      var q := p[..|p| - 1];
      BasenameSpec(q);
      var r := Basename(p);
      assert r == Basename(q) + [p[|p| - 1]];
      assert p == q + [p[|p| - 1]];
    }
  }

  /** The base name of `dir + "/" + name` is `name` when `name` has no slash. */
  lemma {:induction false} BasenameJoin(dir: string, name: string)
    requires '/' !in name
    ensures Basename(dir + "/" + name) == name
    decreases |name|
  {
    var p := dir + "/" + name;
    if name == [] {
      assert p[|p| - 1] == '/';
    } else {
      assert p[..|p| - 1] == dir + "/" + name[..|name| - 1];
      BasenameJoin(dir, name[..|name| - 1]);
      assert name[..|name| - 1] + [name[|name| - 1]] == name;
    }
  }

  /** A path without a slash is its own base name. */
  lemma {:induction false} BasenameNoSlash(p: string)
    requires '/' !in p
    ensures Basename(p) == p
    decreases |p|
  {
    if p != [] {
      var q := p[..|p| - 1];
      assert '/' !in q;
      BasenameNoSlash(q);
      assert q + [p[|p| - 1]] == p;
    }
  }
}
