/**
 * The Python string builtins the server relies on, over `seq<char>`:
 * `str.startswith`, `str.endswith`, `str.lower` (ASCII letters only),
 * `str.replace`, `str.split` with a one-character separator, the decimal
 * rendering `str(n)` of a non-negative int, and slicing `s[lo:hi]` with
 * non-negative bounds.
 */
module PyText {

  /** `s.startswith(prefix)`: `s` is `prefix` followed by the rest of `s`. */
  predicate StartsWith(s: string, prefix: string)
    ensures StartsWith(s, prefix) <==> |prefix| <= |s| && s == prefix + s[|prefix|..]
  {
    |prefix| <= |s| && s[..|prefix|] == prefix
  }

  /** `s.endswith(suffix)`: `s` is the front of `s` followed by `suffix`. */
  predicate EndsWith(s: string, suffix: string)
    ensures EndsWith(s, suffix) <==> |suffix| <= |s| && s == s[..|s| - |suffix|] + suffix
  {
    |suffix| <= |s| && s[|s| - |suffix|..] == suffix
  }

  function LowerChar(c: char): char
  {
    if 'A' <= c <= 'Z' then (c as int - 'A' as int + 'a' as int) as char else c
  }

  /** `s.lower()`, restricted to the ASCII letters. */
  function Lower(s: string): (r: string)
    ensures |r| == |s|
    ensures forall i :: 0 <= i < |s| ==> r[i] == LowerChar(s[i])
  {
    seq(|s|, i requires 0 <= i < |s| => LowerChar(s[i]))
  }

  lemma LowerIdempotent(s: string)
    ensures Lower(Lower(s)) == Lower(s)
  {
  }

  /** Lowering commutes with taking a suffix, so `lower().endswith(x)` is a suffix test. */
  lemma LowerSuffix(s: string, k: nat)
    requires k <= |s|
    ensures Lower(s)[k..] == Lower(s[k..])
  {
  }

  /**
   * `s.replace(pat, repl, count)`: occurrences of `pat` are found left to
   * right, never overlapping, and at most `count` of them are replaced; a
   * negative `count` (Python's default -1) replaces them all. Text produced
   * by a replacement is not scanned again.
   */
  function Replace(s: string, pat: string, repl: string, count: int): (r: string)
    requires |pat| > 0
    ensures count == 0 ==> r == s
    ensures |repl| <= |pat| ==> |r| <= |s|
    decreases |s|
  {
    if count == 0 || |s| < |pat| then s
    else if s[..|pat|] == pat then repl + Replace(s[|pat|..], pat, repl, count - 1)
    else [s[0]] + Replace(s[1..], pat, repl, count)
  }

  /** A string that does not contain the first character of `pat` is left as it is. */
  lemma {:induction false} ReplaceAbsent(s: string, pat: string, repl: string, count: int)
    requires |pat| > 0
    requires pat[0] !in s
    ensures Replace(s, pat, repl, count) == s
  {
    if count == 0 || |s| < |pat| {
    } else {
      assert s[0] != pat[0];
      assert s[..|pat|] != pat;
      ReplaceAbsent(s[1..], pat, repl, count);
    }
  }

  /** A leading occurrence is always the first one replaced. */
  lemma ReplaceLeading(pat: string, repl: string, rest: string, count: int)
    requires |pat| > 0 && count != 0
    ensures Replace(pat + rest, pat, repl, count) == repl + Replace(rest, pat, repl, count - 1)
  {
    assert (pat + rest)[..|pat|] == pat;
    assert (pat + rest)[|pat|..] == rest;
  }

  /** Every negative count means "replace all", so any two of them agree. */
  lemma {:induction false} ReplaceAllCounts(s: string, pat: string, repl: string, c1: int, c2: int)
    requires |pat| > 0 && c1 < 0 && c2 < 0
    ensures Replace(s, pat, repl, c1) == Replace(s, pat, repl, c2)
    decreases |s|
  {
    if |s| < |pat| {
    } else if s[..|pat|] == pat {
      ReplaceAllCounts(s[|pat|..], pat, repl, c1 - 1, c2 - 1);
    } else {
      ReplaceAllCounts(s[1..], pat, repl, c1, c2);
    }
  }

  /** A character in neither `s` nor `repl` is not in the result. */
  lemma {:induction false} ReplaceKeepsOut(s: string, pat: string, repl: string, count: int, c: char)
    requires |pat| > 0 && c !in s && c !in repl
    ensures c !in Replace(s, pat, repl, count)
    decreases |s|
  {
    if count == 0 || |s| < |pat| {
    } else if s[..|pat|] == pat {
      assert forall i :: 0 <= i < |s| - |pat| ==> s[|pat|..][i] == s[|pat| + i];
      ReplaceKeepsOut(s[|pat|..], pat, repl, count - 1, c);
    } else {
      assert forall i :: 0 <= i < |s| - 1 ==> s[1..][i] == s[1 + i];
      ReplaceKeepsOut(s[1..], pat, repl, count, c);
    }
  }

  /** A character of `s` that is not in `pat` is never removed. */
  lemma {:induction false} ReplaceKeepsIn(s: string, pat: string, repl: string, count: int, c: char)
    requires |pat| > 0 && c in s && c !in pat
    ensures c in Replace(s, pat, repl, count)
    decreases |s|
  {
    if count == 0 || |s| < |pat| {
    } else if s[..|pat|] == pat {
      var rest := s[|pat|..];
      assert c in rest by {
        var k :| 0 <= k < |s| && s[k] == c;
        assert forall i :: 0 <= i < |pat| ==> s[i] == pat[i];
        assert k >= |pat|;
        assert rest[k - |pat|] == c;
      }
      assert Replace(s, pat, repl, count) == repl + Replace(rest, pat, repl, count - 1);
      ReplaceKeepsIn(rest, pat, repl, count - 1, c);
    } else {
      ReplaceHead(s, pat, repl, count);
      if s[0] != c {
        assert c in s[1..] by {
          var k :| 0 <= k < |s| && s[k] == c;
          assert s[1..][k - 1] == c;
        }
        ReplaceKeepsIn(s[1..], pat, repl, count, c);
      }
    }
  }

  /**
   * With every occurrence replaced, a separator that the pattern does not
   * contain splits the work: no occurrence straddles it.
   */
  lemma {:induction false} ReplaceAround(x: string, sep: char, y: string, pat: string, repl: string, count: int)
    requires |pat| > 0 && sep !in pat && count < 0
    ensures Replace(x + [sep] + y, pat, repl, count)
      == Replace(x, pat, repl, count) + [sep] + Replace(y, pat, repl, count)
    decreases |x|, 1
  {
    var s := x + [sep] + y;
    if |s| < |pat| {
      assert Replace(x, pat, repl, count) == x;
      assert Replace(y, pat, repl, count) == y;
    } else if s[..|pat|] == pat {
      ReplaceAroundMatch(x, sep, y, pat, repl, count);
    } else if x == [] {
      assert s[1..] == y;
      assert Replace(s, pat, repl, count) == [sep] + Replace(y, pat, repl, count);
    } else {
      ReplaceAroundSkip(x, sep, y, pat, repl, count);
    }
  }

  /** The step of `ReplaceAround` where a non-empty `x` does not start the text with the pattern. */
  lemma {:induction false} ReplaceAroundSkip(x: string, sep: char, y: string, pat: string, repl: string, count: int)
    requires |pat| > 0 && sep !in pat && count < 0 && x != []
    requires |x + [sep] + y| >= |pat| && (x + [sep] + y)[..|pat|] != pat
    ensures Replace(x + [sep] + y, pat, repl, count)
      == Replace(x, pat, repl, count) + [sep] + Replace(y, pat, repl, count)
    decreases |x|, 0
  {
    var s := x + [sep] + y;
    var t := x[1..] + [sep] + y;
    var a := Replace(x[1..], pat, repl, count);
    var b := Replace(y, pat, repl, count);
    assert Replace(s, pat, repl, count) == [x[0]] + Replace(t, pat, repl, count) by {
      assert s[0] == x[0] && s[1..] == t;
      ReplaceHead(s, pat, repl, count);
    }
    assert Replace(x, pat, repl, count) == [x[0]] + a by {
      PrefixWithin(x, [sep] + y, |pat|);
      assert s == x + ([sep] + y);
      ReplaceHead(x, pat, repl, count);
    }
    assert Replace(t, pat, repl, count) == a + [sep] + b by {
      ReplaceAround(x[1..], sep, y, pat, repl, count);
    }
    assert [x[0]] + (a + [sep] + b) == ([x[0]] + a) + [sep] + b;
  }

  /** A prefix no longer than `x` is a prefix of `x` itself. */
  lemma PrefixWithin(x: string, rest: string, n: nat)
    ensures n <= |x| ==> (x + rest)[..n] == x[..n]
  {
  }

  /** Text that does not start with the pattern keeps its first character and goes on after it. */
  lemma ReplaceHead(s: string, pat: string, repl: string, count: int)
    requires |pat| > 0 && count != 0 && |s| > 0
    requires !(|s| >= |pat| && s[..|pat|] == pat)
    ensures Replace(s, pat, repl, count) == [s[0]] + Replace(s[1..], pat, repl, count)
  {
    if |s| < |pat| {
      assert [s[0]] + s[1..] == s;
    }
  }

  /** The step of `ReplaceAround` where the text starts with the pattern, which then lies inside `x`. */
  lemma {:induction false} ReplaceAroundMatch(x: string, sep: char, y: string, pat: string, repl: string, count: int)
    requires |pat| > 0 && sep !in pat && count < 0
    requires |x + [sep] + y| >= |pat| && (x + [sep] + y)[..|pat|] == pat
    ensures Replace(x + [sep] + y, pat, repl, count)
      == Replace(x, pat, repl, count) + [sep] + Replace(y, pat, repl, count)
    decreases |x|, 0
  {
    var s := x + [sep] + y;
    assert s[|x|] == sep;
    assert forall i :: 0 <= i < |pat| ==> s[i] == pat[i];
    assert |x| >= |pat|;
    assert x[..|pat|] == pat;
    var rest := x[|pat|..];
    assert s[|pat|..] == rest + [sep] + y;
    assert Replace(s, pat, repl, count) == repl + Replace(rest + [sep] + y, pat, repl, count - 1);
    assert Replace(x, pat, repl, count) == repl + Replace(rest, pat, repl, count - 1);
    ReplaceAround(rest, sep, y, pat, repl, count - 1);
    ReplaceAllCounts(y, pat, repl, count - 1, count);
  }

  /** Python's `sep.join(parts)`. */
  function Join(parts: seq<string>, sep: char): (r: string)
    requires |parts| > 0
  {
    if |parts| == 1 then parts[0] else parts[0] + [sep] + Join(parts[1..], sep)
  }

  /**
   * `s.split(sep)` for a one-character separator: the maximal pieces
   * between separators, so there is always at least one piece (`"".split("-")`
   * is `[""]`) and empty pieces are kept.
   */
  function Split(s: string, sep: char): (r: seq<string>)
    ensures |r| > 0
    ensures forall i :: 0 <= i < |r| ==> sep !in r[i]
  {
    if s == [] then [[]]
    else
      var rest := Split(s[1..], sep);
      if s[0] == sep then [[]] + rest
      else [[s[0]] + rest[0]] + rest[1..]
  }

  /** Joining the pieces with the separator gives back the original string. */
  lemma {:induction false} JoinSplit(s: string, sep: char)
    ensures Join(Split(s, sep), sep) == s
  {
    if s != [] {
      var rest := Split(s[1..], sep);
      JoinSplit(s[1..], sep);
      if s[0] == sep {
        assert Split(s, sep)[1..] == rest;
      } else {
        var r := Split(s, sep);
        if |rest| == 1 {
          assert r == [[s[0]] + rest[0]];
        } else {
          assert r[1..] == rest[1..];
          assert Join(rest, sep) == rest[0] + [sep] + Join(rest[1..], sep);
        }
      }
    }
  }

  /** Splitting a string that starts with a separator-free piece and a separator. */
  lemma {:induction false} SplitCons(head: string, sep: char, tail: string)
    requires sep !in head
    ensures Split(head + [sep] + tail, sep) == [head] + Split(tail, sep)
  {
    if head == [] {
      assert head + [sep] + tail == [sep] + tail;
      assert ([sep] + tail)[1..] == tail;
    } else {
      var s := head + [sep] + tail;
      assert s[0] == head[0];
      assert s[1..] == head[1..] + [sep] + tail;
      SplitCons(head[1..], sep, tail);
      assert [head[0]] + head[1..] == head;
    }
  }

  /** A string without the separator is a single piece. */
  lemma {:induction false} SplitNone(s: string, sep: char)
    requires sep !in s
    ensures Split(s, sep) == [s]
  {
    if s != [] {
      SplitNone(s[1..], sep);
      assert [s[0]] + s[1..] == s;
    }
  }

  /** Splitting the join of separator-free pieces gives the pieces back. */
  lemma {:induction false} SplitJoin(parts: seq<string>, sep: char)
    requires |parts| > 0
    requires forall i :: 0 <= i < |parts| ==> sep !in parts[i]
    ensures Split(Join(parts, sep), sep) == parts
  {
    if |parts| == 1 {
      SplitNone(parts[0], sep);
    } else {
      SplitJoin(parts[1..], sep);
      SplitCons(parts[0], sep, Join(parts[1..], sep));
      assert [parts[0]] + parts[1..] == parts;
    }
  }

  function DigitChar(d: nat): (c: char)
    requires d < 10
    ensures '0' <= c <= '9'
  {
    ('0' as int + d) as char
  }

  /** `str(n)` for a non-negative int: its decimal digits, no leading zero. */
  function Decimal(n: nat): (r: string)
    ensures |r| > 0
    ensures forall i :: 0 <= i < |r| ==> '0' <= r[i] <= '9'
    ensures |r| > 1 ==> r[0] != '0'
  {
    if n < 10 then [DigitChar(n)] else Decimal(n / 10) + [DigitChar(n % 10)]
  }

  /** A larger number never has fewer digits. */
  lemma {:induction false} DecimalMonotone(m: nat, n: nat)
    requires m <= n
    ensures |Decimal(m)| <= |Decimal(n)|
  {
    if m >= 10 {
      DecimalMonotone(m / 10, n / 10);
    }
  }

  /**
   * The slice `s[lo:hi]` for non-negative bounds: both are clamped to the
   * length, and a slice whose start is not before its end is empty.
   */
  function Slice<T>(s: seq<T>, lo: nat, hi: nat): (r: seq<T>)
    ensures |r| <= |s|
    ensures lo < hi <= |s| ==> r == s[lo..hi]
    ensures hi <= lo ==> r == []
  {
    var h := if hi < |s| then hi else |s|;
    if lo < h then s[lo..h] else []
  }
}
