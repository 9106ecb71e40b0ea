/**
  The handful of Python `str` operations the generator relies on, for a
  single-character separator: `s.split(c)`, `c.join(parts)`, `s.replace(c, t)`,
  `s.endswith(suffix)`, and a character count used to state properties of them.
 */
module Strings {

  /** Position of the first occurrence of `c` in `s` (Python `s.index(c)`). */
  function IndexOf(s: string, c: char): (i: nat)
    requires c in s
    ensures i < |s| && s[i] == c
    ensures forall j :: 0 <= j < i ==> s[j] != c
  {
    if s[0] == c then 0 else IndexOf(s[1..], c) + 1
  }

  /**
    Python `s.split(c)`: the pieces between the occurrences of `c`. There is
    always at least one piece, and no piece contains `c`.
   */
  function Split(s: string, c: char): (parts: seq<string>)
    ensures |parts| >= 1
    ensures forall k :: 0 <= k < |parts| ==> c !in parts[k]
    decreases |s|
  {
    if c !in s then [s]
    else
      var i := IndexOf(s, c);
      [s[..i]] + Split(s[i + 1..], c)
  }

  /** Python `c.join(parts)`. */
  function Join(parts: seq<string>, c: char): string
  {
    if |parts| == 0 then ""
    else if |parts| == 1 then parts[0]
    else parts[0] + [c] + Join(parts[1..], c)
  }

  /** Python `parts[-1]`. */
  function Last(parts: seq<string>): string
    requires |parts| > 0
  {
    parts[|parts| - 1]
  }

  /** Python `parts[0:-1]`: everything but the last element (empty for an empty list). */
  function DropLast(parts: seq<string>): seq<string>
  {
    if |parts| == 0 then [] else parts[..|parts| - 1]
  }

  /** Python `s.endswith(suffix)`: `s` is some string followed by `suffix`. */
  function EndsWith(s: string, suffix: string): (b: bool)
    ensures b <==> exists p :: p + suffix == s
  {
    if |suffix| <= |s| && s[|s| - |suffix|..] == suffix then
      assert s[..|s| - |suffix|] + suffix == s;
      true
    else
      assert forall p :: (p + suffix)[|p|..] == suffix;
      false
  }

  /** Python `s.replace(c, t)` for a one-character `c`: every `c` becomes `t`, left to right, without rescanning `t`. */
  function ReplaceAll(s: string, c: char, t: string): string
  {
    if |s| == 0 then ""
    else (if s[0] == c then t else [s[0]]) + ReplaceAll(s[1..], c, t)
  }

  /** Number of occurrences of `c` in `s` (Python `s.count(c)`). */
  function Count(c: char, s: string): nat
  {
    if |s| == 0 then 0
    else (if s[0] == c then 1 else 0) + Count(c, s[1..])
  }

  // ---------------------------------------------------------------------------
  // split and join

  /** The first piece of a split is the longest prefix free of `c`. */
  lemma SplitFirst(s: string, c: char)
    ensures Split(s, c)[0] <= s
    ensures c !in Split(s, c)[0]
    ensures |Split(s, c)[0]| == |s| || s[|Split(s, c)[0]|] == c
  {
  }

  /** The last piece of a split is the longest suffix free of `c`. */
  lemma SplitLast(s: string, c: char)
    ensures |Last(Split(s, c))| <= |s|
    ensures s[|s| - |Last(Split(s, c))|..] == Last(Split(s, c))
    ensures c !in Last(Split(s, c))
    ensures |Last(Split(s, c))| == |s| || s[|s| - |Last(Split(s, c))| - 1] == c
  {
    var parts := Split(s, c);
    var x := Last(parts);
    JoinSplit(s, c);
    if |parts| > 1 {
      var front := parts[..|parts| - 1];
      assert parts == front + [x];
      JoinSnoc(front, x, c);
      assert s == Join(front, c) + [c] + x;
    }
  }

  /** Joining the pieces of a split gives the string back. */
  lemma {:induction false} JoinSplit(s: string, c: char)
    ensures Join(Split(s, c), c) == s
    decreases |s|
  {
    if c in s {
      var i := IndexOf(s, c);
      var rest := s[i + 1..];
      JoinSplit(rest, c);
      assert Split(s, c) == [s[..i]] + Split(rest, c);
      assert Split(s, c)[1..] == Split(rest, c);
      assert s == s[..i] + [c] + rest;
    }
  }

  /** Splitting a join of `c`-free pieces gives the pieces back. */
  lemma {:induction false} SplitJoin(parts: seq<string>, c: char)
    requires |parts| >= 1
    requires forall k :: 0 <= k < |parts| ==> c !in parts[k]
    ensures Split(Join(parts, c), c) == parts
  {
    if |parts| > 1 {
      var tail := parts[1..];
      SplitJoin(tail, c);
      var s := Join(parts, c);
      assert s == parts[0] + [c] + Join(tail, c);
      SplitAround(parts[0], Join(tail, c), c);
      assert Split(s, c) == [parts[0]] + Split(Join(tail, c), c);
      assert parts == [parts[0]] + tail;
    }
  }

  /** Splitting `a + c + b` where `a` is free of `c` peels off `a` as the first piece. */
  lemma SplitAround(a: string, b: string, c: char)
    requires c !in a
    ensures Split(a + [c] + b, c) == [a] + Split(b, c)
  {
    var s := a + [c] + b;
    assert s[|a|] == c;
    var i := IndexOf(s, c);
    assert forall j :: 0 <= j < |a| ==> s[j] == a[j];
    assert i == |a|;
    assert s[..i] == a;
    assert s[i + 1..] == b;
  }

  /** A split distributes over a concatenation around one separator. */
  lemma {:induction false} SplitConcat(a: string, b: string, c: char)
    ensures Split(a + [c] + b, c) == Split(a, c) + Split(b, c)
    decreases |a|
  {
    if c !in a {
      SplitAround(a, b, c);
    } else {
      var i := IndexOf(a, c);
      var head, rest := a[..i], a[i + 1..];
      var tail := rest + [c] + b;
      assert c !in head;
      assert a == head + [c] + rest;
      assert a + [c] + b == head + [c] + tail;
      calc {
        Split(a + [c] + b, c);
        Split(head + [c] + tail, c);
        { SplitAround(head, tail, c); }
        [head] + Split(tail, c);
        { SplitConcat(rest, b, c); }
        [head] + (Split(rest, c) + Split(b, c));
        ([head] + Split(rest, c)) + Split(b, c);
        { SplitAround(head, rest, c); }
        Split(head + [c] + rest, c) + Split(b, c);
        Split(a, c) + Split(b, c);
      }
    }
  }

  /** When `s` does not start with `c`, its first character leads the first piece of the split. */
  lemma SplitFirstCons(s: string, c: char)
    requires |s| > 0 && s[0] != c
    ensures Split(s, c)[0] == [s[0]] + Split(s[1..], c)[0]
  {
    assert s == [s[0]] + s[1..];
    if c in s {
      var i := IndexOf(s, c);
      assert i == IndexOf(s[1..], c) + 1;
      assert s[..i] == [s[0]] + s[1..][..i - 1];
    }
  }

  /** Appending one piece to a non-empty list appends a separator and that piece to the join. */
  lemma {:induction false} JoinSnoc(parts: seq<string>, x: string, c: char)
    requires |parts| >= 1
    ensures Join(parts + [x], c) == Join(parts, c) + [c] + x
  {
    if |parts| > 1 {
      JoinSnoc(parts[1..], x, c);
      assert (parts + [x])[1..] == parts[1..] + [x];
    }
  }

  // ---------------------------------------------------------------------------
  // replace and count

  /** Replacing a character that does not occur changes nothing. */
  lemma {:induction false} ReplaceAbsent(s: string, c: char, t: string)
    requires c !in s
    ensures ReplaceAll(s, c, t) == s
  {
    if |s| > 0 {
      ReplaceAbsent(s[1..], c, t);
      assert s == [s[0]] + s[1..];
    }
  }

  /** A character is in the result iff it is a kept character of `s`, or it comes from a substituted `t`. */
  lemma {:induction false} ReplaceMembership(s: string, c: char, t: string, y: char)
    ensures y in ReplaceAll(s, c, t) <==> (y in s && y != c) || (c in s && y in t)
  {
    if |s| > 0 {
      ReplaceMembership(s[1..], c, t, y);
      assert s == [s[0]] + s[1..];
    }
  }

  /** Every `c` grows into `|t|` characters. */
  lemma {:induction false} ReplaceLength(s: string, c: char, t: string)
    ensures |ReplaceAll(s, c, t)| == |s| + Count(c, s) * (|t| - 1)
  {
    if |s| > 0 {
      ReplaceLength(s[1..], c, t);
    }
  }

  /** How often `y` occurs after the replacement: the kept copies of `y` plus a full `t`'s worth per replaced `c`. */
  lemma {:induction false} ReplaceCount(s: string, c: char, t: string, y: char)
    ensures Count(y, ReplaceAll(s, c, t)) == (if y == c then 0 else Count(y, s)) + Count(c, s) * Count(y, t)
  {
    if |s| > 0 {
      var head := if s[0] == c then t else [s[0]];
      var rest := ReplaceAll(s[1..], c, t);
      ReplaceCount(s[1..], c, t, y);
      assert ReplaceAll(s, c, t) == head + rest;
      CountConcat(y, head, rest);
      var n, m := Count(c, s[1..]), Count(y, t);
      if s[0] == c {
        MulSucc(n, m);
      } else {
        assert head[1..] == [];
      }
    }
  }

  lemma MulSucc(n: nat, m: nat)
    ensures (n + 1) * m == n * m + m
  {
  }

  lemma {:induction false} CountConcat(y: char, a: string, b: string)
    ensures Count(y, a + b) == Count(y, a) + Count(y, b)
  {
    if |a| == 0 {
      assert a + b == b;
    } else {
      CountConcat(y, a[1..], b);
      assert (a + b)[0] == a[0];
      assert (a + b)[1..] == a[1..] + b;
    }
  }

  /** Replacement distributes over concatenation. */
  lemma {:induction false} ReplaceConcat(a: string, b: string, c: char, t: string)
    ensures ReplaceAll(a + b, c, t) == ReplaceAll(a, c, t) + ReplaceAll(b, c, t)
  {
    if |a| == 0 {
      assert a + b == b;
    } else {
      var ab := a + b;
      assert ab[0] == a[0] && ab[1..] == a[1..] + b;
      ReplaceConcat(a[1..], b, c, t);
      var head := if a[0] == c then t else [a[0]];
      calc {
        ReplaceAll(ab, c, t);
        head + ReplaceAll(a[1..] + b, c, t);
        head + (ReplaceAll(a[1..], c, t) + ReplaceAll(b, c, t));
        (head + ReplaceAll(a[1..], c, t)) + ReplaceAll(b, c, t);
        ReplaceAll(a, c, t) + ReplaceAll(b, c, t);
      }
    }
  }
}
