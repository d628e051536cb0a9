/**
 The .NET string operations the scope check relies on, over `string = seq<char>`:
 - `SplitOn(s, c)`  is `s.Split(c)` with no options: every separator ends a segment,
   so empty segments are kept and the result always has one more segment than
   `s` has separators;
 - `Join(sep, xs)`  is `string.Join(sep, xs)`;
 - `EqualsIgnoreCase(a, b)` is `string.Equals(a, b, StringComparison.OrdinalIgnoreCase)`
   restricted to ASCII case folding.
 */
module Text {

  /** Number of occurrences of `c` in `s`. */
  function Count(s: string, c: char): (n: nat)
    ensures n <= |s|
    ensures n == 0 <==> c !in s
  {
    if |s| == 0 then 0
    else (if s[0] == c then 1 else 0) + Count(s[1..], c)
  }

  /** `s.Split(c)`: the maximal runs of `s` between occurrences of `c`, empty runs included. */
  function SplitOn(s: string, c: char): (r: seq<string>)
  {
    if |s| == 0 then [""]
    else
      var rest := SplitOn(s[1..], c);
      if s[0] == c then [""] + rest
      else [[s[0]] + rest[0]] + rest[1..]
  }

  /** The segments of a split never contain the separator, and there is exactly one
      more segment than there are separators. */
  lemma {:induction false} SplitOnSegments(s: string, c: char)
    ensures |SplitOn(s, c)| == Count(s, c) + 1
    ensures forall i :: 0 <= i < |SplitOn(s, c)| ==> c !in SplitOn(s, c)[i]
  {
    if |s| > 0 {
      SplitOnSegments(s[1..], c);
      var rest := SplitOn(s[1..], c);
      if s[0] != c {
        assert SplitOn(s, c)[0] == [s[0]] + rest[0];
      }
    }
  }

  /** `string.Join(sep, xs)`: the elements of `xs` in order with `sep` between neighbours. */
  function Join(sep: string, xs: seq<string>): (r: string)
  {
    if |xs| == 0 then ""
    else if |xs| == 1 then xs[0]
    else xs[0] + sep + Join(sep, xs[1..])
  }

  /** Prepending `a` to the first element prepends it to the join. */
  lemma JoinExtendHead(sep: string, a: string, ys: seq<string>)
    requires |ys| >= 1
    ensures Join(sep, [a + ys[0]] + ys[1..]) == a + Join(sep, ys)
  {
  }

  /** Joining the segments of a split with the separator rebuilds the string. */
  lemma {:induction false} JoinSplit(s: string, c: char)
    ensures Join([c], SplitOn(s, c)) == s
  {
    if |s| > 0 {
      var rest := SplitOn(s[1..], c);
      JoinSplit(s[1..], c);
      if s[0] == c {
        var r := [""] + rest;
        assert r[1..] == rest;
        assert Join([c], r) == "" + [c] + Join([c], rest);
      } else {
        JoinExtendHead([c], [s[0]], rest);
      }
      assert s == [s[0]] + s[1..];
    }
  }

  /** A string free of the separator splits into itself alone. */
  lemma {:induction false} SplitWithoutSeparator(s: string, c: char)
    requires c !in s
    ensures SplitOn(s, c) == [s]
  {
    if |s| > 0 {
      assert c !in s[1..];
      SplitWithoutSeparator(s[1..], c);
      assert s == [s[0]] + s[1..];
    }
  }

  /** A separator-free prefix followed by the separator becomes exactly one leading segment. */
  lemma {:induction false} SplitAfterSegment(a: string, c: char, b: string)
    requires c !in a
    ensures SplitOn(a + [c] + b, c) == [a] + SplitOn(b, c)
  {
    var s := a + [c] + b;
    if |a| == 0 {
      assert s == [c] + b;
      assert s[1..] == b;
    } else {
      assert s[1..] == a[1..] + [c] + b;
      assert c !in a[1..];
      SplitAfterSegment(a[1..], c, b);
      assert a == [a[0]] + a[1..];
    }
  }

  /** Splitting a join of separator-free pieces gives the pieces back. */
  lemma {:induction false} SplitJoin(xs: seq<string>, c: char)
    requires |xs| >= 1
    requires forall i :: 0 <= i < |xs| ==> c !in xs[i]
    ensures SplitOn(Join([c], xs), c) == xs
  {
    if |xs| == 1 {
      SplitWithoutSeparator(xs[0], c);
    } else {
      SplitJoin(xs[1..], c);
      SplitAfterSegment(xs[0], c, Join([c], xs[1..]));
      assert xs == [xs[0]] + xs[1..];
    }
  }

  /** ASCII upper-casing of one character; other characters are left as they are. */
  function UpperAscii(ch: char): (u: char)
    ensures 'a' <= ch <= 'z' ==> 'A' <= u <= 'Z' && u as int + 32 == ch as int
    ensures !('a' <= ch <= 'z') ==> u == ch
  {
    if 'a' <= ch <= 'z' then (ch as int - 32) as char else ch
  }

  /** Ordinal comparison ignoring case: same length, same characters after upper-casing. */
  predicate EqualsIgnoreCase(a: string, b: string)
  {
    |a| == |b| && forall i :: 0 <= i < |a| ==> UpperAscii(a[i]) == UpperAscii(b[i])
  }

  /** The case-insensitive comparison is an equivalence that contains plain equality. */
  lemma EqualsIgnoreCaseIsEquivalence(a: string, b: string, c: string)
    ensures EqualsIgnoreCase(a, a)
    ensures EqualsIgnoreCase(a, b) ==> EqualsIgnoreCase(b, a)
    ensures EqualsIgnoreCase(a, b) && EqualsIgnoreCase(b, c) ==> EqualsIgnoreCase(a, c)
  {
  }
}
