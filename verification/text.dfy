/** String helpers shared by the content script and the side panel:
    `trim`, `split`/`join` on one separator character, ASCII lower-casing
    and `includes`. Strings are sequences of characters; JavaScript counts
    UTF-16 code units, which this model identifies with characters. */
module Text {

  /** The characters `String.prototype.trim` removes: ECMAScript's
      WhiteSpace (including the space separators) and LineTerminator. */
  predicate IsWhitespace(c: char)
  {
    || c == '\t' || c == '\n' || c == '\U{B}' || c == '\U{C}' || c == '\r'
    || c == ' ' || c == '\U{A0}' || c == '\U{1680}'
    || ('\U{2000}' <= c <= '\U{200A}')
    || c == '\U{2028}' || c == '\U{2029}' || c == '\U{202F}'
    || c == '\U{205F}' || c == '\U{3000}' || c == '\U{FEFF}'
  }

  predicate AllWhitespace(s: string)
  {
    forall i :: 0 <= i < |s| ==> IsWhitespace(s[i])
  }

  /** Neither end of `s` is whitespace. */
  predicate Trimmed(s: string)
  {
    s == [] || (!IsWhitespace(s[0]) && !IsWhitespace(s[|s| - 1]))
  }

  /** Length of the leading whitespace run of `s`. */
  function LeadingWhitespace(s: string): (n: nat)
    ensures n <= |s|
    ensures forall i :: 0 <= i < n ==> IsWhitespace(s[i])
    ensures n == |s| || !IsWhitespace(s[n])
  {
    if |s| > 0 && IsWhitespace(s[0]) then
      var n := LeadingWhitespace(s[1..]);
      assert forall i :: 1 <= i <= n ==> s[i] == s[1..][i - 1];
      1 + n
    else 0
  }

  /** Where the trailing whitespace run of `s` starts. */
  function TrailingWhitespace(s: string): (n: nat)
    ensures n <= |s|
    ensures forall i :: n <= i < |s| ==> IsWhitespace(s[i])
    ensures n == 0 || !IsWhitespace(s[n - 1])
  {
    if |s| > 0 && IsWhitespace(s[|s| - 1]) then
      var n := TrailingWhitespace(s[..|s| - 1]);
      assert forall i :: 0 <= i < |s| - 1 ==> s[i] == s[..|s| - 1][i];
      n
    else |s|
  }

  /** `String.prototype.trim`: drops the leading and the trailing
      whitespace. The result has no whitespace at either end, and it is
      empty exactly when `s` is all whitespace. */
  function Trim(s: string): (r: string)
    ensures Trimmed(r)
    ensures |r| <= |s|
    ensures r == [] <==> AllWhitespace(s)
  {
    var a := LeadingWhitespace(s);
    if a == |s| then ""
    else
      var b := TrailingWhitespace(s);
      assert a < b;
      s[a..b]
  }

  /** What trimming keeps: a stretch of `s` with only whitespace around it. */
  lemma TrimIsInfix(s: string)
    ensures var r := Trim(s);
            exists i :: 0 <= i <= |s| - |r| && s[i..i + |r|] == r
                        && AllWhitespace(s[..i]) && AllWhitespace(s[i + |r|..])
  {
    var a := LeadingWhitespace(s);
    if a == |s| {
      assert s[0..0] == Trim(s);
      assert s[..0] == [];
    } else {
      var b := TrailingWhitespace(s);
      assert s[a..a + (b - a)] == Trim(s);
      assert AllWhitespace(s[..a]);
      assert AllWhitespace(s[a + (b - a)..]);
    }
  }

  /** Every character of the trimmed string occurs in the original. */
  lemma TrimHolds(s: string, ch: char)
    requires ch in Trim(s)
    ensures ch in s
  {
    var a := LeadingWhitespace(s);
    var k :| 0 <= k < |Trim(s)| && Trim(s)[k] == ch;
    assert s[a + k] == ch;
  }

  /** Trimming leaves an unpadded string alone. */
  lemma TrimOfTrimmed(t: string)
    requires Trimmed(t)
    ensures Trim(t) == t
  {
    if |t| > 0 {
      assert LeadingWhitespace(t) == 0;
      assert TrailingWhitespace(t) == |t|;
    }
  }

  /** `Array.prototype.join` with a one-character separator. */
  function Join(parts: seq<string>, sep: char): string
  {
    if |parts| == 0 then ""
    else if |parts| == 1 then parts[0]
    else parts[0] + [sep] + Join(parts[1..], sep)
  }

  lemma JoinCons(c: char, p: string, ps: seq<string>, sep: char)
    ensures Join([[c] + p] + ps, sep) == [c] + Join([p] + ps, sep)
  {
    var xs := [[c] + p] + ps;
    var ys := [p] + ps;
    assert xs[1..] == ps && ys[1..] == ps;
  }

  /** Joining is insensitive to where a separator sits: a piece holding
      the separator joins to the same text as its two halves. */
  lemma {:induction false} JoinSplitPiece(pre: seq<string>, a: string, b: string, post: seq<string>, sep: char)
    ensures Join(pre + [a + [sep] + b] + post, sep) == Join(pre + [a, b] + post, sep)
    decreases |pre|
  {
    var xs := pre + [a + [sep] + b] + post;
    var ys := pre + [a, b] + post;
    if |pre| == 0 {
      assert xs == [a + [sep] + b] + post && ys == [a, b] + post;
      assert ys[1..] == [b] + post && ys[1..][1..] == post && xs[1..] == post;
    } else {
      JoinSplitPiece(pre[1..], a, b, post, sep);
      assert xs[1..] == pre[1..] + [a + [sep] + b] + post;
      assert ys[1..] == pre[1..] + [a, b] + post;
    }
  }

  /** Every character of a join comes from a part or is the separator. */
  lemma {:induction false} JoinChars(parts: seq<string>, sep: char, ch: char)
    requires ch in Join(parts, sep)
    ensures ch == sep || exists i :: 0 <= i < |parts| && ch in parts[i]
    decreases |parts|
  {
    if |parts| > 1 {
      if ch !in parts[0] && ch != sep {
        JoinChars(parts[1..], sep, ch);
        var i :| 0 <= i < |parts[1..]| && ch in parts[1..][i];
        assert ch in parts[i + 1];
      }
    }
  }

  /** A join starts with the first character of its first part. */
  lemma JoinHead(parts: seq<string>, sep: char)
    requires |parts| > 0 && parts[0] != []
    ensures Join(parts, sep) != [] && Join(parts, sep)[0] == parts[0][0]
  {
  }

  /** `String.prototype.split` on one separator character: the pieces
      between separators, never empty as a list, none holding the
      separator, and joining them back gives `s`. */
  function Split(s: string, sep: char): (r: seq<string>)
    ensures |r| >= 1
    ensures forall i :: 0 <= i < |r| ==> sep !in r[i]
    ensures Join(r, sep) == s
  {
    if |s| == 0 then [""]
    else if s[0] == sep then
      var rest := Split(s[1..], sep);
      assert s == [sep] + s[1..];
      [""] + rest
    else
      var rest := Split(s[1..], sep);
      JoinCons(s[0], rest[0], rest[1..], sep);
      assert [rest[0]] + rest[1..] == rest;
      assert s == [s[0]] + s[1..];
      [[s[0]] + rest[0]] + rest[1..]
  }

  lemma {:induction false} SplitPrefix(p: string, t: string, sep: char)
    requires sep !in p
    ensures Split(p + [sep] + t, sep) == [p] + Split(t, sep)
    decreases |p|
  {
    if |p| == 0 {
      assert p + [sep] + t == [sep] + t;
      assert ([sep] + t)[1..] == t;
    } else {
      var s := p + [sep] + t;
      assert s[0] == p[0] && s[0] != sep;
      assert s[1..] == p[1..] + [sep] + t;
      SplitPrefix(p[1..], t, sep);
      assert [p[0]] + p[1..] == p;
    }
  }

  lemma {:induction false} SplitNoSep(p: string, sep: char)
    requires sep !in p
    ensures Split(p, sep) == [p]
    decreases |p|
  {
    if |p| > 0 {
      SplitNoSep(p[1..], sep);
      assert [p[0]] + p[1..] == p;
    }
  }

  /** The first piece of a split join is the first part, whatever the
      later parts hold. */
  lemma SplitFirst(parts: seq<string>, sep: char)
    requires |parts| > 0 && sep !in parts[0]
    ensures Split(Join(parts, sep), sep)[0] == parts[0]
  {
    if |parts| == 1 {
      SplitNoSep(parts[0], sep);
    } else {
      SplitPrefix(parts[0], Join(parts[1..], sep), sep);
    }
  }

  /** Splitting undoes joining when no piece holds the separator. */
  lemma {:induction false} SplitJoin(parts: seq<string>, sep: char)
    requires |parts| >= 1
    requires forall i :: 0 <= i < |parts| ==> sep !in parts[i]
    ensures Split(Join(parts, sep), sep) == parts
    decreases |parts|
  {
    if |parts| == 1 {
      SplitNoSep(parts[0], sep);
    } else {
      SplitJoin(parts[1..], sep);
      SplitPrefix(parts[0], Join(parts[1..], sep), sep);
      assert [parts[0]] + parts[1..] == parts;
    }
  }

  /** ASCII part of `String.prototype.toLowerCase`. */
  function LowerChar(c: char): char
  {
    if 'A' <= c <= 'Z' then (c as int + 32) as char else c
  }

  /** Lower-cases every character, keeping the length. */
  function Lower(s: string): (r: string)
    ensures |r| == |s|
    ensures forall i :: 0 <= i < |s| ==> r[i] == LowerChar(s[i])
  {
    if |s| == 0 then "" else [LowerChar(s[0])] + Lower(s[1..])
  }

  /** Lower-casing twice is lower-casing once. */
  lemma LowerIdempotent(s: string)
    ensures Lower(Lower(s)) == Lower(s)
  {
  }

  /** JavaScript's `includes`: `k` occurs in `t` at some position. */
  ghost predicate IsInfix(k: string, t: string)
  {
    exists i :: 0 <= i <= |t| && StartsWith(t[i..], k)
  }

  predicate StartsWith(t: string, k: string)
  {
    |k| <= |t| && t[..|k|] == k
  }

  /** `t.includes(k)`, scanning left to right. */
  function Includes(t: string, k: string): (b: bool)
    ensures b <==> IsInfix(k, t)
  {
    if StartsWith(t, k) then
      assert t[0..] == t;
      true
    else if |t| == 0 then false
    else
      var b := Includes(t[1..], k);
      assert forall i :: 1 <= i <= |t| ==> t[1..][i - 1..] == t[i..];
      assert forall i :: 0 <= i <= |t| - 1 ==> t[1..][i..] == t[i + 1..];
      b
  }
}
