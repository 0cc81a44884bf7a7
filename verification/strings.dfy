/**
 * The .NET string operations the console's submission steps rely on:
 * `Trim`, `Replace(x, "")` of a single character, and `Split(' ')`.
 * Strings are `seq<char>`, sequences of Unicode scalar values.
 */
module Strings {

  /** The characters .NET's `char.IsWhiteSpace` accepts, which `string.Trim()` removes. */
  predicate IsWhiteSpace(c: char) {
    || ('\U{9}' <= c <= '\U{D}')
    || c == ' ' || c == '\U{85}' || c == '\U{A0}' || c == '\U{1680}'
    || ('\U{2000}' <= c <= '\U{200A}')
    || c == '\U{2028}' || c == '\U{2029}' || c == '\U{202F}' || c == '\U{205F}' || c == '\U{3000}'
  }

  /** White space `NumberStyles.AllowLeadingWhite` and `AllowTrailingWhite` accept. */
  predicate IsNumberWhite(c: char) {
    ('\U{9}' <= c <= '\U{D}') || c == ' '
  }

  /** The two kinds of padding the source trims away. */
  datatype Blank = WhiteSpace | NumberWhite

  predicate IsBlank(ws: Blank, c: char) {
    match ws
    case WhiteSpace => IsWhiteSpace(c)
    case NumberWhite => IsNumberWhite(c)
  }

  /** Every character of `s` is in the class `ws`. */
  predicate All(s: string, ws: Blank) {
    forall i :: 0 <= i < |s| ==> IsBlank(ws, s[i])
  }

  /** `s` neither starts nor ends with a character of the class `ws`. */
  predicate TrimmedBy(s: string, ws: Blank) {
    |s| == 0 || (!IsBlank(ws, s[0]) && !IsBlank(ws, s[|s| - 1]))
  }

  /** Drops the longest prefix of `s` made of characters in `ws`. */
  function TrimStartBy(s: string, ws: Blank): (r: string)
    ensures |r| <= |s| && r == s[|s| - |r|..]
    ensures All(s[..|s| - |r|], ws)
    ensures |r| == 0 || !IsBlank(ws, r[0])
  {
    if |s| > 0 && IsBlank(ws, s[0]) then
      var r := TrimStartBy(s[1..], ws);
      assert s[1..][|s| - 1 - |r|..] == s[|s| - |r|..];
      assert forall i :: 1 <= i < |s| - |r| ==> s[i] == s[1..][i - 1];
      r
    else s
  }

  /** Drops the longest suffix of `s` made of characters in `ws`. */
  function TrimEndBy(s: string, ws: Blank): (r: string)
    ensures |r| <= |s| && r == s[..|r|]
    ensures All(s[|r|..], ws)
    ensures |r| == 0 || !IsBlank(ws, r[|r| - 1])
  {
    if |s| > 0 && IsBlank(ws, s[|s| - 1]) then
      var r := TrimEndBy(s[..|s| - 1], ws);
      assert forall i :: |r| <= i < |s| - 1 ==> s[i] == s[..|s| - 1][i];
      r
    else s
  }

  /** The length of the leading padding of `s`. */
  function Lead(s: string, ws: Blank): (k: nat)
    ensures k <= |s|
  {
    |s| - |TrimStartBy(s, ws)|
  }

  /**
   * Removes leading and trailing characters of the class `ws`: the result is
   * the infix of `s` that starts after the leading padding, everything around
   * it is padding, and it neither starts nor ends with padding.
   */
  function TrimBy(s: string, ws: Blank): (r: string)
    ensures TrimmedBy(r, ws)
    ensures Lead(s, ws) + |r| <= |s| && r == s[Lead(s, ws)..Lead(s, ws) + |r|]
    ensures All(s[..Lead(s, ws)], ws) && All(s[Lead(s, ws) + |r|..], ws)
  {
    var t := TrimStartBy(s, ws);
    var r := TrimEndBy(t, ws);
    assert Lead(s, ws) == |s| - |t|;
    InfixOfSuffix(s, t, r);
    r
  }

  /** A prefix of a suffix is the infix between the two cut points. */
  lemma InfixOfSuffix(s: string, t: string, r: string)
    requires |t| <= |s| && t == s[|s| - |t|..]
    requires |r| <= |t| && r == t[..|r|]
    ensures r == s[|s| - |t|..|s| - |t| + |r|] && t[|r|..] == s[|s| - |t| + |r|..]
  {
  }

  /** `string.Trim()`. */
  function Trim(s: string): (r: string)
    ensures TrimmedBy(r, WhiteSpace)
    ensures Lead(s, WhiteSpace) + |r| <= |s| && r == s[Lead(s, WhiteSpace)..Lead(s, WhiteSpace) + |r|]
    ensures All(s[..Lead(s, WhiteSpace)], WhiteSpace) && All(s[Lead(s, WhiteSpace) + |r|..], WhiteSpace)
  {
    TrimBy(s, WhiteSpace)
  }

  /** Trimming only removes characters: a character absent before is absent after. */
  lemma TrimByAbsent(s: string, ws: Blank, c: char)
    requires c !in s
    ensures c !in TrimBy(s, ws)
  {
    var t := TrimStartBy(s, ws);
    assert t == s[|s| - |t|..];
    var r := TrimEndBy(t, ws);
    assert r == t[..|r|];
  }

  /** Trimming a string that has nothing to trim leaves it unchanged. */
  lemma TrimByTrimmed(s: string, ws: Blank)
    requires TrimmedBy(s, ws)
    ensures TrimBy(s, ws) == s
  {
  }

  /**
   * Trimming removes exactly the surrounding padding: whatever whitespace
   * is wrapped around a trimmed string, trimming gives that string back.
   */
  lemma {:induction false} TrimByPadded(left: string, s: string, right: string, ws: Blank)
    requires All(left, ws) && All(right, ws)
    requires TrimmedBy(s, ws) && |s| > 0
    ensures TrimBy(left + s + right, ws) == s
  {
    assert left + s + right == left + (s + right);
    TrimStartPadded(left, s + right, ws);
    TrimEndPadded(s, right, ws);
    assert TrimStartBy(left + s + right, ws) == s + right;
  }

  lemma {:induction false} TrimStartPadded(left: string, s: string, ws: Blank)
    requires All(left, ws)
    requires |s| > 0 && !IsBlank(ws, s[0])
    ensures TrimStartBy(left + s, ws) == s
    decreases |left|
  {
    if |left| > 0 {
      assert (left + s)[1..] == left[1..] + s;
      TrimStartPadded(left[1..], s, ws);
    }
  }

  lemma {:induction false} TrimEndPadded(s: string, right: string, ws: Blank)
    requires All(right, ws)
    requires |s| > 0 && !IsBlank(ws, s[|s| - 1])
    ensures TrimEndBy(s + right, ws) == s
    decreases |right|
  {
    if |right| > 0 {
      assert (s + right)[..|s + right| - 1] == s + right[..|right| - 1];
      TrimEndPadded(s, right[..|right| - 1], ws);
    }
  }

  /** `s.Replace(c.ToString(), "")`: every occurrence of `c` is removed, order kept. */
  function RemoveAll(s: string, c: char): (r: string)
    ensures c !in r
    ensures |r| <= |s|
  {
    if |s| == 0 then ""
    else if s[0] == c then RemoveAll(s[1..], c)
    else [s[0]] + RemoveAll(s[1..], c)
  }

  /** Exactly the occurrences of `c` go: every other character keeps its count. */
  lemma {:induction false} RemoveAllCounts(s: string, c: char)
    ensures forall x :: x != c ==> multiset(RemoveAll(s, c))[x] == multiset(s)[x]
    ensures |RemoveAll(s, c)| == |s| - multiset(s)[c]
  {
    if |s| > 0 {
      RemoveAllCounts(s[1..], c);
      assert s == [s[0]] + s[1..];
    }
  }

  /** Removal distributes over concatenation, so it keeps the order of what survives. */
  lemma {:induction false} RemoveAllAppend(a: string, b: string, c: char)
    ensures RemoveAll(a + b, c) == RemoveAll(a, c) + RemoveAll(b, c)
  {
    if |a| > 0 {
      assert (a + b)[1..] == a[1..] + b;
      RemoveAllAppend(a[1..], b, c);
    } else {
      assert a + b == b;
    }
  }

  /** Removing a character that does not occur changes nothing. */
  lemma {:induction false} RemoveAllAbsent(s: string, c: char)
    requires c !in s
    ensures RemoveAll(s, c) == s
  {
    if |s| > 0 {
      RemoveAllAbsent(s[1..], c);
      assert s == [s[0]] + s[1..];
    }
  }

  /** Removal keeps a string within its character class. */
  lemma {:induction false} RemoveAllKeepsAll(s: string, c: char, ws: Blank)
    requires All(s, ws)
    ensures All(RemoveAll(s, c), ws)
  {
    if |s| > 0 {
      RemoveAllKeepsAll(s[1..], c, ws);
    }
  }

  /** `s.Split(sep)`: the pieces between occurrences of `sep`, empty pieces included. */
  function Split(s: string, sep: char): (parts: seq<string>)
    ensures |parts| >= 1
    ensures forall i :: 0 <= i < |parts| ==> sep !in parts[i]
  {
    if |s| == 0 then [""]
    else
      var rest := Split(s[1..], sep);
      if s[0] == sep then [""] + rest
      else [[s[0]] + rest[0]] + rest[1..]
  }

  /** `string.Join(sep, parts)`. */
  function Join(parts: seq<string>, sep: char): string
    requires |parts| >= 1
  {
    if |parts| == 1 then parts[0]
    else parts[0] + [sep] + Join(parts[1..], sep)
  }

  /** Splitting loses nothing: joining the pieces back with the separator restores the input. */
  lemma {:induction false} JoinSplit(s: string, sep: char)
    ensures Join(Split(s, sep), sep) == s
  {
    if |s| > 0 {
      var rest := Split(s[1..], sep);
      JoinSplit(s[1..], sep);
      if s[0] != sep {
        var parts := Split(s, sep);
        if |rest| == 1 {
          assert parts == [[s[0]] + rest[0]];
        } else {
          assert parts[1..] == rest[1..];
        }
      }
    }
  }

  /** Splitting a join of separator-free pieces gives the pieces back. */
  lemma {:induction false} SplitJoin(parts: seq<string>, sep: char)
    requires |parts| >= 1
    requires forall i :: 0 <= i < |parts| ==> sep !in parts[i]
    ensures Split(Join(parts, sep), sep) == parts
    decreases |parts|
  {
    if |parts| == 1 {
      SplitNoSeparator(parts[0], sep);
    } else {
      SplitJoin(parts[1..], sep);
      SplitPrefix(parts[0], Join(parts[1..], sep), sep);
      assert parts == [parts[0]] + parts[1..];
    }
  }

  /** A string without the separator is a single piece. */
  lemma {:induction false} SplitNoSeparator(s: string, sep: char)
    requires sep !in s
    ensures Split(s, sep) == [s]
  {
    if |s| > 0 {
      SplitNoSeparator(s[1..], sep);
      assert s == [s[0]] + s[1..];
    }
  }

  /** A separator-free prefix followed by a separator becomes the first piece. */
  lemma {:induction false} SplitPrefix(p: string, rest: string, sep: char)
    requires sep !in p
    ensures Split(p + [sep] + rest, sep) == [p] + Split(rest, sep)
    decreases |p|
  {
    if |p| > 0 {
      assert (p + [sep] + rest)[1..] == p[1..] + [sep] + rest;
      SplitPrefix(p[1..], rest, sep);
      assert p == [p[0]] + p[1..];
    } else {
      assert p + [sep] + rest == [sep] + rest;
      assert ([sep] + rest)[1..] == rest;
    }
  }

  /** Two separator-free pieces joined by one separator split back into those two pieces. */
  lemma SplitTwo(a: string, b: string, sep: char)
    requires sep !in a && sep !in b
    ensures Split(a + [sep] + b, sep) == [a, b]
  {
    SplitPrefix(a, b, sep);
    SplitNoSeparator(b, sep);
  }

  /** Two separator-free pieces, each followed by a separator, become the first two pieces. */
  lemma SplitThree(a: string, b: string, rest: string, sep: char)
    requires sep !in a && sep !in b
    ensures Split(a + [sep] + b + [sep] + rest, sep) == [a, b] + Split(rest, sep)
  {
    SplitPrefix(b, rest, sep);
    SplitPrefix(a, b + [sep] + rest, sep);
    assert a + [sep] + b + [sep] + rest == a + [sep] + (b + [sep] + rest);
  }

  /** There is one piece more than there are separators. */
  lemma {:induction false} SplitCount(s: string, sep: char)
    ensures |Split(s, sep)| == multiset(s)[sep] + 1
  {
    if |s| > 0 {
      SplitCount(s[1..], sep);
      assert s == [s[0]] + s[1..];
    }
  }
}
