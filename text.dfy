/** The string operations of Rust's `str` that the package list front-end relies on:
    `trim`, `split` on a `char`, `contains` on a `&str`, and (as the inverse of `split`)
    `join`. Strings are sequences of Unicode scalar values. */
module Text {

  /** Rust's `char::is_whitespace`: the characters with the Unicode White_Space property,
      tested by code point range. */
  predicate IsWhitespace(c: char) {
    var n := c as int;
    (0x09 <= n <= 0x0D) || n == 0x20 || n == 0x85 || n == 0xA0 || n == 0x1680
    || (0x2000 <= n <= 0x200A) || n == 0x2028 || n == 0x2029 || n == 0x202F
    || n == 0x205F || n == 0x3000
  }

  /** The code points with the Unicode White_Space property, listed one by one. */
  const WhiteSpaceCodePoints: set<int> :=
    {0x09, 0x0A, 0x0B, 0x0C, 0x0D, 0x20, 0x85, 0xA0, 0x1680,
     0x2000, 0x2001, 0x2002, 0x2003, 0x2004, 0x2005, 0x2006, 0x2007, 0x2008, 0x2009, 0x200A,
     0x2028, 0x2029, 0x202F, 0x205F, 0x3000}

  /** The range test picks out exactly the listed White_Space code points. */
  lemma WhitespaceCodePoints(c: char)
    ensures IsWhitespace(c) <==> c as int in WhiteSpaceCodePoints
  {
  }

  /** Length of the longest whitespace prefix of `s`. */
  function LeadingWhitespace(s: string): (n: nat)
    ensures n <= |s|
    ensures forall i :: 0 <= i < n ==> IsWhitespace(s[i])
    ensures n == |s| || !IsWhitespace(s[n])
  {
    if s != [] && IsWhitespace(s[0]) then 1 + LeadingWhitespace(s[1..]) else 0
  }

  /** Length of the longest whitespace suffix of `s`. */
  function TrailingWhitespace(s: string): (n: nat)
    ensures n <= |s|
    ensures forall i :: |s| - n <= i < |s| ==> IsWhitespace(s[i])
    ensures n == |s| || !IsWhitespace(s[|s| - n - 1])
  {
    if s != [] && IsWhitespace(s[|s| - 1]) then 1 + TrailingWhitespace(s[..|s| - 1]) else 0
  }

  /** `str::trim_start`: the rest of `s` from its first non-whitespace character on. */
  function TrimStart(s: string): (r: string)
    ensures |r| <= |s| && r == s[|s| - |r|..]
    ensures forall i :: 0 <= i < |s| - |r| ==> IsWhitespace(s[i])
    ensures r == [] || !IsWhitespace(r[0])
  {
    s[LeadingWhitespace(s)..]
  }

  /** `str::trim_end`: `s` up to and including its last non-whitespace character. */
  function TrimEnd(s: string): (r: string)
    ensures |r| <= |s| && r == s[..|r|]
    ensures forall i :: |r| <= i < |s| ==> IsWhitespace(s[i])
    ensures r == [] || !IsWhitespace(r[|r| - 1])
  {
    s[..|s| - TrailingWhitespace(s)]
  }

  /** `r` is what remains of `s` once its first `k` characters and everything after
      position `k + |r|` are removed, and every removed character is whitespace. */
  predicate WhitespaceAround(s: string, r: string, k: int) {
    0 <= k <= |s| - |r| && r == s[k..k + |r|]
    && (forall i :: 0 <= i < k ==> IsWhitespace(s[i]))
    && (forall i :: k + |r| <= i < |s| ==> IsWhitespace(s[i]))
  }

  /** `trim_start` empties exactly the all-whitespace strings. */
  lemma TrimStartEmptyIff(s: string)
    ensures TrimStart(s) == [] <==> forall i :: 0 <= i < |s| ==> IsWhitespace(s[i])
  {
    var t := TrimStart(s);
    if t != [] {
      assert t[0] == s[|s| - |t|];
    }
  }

  /** `trim_end` leaves something of a string that starts with non-whitespace. */
  lemma TrimEndNonEmpty(t: string)
    requires t != [] && !IsWhitespace(t[0])
    ensures TrimEnd(t) != []
  {
  }

  /** A prefix of a suffix of `s` is a slice of `s`. */
  lemma SliceOfSuffix(s: string, t: string, r: string, k: nat)
    requires k <= |s| && t == s[k..]
    requires |r| <= |t| && r == t[..|r|]
    ensures k + |r| <= |s| && r == s[k..k + |r|]
  {
  }

  /** Trimming the front and then the end keeps a slice of the input. */
  lemma {:induction false} TrimStartEndSlice(s: string)
    ensures LeadingWhitespace(s) + |TrimEnd(TrimStart(s))| <= |s|
    ensures TrimEnd(TrimStart(s)) == s[LeadingWhitespace(s)..LeadingWhitespace(s) + |TrimEnd(TrimStart(s))|]
  {
    SliceOfSuffix(s, TrimStart(s), TrimEnd(TrimStart(s)), LeadingWhitespace(s));
  }

  /** What trimming the end removes from the front-trimmed string is whitespace of the input. */
  lemma {:induction false} TrimStartEndTail(s: string)
    ensures forall i :: LeadingWhitespace(s) + |TrimEnd(TrimStart(s))| <= i < |s| ==> IsWhitespace(s[i])
  {
    var k := LeadingWhitespace(s);
    var t := TrimStart(s);
    var m := |TrimEnd(t)|;
    forall i | k + m <= i < |s|
      ensures IsWhitespace(s[i])
    {
      assert s[i] == t[i - k];
    }
  }

  /** Trimming the front and then the end empties exactly the all-whitespace strings, and
      otherwise leaves a string that starts with non-whitespace. */
  lemma {:induction false} TrimStartEndBorders(s: string)
    ensures TrimEnd(TrimStart(s)) == [] <==> forall i :: 0 <= i < |s| ==> IsWhitespace(s[i])
    ensures TrimEnd(TrimStart(s)) == [] || !IsWhitespace(TrimEnd(TrimStart(s))[0])
  {
    var t := TrimStart(s);
    TrimStartEmptyIff(s);
    if t != [] {
      TrimEndNonEmpty(t);
      assert TrimEnd(t)[0] == t[0];
    }
  }

  /** `str::trim`: the input minus exactly its leading and its trailing whitespace; only an
      all-whitespace string trims to "". */
  function Trim(s: string): (r: string)
    ensures exists k :: WhitespaceAround(s, r, k)
    ensures r == [] || (!IsWhitespace(r[0]) && !IsWhitespace(r[|r| - 1]))
    ensures r == [] <==> forall i :: 0 <= i < |s| ==> IsWhitespace(s[i])
  {
    TrimStartEndSlice(s);
    TrimStartEndTail(s);
    assert WhitespaceAround(s, TrimEnd(TrimStart(s)), LeadingWhitespace(s));
    TrimStartEndBorders(s);
    TrimEnd(TrimStart(s))
  }

  /** The whitespace prefix of `s + t` is that of `s` when `t` starts with non-whitespace. */
  lemma {:induction false} LeadingWhitespaceAppend(s: string, t: string)
    requires t != [] && !IsWhitespace(t[0])
    ensures LeadingWhitespace(s + t) == LeadingWhitespace(s)
  {
    if s == [] {
      assert s + t == t;
    } else if IsWhitespace(s[0]) {
      assert (s + t)[1..] == s[1..] + t;
      LeadingWhitespaceAppend(s[1..], t);
    }
  }

  /** Trimming the front of `s + t` stops inside `t` at the latest when `t` starts with
      a non-whitespace character, so `t` survives whole. */
  lemma TrimStartAppend(s: string, t: string)
    requires t != [] && !IsWhitespace(t[0])
    ensures TrimStart(s + t) == TrimStart(s) + t
  {
    var n := LeadingWhitespace(s);
    LeadingWhitespaceAppend(s, t);
    assert (s + t)[n..] == s[n..] + t;
  }

  /** A string whose last character is not whitespace is left alone by `trim_end`. */
  lemma TrimEndKeepsNonWhitespaceEnd(s: string)
    requires s != [] && !IsWhitespace(s[|s| - 1])
    ensures TrimEnd(s) == s
  {
  }

  /** `trim_start` never removes the last character of a string it does not empty. */
  lemma TrimStartKeepsLast(s: string)
    requires TrimStart(s) != []
    ensures TrimStart(s)[|TrimStart(s)| - 1] == s[|s| - 1]
  {
    var t := TrimStart(s);
    var k := |s| - |t|;
    assert t == s[k..];
  }

  /** Trimming both ends removes more than trimming the front exactly when the string,
      once its leading whitespace is gone, still ends in whitespace. */
  lemma TrimIsTrimStartIff(s: string)
    ensures Trim(s) == TrimStart(s) <==> TrimStart(s) == [] || !IsWhitespace(s[|s| - 1])
  {
    var t := TrimStart(s);
    if t != [] {
      TrimStartKeepsLast(s);
      var last := t[|t| - 1];
      if IsWhitespace(last) {
        assert |TrimEnd(t)| < |t|;
      } else {
        TrimEndKeepsNonWhitespaceEnd(t);
      }
    }
  }

  /** Appending to the front-trimmed string gives the same as appending to the fully
      trimmed one exactly when nothing is left or the string ends in non-whitespace. */
  lemma TrimStartThenAppendIff(s: string, suffix: string)
    ensures TrimStart(s) + suffix == Trim(s) + suffix
            <==> TrimStart(s) == [] || !IsWhitespace(s[|s| - 1])
  {
    var t, r := TrimStart(s), Trim(s);
    TrimIsTrimStartIff(s);
    if t + suffix == r + suffix {
      assert t == (t + suffix)[..|t|];
      assert r == (r + suffix)[..|r|];
    }
  }

  /** Number of occurrences of `c` in `s`. */
  function Count(s: string, c: char): nat {
    if s == [] then 0 else (if s[0] == c then 1 else 0) + Count(s[1..], c)
  }

  /** `s.split(sep).collect()`: the pieces between separators, in order, with every empty
      piece kept (a leading, trailing or doubled separator yields an empty piece, and the
      empty string yields one empty piece). */
  function Split(s: string, sep: char): (parts: seq<string>)
    ensures |parts| == Count(s, sep) + 1
    ensures forall k :: 0 <= k < |parts| ==> sep !in parts[k]
  {
    if s == [] then [[]]
    else
      var rest := Split(s[1..], sep);
      if s[0] == sep then [[]] + rest
      else [[s[0]] + rest[0]] + rest[1..]
  }

  /** `parts.join(sep)`: the pieces with one separator between neighbours. */
  function Join(parts: seq<string>, sep: char): string {
    if parts == [] then []
    else if |parts| == 1 then parts[0]
    else parts[0] + [sep] + Join(parts[1..], sep)
  }

  /** Joining the pieces of a split gives back the text, so splitting loses nothing. */
  lemma {:induction false} SplitJoin(s: string, sep: char)
    ensures Join(Split(s, sep), sep) == s
  {
    if s != [] {
      var rest := Split(s[1..], sep);
      SplitJoin(s[1..], sep);
      if s[0] == sep {
        assert Split(s, sep) == [[]] + rest;
        assert ([[]] + rest)[1..] == rest;
      } else {
        var parts := Split(s, sep);
        assert parts == [[s[0]] + rest[0]] + rest[1..];
        if |rest| > 1 {
          assert parts[1..] == rest[1..];
          assert Join(rest, sep) == rest[0] + [sep] + Join(rest[1..], sep);
        }
      }
    }
  }

  /** A string without the separator splits into itself alone. */
  lemma {:induction false} SplitWithoutSeparator(p: string, sep: char)
    requires sep !in p
    ensures Split(p, sep) == [p]
  {
    if p != [] {
      SplitWithoutSeparator(p[1..], sep);
      assert [p[0]] + p[1..] == p;
    }
  }

  /** Splitting `p + sep + t`, where `p` holds no separator, yields `p` and then the pieces of `t`. */
  lemma {:induction false} SplitAfterPiece(p: string, t: string, sep: char)
    requires sep !in p
    ensures Split(p + [sep] + t, sep) == [p] + Split(t, sep)
  {
    var s := p + [sep] + t;
    if p == [] {
      assert s == [sep] + t;
      assert s[1..] == t;
    } else {
      assert s[1..] == p[1..] + [sep] + t;
      SplitAfterPiece(p[1..], t, sep);
      assert [p[0]] + p[1..] == p;
    }
  }

  /** The other direction of the round trip: separator-free pieces (at least one) survive
      a join followed by a split. */
  lemma {:induction false} JoinSplit(parts: seq<string>, sep: char)
    requires |parts| >= 1
    requires forall k :: 0 <= k < |parts| ==> sep !in parts[k]
    ensures Split(Join(parts, sep), sep) == parts
  {
    if |parts| == 1 {
      SplitWithoutSeparator(parts[0], sep);
    } else {
      JoinSplit(parts[1..], sep);
      SplitAfterPiece(parts[0], Join(parts[1..], sep), sep);
      assert [parts[0]] + parts[1..] == parts;
    }
  }

  /** `s` begins with `prefix`. */
  predicate StartsWith(s: string, prefix: string) {
    |prefix| <= |s| && s[..|prefix|] == prefix
  }

  /** `pattern` occurs in `s` starting at position `i`. */
  predicate OccursAt(s: string, pattern: string, i: int) {
    0 <= i <= |s| - |pattern| && s[i..i + |pattern|] == pattern
  }

  /** An occurrence at the first position is a prefix. */
  lemma OccursAtStart(s: string, pattern: string)
    ensures OccursAt(s, pattern, 0) <==> StartsWith(s, pattern)
  {
    assert |pattern| <= |s| ==> s[..|pattern|] == s[0..|pattern|];
  }

  /** The occurrences in `s[1..]` are those in `s` after its first position, shifted by one. */
  lemma OccursShift(s: string, pattern: string)
    requires s != []
    ensures (exists i :: OccursAt(s[1..], pattern, i))
            <==> (exists i :: 1 <= i && OccursAt(s, pattern, i))
  {
    forall i | OccursAt(s[1..], pattern, i)
      ensures OccursAt(s, pattern, i + 1)
    {
      assert s[i + 1..i + 1 + |pattern|] == s[1..][i..i + |pattern|];
    }
    forall i | 1 <= i && OccursAt(s, pattern, i)
      ensures OccursAt(s[1..], pattern, i - 1)
    {
      assert s[1..][i - 1..i - 1 + |pattern|] == s[i..i + |pattern|];
    }
  }

  /** `s.contains(pattern)`, tried at each start position of `s` in turn and compared
      character by character (no case folding): it holds exactly when `pattern` occurs in
      `s` at some position. */
  function Contains(s: string, pattern: string): (found: bool)
    ensures found <==> exists i :: OccursAt(s, pattern, i)
  {
    OccursAtStart(s, pattern);
    if s == [] then StartsWith(s, pattern)
    else
      OccursShift(s, pattern);
      StartsWith(s, pattern) || Contains(s[1..], pattern)
  }

  /** Every string contains the empty pattern. */
  lemma ContainsEmpty(s: string)
    ensures Contains(s, [])
  {
  }
}
