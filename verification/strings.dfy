/**
  The pieces of Rust's `str` API that the code-block renderer relies on:
  `split` on a single character, `replace` of a character by a string, and
  `trim`. Each is given a definition that follows the standard library's
  algorithm, together with the property a caller relies on.
 */
module Strings {

  /** True iff every character of `s` satisfies `IsWhitespace`. */
  predicate AllWhitespace(s: string) {
    forall i :: 0 <= i < |s| ==> IsWhitespace(s[i])
  }

  /** Rust's `char::is_whitespace`: the Unicode `White_Space` property. */
  predicate IsWhitespace(c: char) {
    var n := c as int;
    || (0x09 <= n <= 0x0D)
    || n == 0x20
    || n == 0x85
    || n == 0xA0
    || n == 0x1680
    || (0x2000 <= n <= 0x200A)
    || n == 0x2028
    || n == 0x2029
    || n == 0x202F
    || n == 0x205F
    || n == 0x3000
  }

  /** A string with no whitespace at either end (what `trim` returns). */
  predicate IsTrimmed(s: string) {
    s == [] || (!IsWhitespace(s[0]) && !IsWhitespace(s[|s| - 1]))
  }

  /** `parts[0] + sep + parts[1] + sep + ... + parts[n-1]`. */
  function Join(parts: seq<string>, sep: string): string
    requires |parts| >= 1
    decreases |parts|
  {
    if |parts| == 1 then parts[0] else parts[0] + sep + Join(parts[1..], sep)
  }

  /** Prepending a character to the first part prepends it to the joined string. */
  lemma JoinConsHead(c: char, parts: seq<string>, sep: string)
    requires |parts| >= 1
    ensures Join([[c] + parts[0]] + parts[1..], sep) == [c] + Join(parts, sep)
  {
    var q := [[c] + parts[0]] + parts[1..];
    if |parts| > 1 {
      assert q[1..] == parts[1..];
    }
  }

  /**
    `s.split(sep)` collected into a vector: the maximal separator-free pieces
    of `s`, in order. There is always at least one piece (the empty string
    splits into one empty piece), and joining the pieces with the separator
    gives back `s`.
   */
  function Split(s: string, sep: char): (parts: seq<string>)
    ensures |parts| >= 1
    ensures forall k :: 0 <= k < |parts| ==> sep !in parts[k]
    ensures Join(parts, [sep]) == s
    decreases |s|
  {
    if s == [] then [[]]
    else
      var rest := Split(s[1..], sep);
      if s[0] == sep then
        assert ([[]] + rest)[1..] == rest;
        [[]] + rest
      else
        JoinConsHead(s[0], rest, [sep]);
        assert s == [s[0]] + s[1..];
        [[s[0]] + rest[0]] + rest[1..]
  }

  /**
    The first piece of a split is the prefix of `s` that ends at the first
    occurrence of `sep`, or the whole of `s` when `sep` does not occur.
   */
  lemma {:induction false} SplitHead(s: string, sep: char, i: nat)
    requires i <= |s|
    requires sep !in s[..i]
    requires i == |s| || s[i] == sep
    ensures Split(s, sep)[0] == s[..i]
    decreases i
  {
    if i > 0 {
      assert s[0] in s[..i];
      assert sep !in s[1..][..i - 1] by {
        assert s[1..][..i - 1] == s[1..i];
        assert s[..i] == [s[0]] + s[1..i];
      }
      SplitHead(s[1..], sep, i - 1);
      assert s[..i] == [s[0]] + s[1..][..i - 1];
    }
  }

  /** A string without the separator splits into itself alone. */
  lemma {:induction false} SplitWithoutSeparator(s: string, sep: char)
    requires sep !in s
    ensures Split(s, sep) == [s]
    decreases |s|
  {
    if s != [] {
      assert s[0] in s;
      assert sep !in s[1..] by {
        assert s == [s[0]] + s[1..];
      }
      SplitWithoutSeparator(s[1..], sep);
      assert s == [s[0]] + s[1..];
    }
  }

  /**
    `s.replace(c, rep)`: Rust's implementation walks the matches of `c`,
    copying the text between them and writing `rep` in place of each match,
    which is joining the split pieces with `rep`.
   */
  function Replace(s: string, c: char, rep: string): string {
    Join(Split(s, c), rep)
  }

  /** Reference definition of a character replacement, one character at a time. */
  function ReplaceEach(s: string, c: char, rep: string): string
    decreases |s|
  {
    if s == [] then [] else (if s[0] == c then rep else [s[0]]) + ReplaceEach(s[1..], c, rep)
  }

  /** Replacing by split-and-join is the per-character substitution. */
  lemma {:induction false} ReplaceIsPerCharacter(s: string, c: char, rep: string)
    ensures Replace(s, c, rep) == ReplaceEach(s, c, rep)
    decreases |s|
  {
    if s != [] {
      var rest := Split(s[1..], c);
      ReplaceIsPerCharacter(s[1..], c, rep);
      if s[0] == c {
        assert Split(s, c) == [[]] + rest;
        assert ([[]] + rest)[1..] == rest;
      } else {
        assert Split(s, c) == [[s[0]] + rest[0]] + rest[1..];
        JoinConsHead(s[0], rest, rep);
      }
    }
  }

  /** The per-character substitution distributes over concatenation. */
  lemma {:induction false} ReplaceEachAppend(a: string, b: string, c: char, rep: string)
    ensures ReplaceEach(a + b, c, rep) == ReplaceEach(a, c, rep) + ReplaceEach(b, c, rep)
    decreases |a|
  {
    if a != [] {
      assert (a + b)[1..] == a[1..] + b;
      ReplaceEachAppend(a[1..], b, c, rep);
    } else {
      assert a + b == b;
    }
  }

  /** Replacing a character that does not occur changes nothing. */
  lemma {:induction false} ReplaceEachAbsent(s: string, c: char, rep: string)
    requires c !in s
    ensures ReplaceEach(s, c, rep) == s
    decreases |s|
  {
    if s != [] {
      assert c !in s[1..] by {
        forall k | 0 <= k < |s[1..]| ensures s[1..][k] != c {
          assert s[1..][k] == s[k + 1];
        }
      }
      ReplaceEachAbsent(s[1..], c, rep);
      assert s == [s[0]] + s[1..];
    }
  }

  /**
    `s.trim_start()`: the longest suffix of `s` that does not start with
    whitespace; everything removed is whitespace.
   */
  function TrimStart(s: string): (r: string)
    ensures |r| <= |s| && r == s[|s| - |r|..]
    ensures AllWhitespace(s[..|s| - |r|])
    ensures r == [] || !IsWhitespace(r[0])
    decreases |s|
  {
    if s != [] && IsWhitespace(s[0]) then
      var r := TrimStart(s[1..]);
      assert s[..|s| - |r|] == [s[0]] + s[1..][..|s| - 1 - |r|];
      r
    else s
  }

  /**
    `s.trim_end()`: the longest prefix of `s` that does not end with
    whitespace; everything removed is whitespace.
   */
  function TrimEnd(s: string): (r: string)
    ensures |r| <= |s| && r == s[..|r|]
    ensures AllWhitespace(s[|r|..])
    ensures r == [] || !IsWhitespace(r[|r| - 1])
    decreases |s|
  {
    if s != [] && IsWhitespace(s[|s| - 1]) then
      var r := TrimEnd(s[..|s| - 1]);
      assert s[|r|..] == s[..|s| - 1][|r|..] + [s[|s| - 1]];
      r
    else s
  }

  /** `s.trim()`: `s` with its leading and trailing whitespace removed. */
  function Trim(s: string): (r: string)
    ensures IsTrimmed(r)
  {
    TrimEndKeepsStart(TrimStart(s));
    TrimEnd(TrimStart(s))
  }

  /** Trimming the end of a string that does not start with whitespace leaves a trimmed string. */
  lemma TrimEndKeepsStart(t: string)
    requires t == [] || !IsWhitespace(t[0])
    ensures IsTrimmed(TrimEnd(t))
  {
    var r := TrimEnd(t);
    if r != [] {
      assert r[0] == t[0];
    }
  }

  /** What `trim` removes: `s` is whitespace, then its trim, then whitespace. */
  lemma TrimMargins(s: string) returns (lead: string, trail: string)
    ensures s == lead + Trim(s) + trail
    ensures AllWhitespace(lead) && AllWhitespace(trail)
  {
    var t := TrimStart(s);
    lead := TrimStartMargin(s);
    trail := TrimEndMargin(t);
    Regroup(s, lead, t, Trim(s), trail);
  }

  /** Substituting `t == m + b` into `s == a + t`: concatenation regroups. */
  lemma Regroup<X>(s: seq<X>, a: seq<X>, t: seq<X>, m: seq<X>, b: seq<X>)
    requires s == a + t && t == m + b
    ensures s == a + m + b
  {
  }

  /** `trim_start` removes a whitespace prefix. */
  lemma TrimStartMargin(s: string) returns (lead: string)
    ensures s == lead + TrimStart(s) && AllWhitespace(lead)
  {
    var t := TrimStart(s);
    lead := s[..|s| - |t|];
  }

  /** `trim_end` removes a whitespace suffix. */
  lemma TrimEndMargin(t: string) returns (trail: string)
    ensures t == TrimEnd(t) + trail && AllWhitespace(trail)
  {
    var r := TrimEnd(t);
    trail := t[|r|..];
  }

  /** Trimming never introduces a character. */
  lemma TrimKeepsAbsent(s: string, c: char)
    requires c !in s
    ensures c !in Trim(s)
  {
    var lead, trail := TrimMargins(s);
    assert forall i :: 0 <= i < |Trim(s)| ==> Trim(s)[i] == s[|lead| + i];
  }

  /** Leading whitespace in front of a string not starting with whitespace is what `trim_start` removes. */
  lemma {:induction false} TrimStartOf(lead: string, rest: string)
    requires AllWhitespace(lead)
    requires rest == [] || !IsWhitespace(rest[0])
    ensures TrimStart(lead + rest) == rest
    decreases |lead|
  {
    if lead == [] {
      assert lead + rest == rest;
    } else {
      assert (lead + rest)[0] == lead[0];
      assert (lead + rest)[1..] == lead[1..] + rest;
      TrimStartOf(lead[1..], rest);
    }
  }

  /** Trailing whitespace after a string not ending with whitespace is what `trim_end` removes. */
  lemma {:induction false} TrimEndOf(rest: string, trail: string)
    requires AllWhitespace(trail)
    requires rest == [] || !IsWhitespace(rest[|rest| - 1])
    ensures TrimEnd(rest + trail) == rest
    decreases |trail|
  {
    if trail == [] {
      assert rest + trail == rest;
    } else {
      var s := rest + trail;
      assert s[|s| - 1] == trail[|trail| - 1];
      assert s[..|s| - 1] == rest + trail[..|trail| - 1];
      TrimEndOf(rest, trail[..|trail| - 1]);
    }
  }

  /** Trimming removes exactly the leading and trailing whitespace, nothing more. */
  lemma TrimUnique(lead: string, mid: string, trail: string)
    requires AllWhitespace(lead) && AllWhitespace(trail)
    requires IsTrimmed(mid)
    ensures Trim(lead + mid + trail) == mid
  {
    if mid == [] {
      assert lead + mid + trail == (lead + trail) + [];
      TrimStartOf(lead + trail, []);
    } else {
      assert lead + mid + trail == lead + (mid + trail);
      TrimStartOf(lead, mid + trail);
      TrimEndOf(mid, trail);
    }
  }

  /** A trimmed string is its own trim; in particular trimming is idempotent. */
  lemma TrimTrimmed(s: string)
    requires IsTrimmed(s)
    ensures Trim(s) == s
  {
    TrimUnique([], s, []);
    assert [] + s + [] == s;
  }
}
