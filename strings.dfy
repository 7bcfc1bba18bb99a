/**
 * String helpers with the semantics of the Rust and JavaScript standard
 * library calls the core uses: `starts_with`, `ends_with`, `replace`,
 * `split`, `join`, `lines`, `trim`, `includes`, `toLowerCase`, decimal
 * formatting of integers and lexicographic `Ord` on strings.
 */
module Strings {
  import opened Wrappers

  predicate StartsWith(s: string, prefix: string) {
    |prefix| <= |s| && s[..|prefix|] == prefix
  }

  predicate EndsWith(s: string, suffix: string) {
    |suffix| <= |s| && s[|s| - |suffix|..] == suffix
  }

  /** JavaScript `includes` / Rust `contains` for a substring. */
  predicate Contains(s: string, sub: string)
    decreases |s|
  {
    StartsWith(s, sub) || (|s| > 0 && Contains(s[1..], sub))
  }

  /** A string without the first character of `sub` does not contain `sub`. */
  lemma {:induction false} NotContainsWithoutFirst(s: string, sub: string)
    requires |sub| > 0 && sub[0] !in s
    ensures !Contains(s, sub)
    decreases |s|
  {
    if |s| > 0 {
      assert s[0] != sub[0];
      NotContainsWithoutFirst(s[1..], sub);
    }
  }

  /** Rust `str::replace`: every non-overlapping occurrence, left to right. */
  function ReplaceAll(s: string, from: string, to: string): (r: string)
    requires |from| > 0
    decreases |s|
  {
    if |s| < |from| then s
    else if s[..|from|] == from then to + ReplaceAll(s[|from|..], from, to)
    else [s[0]] + ReplaceAll(s[1..], from, to)
  }

  lemma {:induction false} ReplaceAllAbsent(s: string, from: string, to: string)
    requires |from| > 0
    requires !Contains(s, from)
    ensures ReplaceAll(s, from, to) == s
    decreases |s|
  {
    if |s| >= |from| {
      assert !StartsWith(s, from);
      ReplaceAllAbsent(s[1..], from, to);
    }
  }

  lemma PrefixAt(s: string, prefix: string, k: nat)
    requires |prefix| <= |s| && s[..|prefix|] == prefix && k < |s|
    ensures k < |prefix| ==> prefix[k] == s[k]
  {
  }

  /** A character that cannot be part of `from` separates the replacement:
      both sides are rewritten independently. */
  lemma {:induction false} ReplaceAllAround(a: string, c: char, b: string, from: string, to: string)
    requires |from| > 0 && c !in from
    ensures ReplaceAll(a + [c] + b, from, to) == ReplaceAll(a, from, to) + [c] + ReplaceAll(b, from, to)
    decreases |a|, 1
  {
    var s := a + [c] + b;
    if |s| < |from| {
      assert ReplaceAll(a, from, to) == a && ReplaceAll(b, from, to) == b;
    } else if s[..|from|] == from {
      ReplaceAllAroundMatch(a, c, b, from, to);
    } else if a == [] {
      assert s[1..] == b;
      assert ReplaceAll(a, from, to) == [];
    } else {
      ReplaceAllAroundSkip(a, c, b, from, to);
    }
  }

  lemma {:induction false} ReplaceAllAroundMatch(a: string, c: char, b: string, from: string, to: string)
    requires |from| > 0 && c !in from
    requires |from| <= |a + [c] + b| && (a + [c] + b)[..|from|] == from
    ensures ReplaceAll(a + [c] + b, from, to) == ReplaceAll(a, from, to) + [c] + ReplaceAll(b, from, to)
    decreases |a|, 0
  {
    var s := a + [c] + b;
    PrefixAt(s, from, |a|);
    assert |from| <= |a|;
    assert a[..|from|] == from;
    assert s[|from|..] == a[|from|..] + [c] + b;
    ReplaceAllAround(a[|from|..], c, b, from, to);
  }

  lemma {:induction false} ReplaceAllAroundSkip(a: string, c: char, b: string, from: string, to: string)
    requires |from| > 0 && c !in from && a != []
    requires |from| <= |a + [c] + b| && (a + [c] + b)[..|from|] != from
    ensures ReplaceAll(a + [c] + b, from, to) == ReplaceAll(a, from, to) + [c] + ReplaceAll(b, from, to)
    decreases |a|, 0
  {
    var s := a + [c] + b;
    assert s[1..] == a[1..] + [c] + b;
    ReplaceAllAround(a[1..], c, b, from, to);
    assert ReplaceAll(s, from, to) == [a[0]] + ReplaceAll(a[1..] + [c] + b, from, to);
    if |from| <= |a| {
      assert a[..|from|] == s[..|from|];
    }
    ReplaceAllNoMatchAtHead(a, from, to);
  }

  /** Without a match at the front, the first character is kept. */
  lemma ReplaceAllNoMatchAtHead(a: string, from: string, to: string)
    requires |from| > 0 && a != []
    requires |from| <= |a| ==> a[..|from|] != from
    ensures ReplaceAll(a, from, to) == [a[0]] + ReplaceAll(a[1..], from, to)
  {
    if |a| < |from| {
      assert ReplaceAll(a[1..], from, to) == a[1..];
      assert a == [a[0]] + a[1..];
    }
  }

  /** Replacing never introduces a character that neither the input nor the replacement has. */
  lemma {:induction false} ReplaceAllKeepsAbsent(s: string, from: string, to: string, c: char)
    requires |from| > 0 && c !in s && c !in to
    ensures c !in ReplaceAll(s, from, to)
    decreases |s|
  {
    if |s| >= |from| {
      if s[..|from|] == from {
        assert forall k :: 0 <= k < |s[|from|..]| ==> s[|from|..][k] == s[|from| + k];
        ReplaceAllKeepsAbsent(s[|from|..], from, to, c);
      } else {
        assert forall k :: 0 <= k < |s[1..]| ==> s[1..][k] == s[1 + k];
        ReplaceAllKeepsAbsent(s[1..], from, to, c);
      }
    }
  }

  /** A non-empty input that does not end in `c`, rewritten with a non-empty replacement
      that does not end in `c`, is non-empty and does not end in `c`. */
  lemma {:induction false} ReplaceAllLastChar(s: string, from: string, to: string, c: char)
    requires |from| > 0 && s != [] && s[|s| - 1] != c && to != [] && to[|to| - 1] != c
    ensures var r := ReplaceAll(s, from, to); r != [] && r[|r| - 1] != c
    decreases |s|
  {
    if |s| >= |from| {
      if s[..|from|] == from {
        var rest := s[|from|..];
        if rest != [] {
          assert rest[|rest| - 1] == s[|s| - 1];
          ReplaceAllLastChar(rest, from, to, c);
        } else {
          assert ReplaceAll(rest, from, to) == [];
        }
      } else {
        var rest := s[1..];
        if rest != [] {
          assert rest[|rest| - 1] == s[|s| - 1];
          ReplaceAllLastChar(rest, from, to, c);
        } else {
          assert ReplaceAll(rest, from, to) == [];
        }
      }
    }
  }

  /** JavaScript `String.prototype.replace` with a string pattern: first occurrence only. */
  function ReplaceFirst(s: string, from: string, to: string): (r: string)
    decreases |s|
  {
    if StartsWith(s, from) then to + s[|from|..]
    else if |s| == 0 then s
    else [s[0]] + ReplaceFirst(s[1..], from, to)
  }

  /** Rust `str::split(c)` and JavaScript `split(c)` for a one-character separator. */
  function Split(s: string, c: char): (r: seq<string>)
    ensures |r| >= 1
    decreases |s|
  {
    if s == [] then [[]]
    else
      var rest := Split(s[1..], c);
      if s[0] == c then [[]] + rest else [[s[0]] + rest[0]] + rest[1..]
  }

  /** `join(sep)` of Rust slices and JavaScript arrays. */
  function Join(parts: seq<string>, sep: string): (r: string)
    decreases |parts|
  {
    if |parts| == 0 then ""
    else if |parts| == 1 then parts[0]
    else parts[0] + sep + Join(parts[1..], sep)
  }

  lemma {:induction false} JoinSnoc(parts: seq<string>, x: string, sep: string)
    requires |parts| >= 1
    ensures Join(parts + [x], sep) == Join(parts, sep) + sep + x
    decreases |parts|
  {
    if |parts| == 1 {
      assert parts + [x] == [parts[0], x];
      assert ([parts[0], x])[1..] == [x];
    } else {
      assert (parts + [x])[1..] == parts[1..] + [x];
      JoinSnoc(parts[1..], x, sep);
    }
  }

  /** Splitting on `c` and joining with `c` gives back the string. */
  lemma {:induction false} JoinSplit(s: string, c: char)
    ensures Join(Split(s, c), [c]) == s
    ensures forall k :: 0 <= k < |Split(s, c)| ==> c !in Split(s, c)[k]
    decreases |s|
  {
    if s != [] {
      JoinSplit(s[1..], c);
      var rest := Split(s[1..], c);
      if s[0] == c {
        assert Split(s, c) == [[]] + rest;
        assert ([[]] + rest)[1..] == rest;
      } else {
        assert Split(s, c) == [[s[0]] + rest[0]] + rest[1..];
        if |rest| == 1 {
          assert rest == [rest[0]];
        } else {
          assert ([[s[0]] + rest[0]] + rest[1..])[1..] == rest[1..];
          assert Join(rest, [c]) == rest[0] + [c] + Join(rest[1..], [c]);
        }
      }
    }
  }

  /** Joining pieces free of `c` with `c` and splitting on `c` gives back the pieces. */
  lemma {:induction false} SplitJoin(parts: seq<string>, c: char)
    requires |parts| >= 1
    requires forall k :: 0 <= k < |parts| ==> c !in parts[k]
    ensures Split(Join(parts, [c]), c) == parts
    decreases |parts|, |parts[0]|
  {
    if |parts[0]| > 0 {
      var p := parts[0];
      var tail := [p[1..]] + parts[1..];
      assert tail[0] == p[1..];
      SplitJoin(tail, c);
      if |parts| == 1 {
        assert Join(parts, [c]) == p;
        assert Join(tail, [c]) == p[1..];
      } else {
        assert tail[1..] == parts[1..];
        assert Join(parts, [c]) == p + [c] + Join(parts[1..], [c]);
        assert Join(tail, [c]) == p[1..] + [c] + Join(parts[1..], [c]);
        assert Join(parts, [c]) == [p[0]] + Join(tail, [c]);
      }
      assert p == [p[0]] + p[1..];
    } else if |parts| > 1 {
      SplitJoin(parts[1..], c);
      var j := Join(parts, [c]);
      assert j == [c] + Join(parts[1..], [c]);
      assert j[1..] == Join(parts[1..], [c]);
      assert parts == [[]] + parts[1..];
    } else {
      assert parts == [[]];
    }
  }

  /** A string without the separator splits into itself alone. */
  lemma SplitWithoutSeparator(s: string, c: char)
    requires c !in s
    ensures Split(s, c) == [s]
  {
    assert Join([s], [c]) == s;
    SplitJoin([s], c);
  }

  function IndexOf(s: string, c: char): (k: nat)
    ensures k <= |s|
    ensures k < |s| ==> s[k] == c
    ensures forall j :: 0 <= j < k ==> s[j] != c
    decreases |s|
  {
    if s == [] then 0
    else if s[0] == c then 0
    else 1 + IndexOf(s[1..], c)
  }

  /** The last position of `c` in `s`, or -1. */
  function LastIndexOf(s: string, c: char): (k: int)
    ensures -1 <= k < |s|
    ensures k >= 0 ==> s[k] == c
    ensures forall j :: k < j < |s| ==> s[j] != c
    decreases |s|
  {
    if s == [] then -1
    else if s[|s| - 1] == c then |s| - 1
    else LastIndexOf(s[..|s| - 1], c)
  }

  function StripCarriageReturn(line: string): string {
    if |line| > 0 && line[|line| - 1] == '\r' then line[..|line| - 1] else line
  }

  /**
   * Rust `str::lines`: split at "\n" (dropping one "\r" before it); a final
   * line terminator does not start another line; "" has no lines.
   */
  function Lines(s: string): (r: seq<string>)
    ensures forall k :: 0 <= k < |r| ==> '\n' !in r[k]
    decreases |s|
  {
    if s == [] then []
    else
      var k := IndexOf(s, '\n');
      if k == |s| then [s]
      else [StripCarriageReturn(s[..k])] + Lines(s[k + 1..])
  }

  /** Unicode White_Space, the set Rust's `char::is_whitespace` tests. */
  predicate IsWhitespace(c: char) {
    ('\t' <= c <= '\r') || c == ' ' || c == '\U{85}' || c == '\U{A0}'
    || c == '\U{1680}' || ('\U{2000}' <= c <= '\U{200A}') || c == '\U{2028}' || c == '\U{2029}'
    || c == '\U{202F}' || c == '\U{205F}' || c == '\U{3000}'
  }

  function TrimStart(s: string): (r: string)
    ensures |r| <= |s| && s[|s| - |r|..] == r
    ensures r == [] || !IsWhitespace(r[0])
    decreases |s|
  {
    if |s| > 0 && IsWhitespace(s[0]) then TrimStart(s[1..]) else s
  }

  function TrimEnd(s: string): (r: string)
    ensures |r| <= |s| && s[..|r|] == r
    ensures r == [] || !IsWhitespace(r[|r| - 1])
    decreases |s|
  {
    if |s| > 0 && IsWhitespace(s[|s| - 1]) then TrimEnd(s[..|s| - 1]) else s
  }

  /** Neither end of `s` is whitespace. */
  predicate Trimmed(s: string) {
    s == [] || (!IsWhitespace(s[0]) && !IsWhitespace(s[|s| - 1]))
  }

  /** Rust `str::trim`. */
  function Trim(s: string): (r: string)
    ensures Trimmed(r)
  {
    TrimEnd(TrimStart(s))
  }

  /** Rust `trim_start_matches(c)` for one character. */
  function TrimStartChar(s: string, c: char): (r: string)
    ensures |r| <= |s| && s[|s| - |r|..] == r
    ensures r == [] || r[0] != c
    decreases |s|
  {
    if |s| > 0 && s[0] == c then TrimStartChar(s[1..], c) else s
  }

  /** JavaScript `toLowerCase`, for the ASCII letters. */
  function ToLower(s: string): (r: string)
    ensures |r| == |s|
  {
    seq(|s|, i requires 0 <= i < |s| => if 'A' <= s[i] <= 'Z' then (s[i] as int + 32) as char else s[i])
  }

  predicate IsDigit(c: char) {
    '0' <= c <= '9'
  }

  function DigitChar(d: nat): (c: char)
    requires d < 10
    ensures IsDigit(c)
  {
    ('0' as int + d) as char
  }

  /** Decimal rendering of a natural number (`format!("{}", n)`). */
  function NatToString(n: nat): (r: string)
    ensures |r| > 0
    ensures forall k :: 0 <= k < |r| ==> IsDigit(r[k])
    decreases n
  {
    if n < 10 then [DigitChar(n)] else NatToString(n / 10) + [DigitChar(n % 10)]
  }

  /** Decimal rendering of an integer, with a leading '-' when negative. */
  function IntToString(i: int): (r: string)
    ensures |r| > 0
  {
    if i < 0 then "-" + NatToString(-i) else NatToString(i)
  }

  /** Reading a non-empty run of decimal digits back as a number. */
  function ParseNat(s: string): (r: Option<nat>)
    decreases |s|
  {
    if |s| == 0 || !IsDigit(s[|s| - 1]) then None
    else
      var d := (s[|s| - 1] as int - '0' as int) as nat;
      if |s| == 1 then Some(d)
      else match ParseNat(s[..|s| - 1])
        case None => None
        case Some(h) => Some(h * 10 + d)
  }

  lemma {:induction false} ParseNatToString(n: nat)
    ensures ParseNat(NatToString(n)) == Some(n)
    decreases n
  {
    if n >= 10 {
      ParseNatToString(n / 10);
      var s := NatToString(n);
      assert s[..|s| - 1] == NatToString(n / 10);
    }
  }

  /** Rust's `Ord` on `String`: lexicographic by character. */
  predicate LexLess(a: string, b: string)
    decreases |a|
  {
    |b| > 0 && (|a| == 0 || a[0] < b[0] || (a[0] == b[0] && LexLess(a[1..], b[1..])))
  }

  lemma {:induction false} LexLessIrreflexive(a: string)
    ensures !LexLess(a, a)
    decreases |a|
  {
    if |a| > 0 { LexLessIrreflexive(a[1..]); }
  }

  lemma {:induction false} LexLessTransitive(a: string, b: string, c: string)
    requires LexLess(a, b) && LexLess(b, c)
    ensures LexLess(a, c)
    decreases |a|
  {
    if |a| > 0 && a[0] == b[0] && b[0] == c[0] {
      LexLessTransitive(a[1..], b[1..], c[1..]);
    }
  }

  lemma {:induction false} LexLessTotal(a: string, b: string)
    requires a != b
    ensures LexLess(a, b) || LexLess(b, a)
    decreases |a|
  {
    if |a| > 0 && |b| > 0 && a[0] == b[0] {
      assert a == [a[0]] + a[1..] && b == [b[0]] + b[1..];
      LexLessTotal(a[1..], b[1..]);
    }
  }

  lemma {:induction false} LexLessAsymmetric(a: string, b: string)
    requires LexLess(a, b)
    ensures !LexLess(b, a)
  {
    if LexLess(b, a) {
      LexLessTransitive(a, b, a);
      LexLessIrreflexive(a);
    }
  }
}
