/**
  String helpers shared by the form validator and the active-link marker:
  the JavaScript whitespace class, `String.prototype.trim`,
  `String.prototype.split` on a single character, and character counting.
  Strings are sequences of Unicode scalar values.
 */
module Text {

  /** JavaScript's `\s`, the WhiteSpace and LineTerminator code points of
      ECMAScript. `String.prototype.trim` strips exactly the same set. */
  predicate IsSpace(c: char) {
    || c == '\t' || c == '\n' || c == '\U{000B}' || c == '\U{000C}' || c == '\r'
    || c == ' ' || c == '\U{00A0}' || c == '\U{1680}'
    || ('\U{2000}' <= c <= '\U{200A}')
    || c == '\U{2028}' || c == '\U{2029}' || c == '\U{202F}' || c == '\U{205F}'
    || c == '\U{3000}' || c == '\U{FEFF}'
  }

  /** The regular-expression class `[0-9]` (ASCII digits only). */
  predicate IsDigit(c: char) {
    '0' <= c <= '9'
  }

  predicate AllSpace(s: string) {
    forall i | 0 <= i < |s| :: IsSpace(s[i])
  }

  predicate NoSpace(s: string) {
    forall i | 0 <= i < |s| :: !IsSpace(s[i])
  }

  /** `r` is `s` with its leading and trailing whitespace removed, and
      nothing else. */
  ghost predicate IsTrimOf(s: string, r: string) {
    exists i, j | 0 <= i <= j <= |s| ::
      && r == s[i..j]
      && AllSpace(s[..i])
      && AllSpace(s[j..])
      && (r == [] || (!IsSpace(r[0]) && !IsSpace(r[|r| - 1])))
  }

  /** Index of the first non-whitespace character of `s` at or after `i`. */
  function SkipSpace(s: string, i: nat): (k: nat)
    requires i <= |s|
    ensures i <= k <= |s|
    ensures AllSpace(s[i..k])
    ensures k < |s| ==> !IsSpace(s[k])
    decreases |s| - i
  {
    if i < |s| && IsSpace(s[i]) then SkipSpace(s, i + 1) else i
  }

  /** Index just past the last non-whitespace character of `s[lo..j]`. */
  function SkipSpaceBack(s: string, lo: nat, j: nat): (k: nat)
    requires lo <= j <= |s|
    ensures lo <= k <= j
    ensures AllSpace(s[k..j])
    ensures k > lo ==> !IsSpace(s[k - 1])
    decreases j
  {
    if j > lo && IsSpace(s[j - 1]) then
      var k := SkipSpaceBack(s, lo, j - 1);
      assert s[k..j] == s[k..j - 1] + [s[j - 1]];
      k
    else j
  }

  /** `String.prototype.trim`. */
  function Trim(s: string): (r: string)
    ensures IsTrimOf(s, r)
    ensures r == [] <==> AllSpace(s)
  {
    var i := SkipSpace(s, 0);
    var j := SkipSpaceBack(s, i, |s|);
    if i == |s| then
      assert s[..i] == s[0..i];
      s[i..j]
    else
      assert s[..i] == s[0..i];
      assert s[j..] == s[j..|s|];
      assert !IsSpace(s[i]);
      assert j > i by {
        assert j < |s| ==> s[j..|s|][0] == s[j];
      }
      s[i..j]
  }

  /** Number of characters of `s` that satisfy `p`. */
  function CountWhere(s: string, p: char -> bool): (n: nat)
    ensures n <= |s|
  {
    if s == [] then 0 else (if p(s[0]) then 1 else 0) + CountWhere(s[1..], p)
  }

  lemma {:induction false} CountWhereConcat(a: string, b: string, p: char -> bool)
    ensures CountWhere(a + b, p) == CountWhere(a, p) + CountWhere(b, p)
    decreases |a|
  {
    if a != [] {
      assert (a + b)[1..] == a[1..] + b;
      CountWhereConcat(a[1..], b, p);
    } else {
      assert a + b == b;
    }
  }

  /** A character satisfying `p` adds to the count. */
  lemma {:induction false} CountWhereHit(s: string, p: char -> bool, i: nat)
    requires i < |s| && p(s[i])
    ensures CountWhere(s, p) >= 1
    decreases i
  {
    if i > 0 {
      CountWhereHit(s[1..], p, i - 1);
    }
  }

  /** `s.split(sep)` for a one-character separator: the maximal runs of
      non-separator characters, including the empty ones before a leading,
      after a trailing and between two adjacent separators. */
  function Split(s: string, sep: char): (parts: seq<string>)
    ensures |parts| >= 1
    ensures forall k | 0 <= k < |parts| :: sep !in parts[k]
  {
    if s == [] then [[]]
    else
      var rest := Split(s[1..], sep);
      if s[0] == sep then [[]] + rest
      else [[s[0]] + rest[0]] + rest[1..]
  }

  /** `parts.join(sep)`, the inverse of `Split`. */
  function Join(parts: seq<string>, sep: char): (s: string)
    requires |parts| >= 1
    decreases |parts|
  {
    if |parts| == 1 then parts[0] else parts[0] + [sep] + Join(parts[1..], sep)
  }

  lemma {:induction false} JoinSplit(s: string, sep: char)
    ensures Join(Split(s, sep), sep) == s
  {
    if s != [] {
      var rest := Split(s[1..], sep);
      JoinSplit(s[1..], sep);
      if s[0] == sep {
        assert ([[]] + rest)[1..] == rest;
        assert s == [] + [sep] + s[1..];
      } else if |rest| == 1 {
        assert s == [s[0]] + s[1..];
      } else {
        var parts := Split(s, sep);
        assert parts[1..] == rest[1..];
        assert Join(rest, sep) == rest[0] + [sep] + Join(rest[1..], sep);
        assert s == [s[0]] + s[1..];
      }
    }
  }

  /** Joining peels off the last part behind the last separator. */
  lemma {:induction false} JoinLast(parts: seq<string>, sep: char)
    requires |parts| >= 2
    ensures Join(parts, sep) == Join(parts[..|parts| - 1], sep) + [sep] + parts[|parts| - 1]
    decreases |parts|
  {
    var init := parts[..|parts| - 1];
    if |parts| > 2 {
      JoinLast(parts[1..], sep);
      assert parts[1..][..|parts[1..]| - 1] == init[1..];
      assert init[1..] == parts[1..|parts| - 1];
    } else {
      assert init == [parts[0]];
    }
  }

  lemma {:induction false} SplitJoin(parts: seq<string>, sep: char)
    requires |parts| >= 1
    requires forall k | 0 <= k < |parts| :: sep !in parts[k]
    ensures Split(Join(parts, sep), sep) == parts
    decreases |parts|, |parts[0]|
  {
    var s := Join(parts, sep);
    if parts[0] == [] {
      if |parts| > 1 {
        assert s == [sep] + Join(parts[1..], sep);
        assert s[1..] == Join(parts[1..], sep);
        SplitJoin(parts[1..], sep);
        assert parts == [[]] + parts[1..];
      }
    } else {
      var c := parts[0][0];
      var tail := [parts[0][1..]] + parts[1..];
      assert parts[0] == [c] + parts[0][1..];
      assert c != sep by { assert c in parts[0]; }
      forall k | 0 <= k < |tail|
        ensures sep !in tail[k]
      {
        if k != 0 {
          assert tail[k] == parts[k];
        }
      }
      SplitJoin(tail, sep);
      if |parts| == 1 {
        assert s == [c] + Join(tail, sep);
      } else {
        assert tail[1..] == parts[1..];
        assert s == [c] + Join(tail, sep);
      }
      assert s[1..] == Join(tail, sep);
      assert parts == [[c] + tail[0]] + tail[1..];
    }
  }
}
