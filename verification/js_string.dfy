/** The JavaScript string operations the app uses, on `string` as a
    sequence of characters: `includes`, `replaceAll` and `replace` with a
    string pattern, `split` on one character, `padStart`, case mapping and
    the relational `<` on strings. */
module JsString {

  predicate StartsWith(s: string, p: string) {
    |p| <= |s| && s[..|p|] == p
  }

  predicate EndsWith(s: string, p: string) {
    |p| <= |s| && s[|s| - |p|..] == p
  }

  /** `s.includes(p)`: `p` occurs somewhere in `s` (the empty string
      occurs everywhere). */
  predicate Contains(s: string, p: string) {
    exists i :: 0 <= i <= |s| && StartsWith(s[i..], p)
  }

  lemma ContainsItself(s: string)
    ensures Contains(s, s)
  {
    assert StartsWith(s[0..], s);
  }

  /** An occurrence of a non-empty pattern contains its first
      character. */
  lemma ContainsFirstChar(s: string, p: string)
    requires |p| > 0 && Contains(s, p)
    ensures p[0] in s
  {
    var i :| 0 <= i <= |s| && StartsWith(s[i..], p);
    assert s[i] == p[0];
  }

  function CountChar(s: string, c: char): nat {
    if |s| == 0 then 0 else (if s[0] == c then 1 else 0) + CountChar(s[1..], c)
  }

  lemma {:induction false} CountCharAppend(a: string, b: string, c: char)
    ensures CountChar(a + b, c) == CountChar(a, c) + CountChar(b, c)
    decreases |a|
  {
    if |a| == 0 {
      assert a + b == b;
    } else {
      assert (a + b)[1..] == a[1..] + b;
      CountCharAppend(a[1..], b, c);
    }
  }

  // ---------------------------------------------------------------------
  // replaceAll and replace
  // ---------------------------------------------------------------------

  /** `s.replaceAll(p, r)` for a string pattern: scan left to right and
      replace every non-overlapping occurrence of `p` by `r`. An empty
      pattern matches before every character and at the end. The
      replacement is taken literally. */
  function ReplaceAll(s: string, p: string, r: string): string
    decreases |s|
  {
    if |p| == 0 then
      (if |s| == 0 then r else r + [s[0]] + ReplaceAll(s[1..], p, r))
    else if |s| == 0 then s
    else if StartsWith(s, p) then r + ReplaceAll(s[|p|..], p, r)
    else [s[0]] + ReplaceAll(s[1..], p, r)
  }

  /** `s.replace(p, r)` for a string pattern: only the first occurrence is
      replaced. */
  function ReplaceFirst(s: string, p: string, r: string): string
    decreases |s|
  {
    if StartsWith(s, p) then r + s[|p|..]
    else if |s| == 0 then s
    else [s[0]] + ReplaceFirst(s[1..], p, r)
  }

  lemma ContainsTail(s: string, p: string)
    requires |s| > 0 && Contains(s[1..], p)
    ensures Contains(s, p)
  {
    var i :| 0 <= i <= |s[1..]| && StartsWith(s[1..][i..], p);
    assert s[1..][i..] == s[i + 1..];
  }

  /** A pattern that does not occur leaves the string unchanged. */
  lemma {:induction false} ReplaceAllAbsent(s: string, p: string, r: string)
    requires |p| > 0 && !Contains(s, p)
    ensures ReplaceAll(s, p, r) == s
    decreases |s|
  {
    if |s| > 0 {
      assert s[0..] == s;
      if Contains(s[1..], p) {
        ContainsTail(s, p);
      }
      ReplaceAllAbsent(s[1..], p, r);
    }
  }

  /** Every character of the result comes from the input or from the
      replacement. */
  lemma {:induction false} ReplaceAllChars(s: string, p: string, r: string)
    ensures forall c :: c in ReplaceAll(s, p, r) ==> c in s || c in r
    decreases |s|
  {
    if |s| > 0 {
      if |p| > 0 && StartsWith(s, p) {
        ReplaceAllChars(s[|p|..], p, r);
      } else {
        ReplaceAllChars(s[1..], p, r);
      }
    }
  }

  /** Replacing every occurrence of a single character by text without it
      removes that character. */
  lemma {:induction false} ReplaceAllRemovesChar(s: string, c: char, r: string)
    requires c !in r
    ensures c !in ReplaceAll(s, [c], r)
    decreases |s|
  {
    if |s| > 0 {
      if StartsWith(s, [c]) {
        ReplaceAllRemovesChar(s[1..], c, r);
      } else {
        assert s[0] != c;
        ReplaceAllRemovesChar(s[1..], c, r);
      }
    }
  }

  /** A rewrite that never lengthens its match never lengthens the string. */
  lemma {:induction false} ReplaceAllNotLonger(s: string, p: string, r: string)
    requires |p| > 0 && |r| <= |p|
    ensures |ReplaceAll(s, p, r)| <= |s|
    decreases |s|
  {
    if |s| > 0 {
      if StartsWith(s, p) {
        ReplaceAllNotLonger(s[|p|..], p, r);
      } else {
        ReplaceAllNotLonger(s[1..], p, r);
      }
    }
  }

  /** A rewrite that strictly lengthens its match strictly lengthens any
      string in which the pattern occurs. */
  lemma {:induction false} ReplaceAllLonger(s: string, p: string, r: string)
    requires |p| > 0 && |r| > |p|
    ensures |ReplaceAll(s, p, r)| >= |s|
    ensures Contains(s, p) ==> |ReplaceAll(s, p, r)| > |s|
    decreases |s|
  {
    if |s| > 0 {
      if StartsWith(s, p) {
        ReplaceAllLonger(s[|p|..], p, r);
      } else {
        ReplaceAllLonger(s[1..], p, r);
        if Contains(s, p) {
          var i :| 0 <= i <= |s| && StartsWith(s[i..], p);
          assert i != 0;
          assert s[1..][i - 1..] == s[i..];
          assert Contains(s[1..], p);
        }
      }
    }
  }

  /** Text that cannot begin a match passes through unchanged. */
  lemma {:induction false} ReplaceAllSkip(a: string, b: string, p: string, r: string)
    requires |p| > 0 && p[0] !in a
    ensures ReplaceAll(a + b, p, r) == a + ReplaceAll(b, p, r)
    decreases |a|
  {
    if |a| > 0 {
      var s := a + b;
      assert s[0] == a[0] && !StartsWith(s, p);
      assert s[1..] == a[1..] + b;
      ReplaceAllSkip(a[1..], b, p, r);
    } else {
      assert a + b == b;
    }
  }

  /** A match at the front is replaced and the scan resumes after it. */
  lemma ReplaceAllMatch(b: string, p: string, r: string)
    requires |p| > 0
    ensures ReplaceAll(p + b, p, r) == r + ReplaceAll(b, p, r)
  {
    var s := p + b;
    assert s[..|p|] == p && s[|p|..] == b;
  }

  lemma {:induction false} ReplaceAllShort(s: string, p: string, r: string)
    requires |s| < |p|
    ensures ReplaceAll(s, p, r) == s
    decreases |s|
  {
    if |s| > 0 {
      ReplaceAllShort(s[1..], p, r);
    }
  }

  /** A string that a match can neither start in `a` nor fit in `b` is left
      as it is. */
  lemma ReplaceAllUnchanged(a: string, b: string, p: string, r: string)
    requires |p| > 0 && p[0] !in a && |b| < |p|
    ensures ReplaceAll(a + b, p, r) == a + b
  {
    ReplaceAllSkip(a, b, p, r);
    ReplaceAllShort(b, p, r);
  }

  /** The first match after a stretch that cannot start one. */
  lemma ReplaceAllMatchAfter(a: string, b: string, p: string, r: string)
    requires |p| > 0 && p[0] !in a
    ensures ReplaceAll(a + p + b, p, r) == a + r + ReplaceAll(b, p, r)
  {
    var pb := p + b;
    assert a + p + b == a + pb;
    ReplaceAllSkip(a, pb, p, r);
    ReplaceAllMatch(b, p, r);
    var rb := ReplaceAll(b, p, r);
    assert a + (r + rb) == a + r + rb;
  }

  /** One match between two stretches that cannot hold another. */
  lemma ReplaceAllOnce(a: string, b: string, p: string, r: string)
    requires |p| > 0 && p[0] !in a && p[0] !in b
    ensures ReplaceAll(a + p + b, p, r) == a + r + b
  {
    ReplaceAllMatchAfter(a, b, p, r);
    assert b + [] == b;
    ReplaceAllSkip(b, [], p, r);
  }

  /** A string in which the pattern cannot start is left as it is. */
  lemma ReplaceAllKeeps(s: string, p: string, r: string)
    requires |p| > 0 && p[0] !in s
    ensures ReplaceAll(s, p, r) == s
  {
    assert s + [] == s;
    ReplaceAllUnchanged(s, [], p, r);
  }

  /** A string that is exactly the pattern becomes the replacement. */
  lemma ReplaceAllWhole(p: string, r: string)
    requires |p| > 0
    ensures ReplaceAll(p, p, r) == r
  {
    assert [] + p + [] == p;
    ReplaceAllOnce([], [], p, r);
    assert [] + r + [] == r;
  }

  /** One match, then text that cannot start another, then a tail too
      short to hold one. */
  lemma ReplaceAllOnceThenShort(a: string, b: string, c: string, p: string, r: string)
    requires |p| > 0 && p[0] !in a && p[0] !in b && |c| < |p|
    ensures ReplaceAll(a + p + (b + c), p, r) == a + r + (b + c)
  {
    ReplaceAllMatchAfter(a, b + c, p, r);
    ReplaceAllUnchanged(b, c, p, r);
  }

  /** `replace` of a character rewrites its first occurrence only. */
  lemma {:induction false} ReplaceFirstChar(a: string, b: string, c: char, r: string)
    requires c !in a
    ensures ReplaceFirst(a + [c] + b, [c], r) == a + r + b
    decreases |a|
  {
    var s := a + [c] + b;
    if |a| == 0 {
      assert s == [c] + b && s[..1] == [c] && s[1..] == b;
      assert a + r + b == r + b;
    } else {
      var t := a[1..] + [c] + b;
      assert s[0] == a[0] && !StartsWith(s, [c]);
      assert s[1..] == t;
      ReplaceFirstChar(a[1..], b, c, r);
      var rest := a[1..] + r + b;
      assert ReplaceFirst(s, [c], r) == [a[0]] + rest;
      assert [a[0]] + rest == a + r + b;
    }
  }

  lemma {:induction false} ReplaceFirstAbsentChar(s: string, c: char, r: string)
    requires c !in s
    ensures ReplaceFirst(s, [c], r) == s
    decreases |s|
  {
    if |s| > 0 {
      assert s[0] != c;
      assert |s[..1]| == 1 && s[..1][0] == s[0];
      ReplaceFirstAbsentChar(s[1..], c, r);
    }
  }

  // ---------------------------------------------------------------------
  // Case mapping (ASCII letters)
  // ---------------------------------------------------------------------

  predicate IsLowerAscii(c: char) {
    'a' <= c <= 'z'
  }

  predicate IsUpperAscii(c: char) {
    'A' <= c <= 'Z'
  }

  function UpperChar(c: char): (u: char)
    ensures !IsLowerAscii(u)
    ensures !IsLowerAscii(c) ==> u == c
  {
    if IsLowerAscii(c) then (c as int - 32) as char else c
  }

  function LowerChar(c: char): (l: char)
    ensures !IsUpperAscii(l)
    ensures !IsUpperAscii(c) ==> l == c
  {
    if IsUpperAscii(c) then (c as int + 32) as char else c
  }

  /** `toUpperCase()`, restricted to the ASCII letters. */
  function ToUpper(s: string): (u: string)
    ensures |u| == |s|
    ensures forall i :: 0 <= i < |s| ==> u[i] == UpperChar(s[i])
  {
    if |s| == 0 then [] else [UpperChar(s[0])] + ToUpper(s[1..])
  }

  /** `toLowerCase()`, restricted to the ASCII letters. */
  function ToLower(s: string): (l: string)
    ensures |l| == |s|
    ensures forall i :: 0 <= i < |s| ==> l[i] == LowerChar(s[i])
  {
    if |s| == 0 then [] else [LowerChar(s[0])] + ToLower(s[1..])
  }

  // ---------------------------------------------------------------------
  // padStart
  // ---------------------------------------------------------------------

  /** `s.padStart(n, [c])`: prefix copies of `c` up to length `n`; a string
      already that long is returned as is. */
  function PadStart(s: string, n: nat, c: char): (t: string)
    ensures |t| == if |s| >= n then |s| else n
    ensures EndsWith(t, s)
    ensures forall i :: 0 <= i < |t| - |s| ==> t[i] == c
  {
    if |s| >= n then s else seq(n - |s|, _ => c) + s
  }

  // ---------------------------------------------------------------------
  // split and join on one character
  // ---------------------------------------------------------------------

  /** `s.split(sep)` for a one-character separator: the pieces between
      separators, including empty ones at either end. */
  function Split(s: string, sep: char): (parts: seq<string>)
    ensures |parts| == CountChar(s, sep) + 1
    ensures forall i :: 0 <= i < |parts| ==> sep !in parts[i]
    decreases |s|
  {
    if |s| == 0 then [""]
    else if s[0] == sep then [""] + Split(s[1..], sep)
    else
      var rest := Split(s[1..], sep);
      [[s[0]] + rest[0]] + rest[1..]
  }

  /** `parts.join(sep)`. */
  function Join(parts: seq<string>, sep: char): string
    requires |parts| > 0
  {
    if |parts| == 1 then parts[0] else parts[0] + [sep] + Join(parts[1..], sep)
  }

  /** Joining the pieces back with the separator gives the input. */
  lemma {:induction false} JoinSplit(s: string, sep: char)
    ensures Join(Split(s, sep), sep) == s
    decreases |s|
  {
    if |s| > 0 {
      JoinSplit(s[1..], sep);
      var rest := Split(s[1..], sep);
      if s[0] != sep && |rest| > 1 {
        assert Split(s, sep)[1..] == rest[1..];
      }
    }
  }

  lemma SplitWithoutSeparator(s: string, sep: char)
    requires sep !in s
    ensures Split(s, sep) == [s]
  {
    var parts := Split(s, sep);
    assert CountChar(s, sep) == 0 by { CountAbsent(s, sep); }
    JoinSplit(s, sep);
  }

  /** Two or more pieces only come from a string holding the separator. */
  lemma SplitNeedsSeparator(s: string, sep: char)
    ensures |Split(s, sep)| >= 2 ==> sep in s
  {
    if sep !in s {
      CountAbsent(s, sep);
    }
  }

  lemma {:induction false} CountAbsent(s: string, c: char)
    requires c !in s
    ensures CountChar(s, c) == 0
    decreases |s|
  {
    if |s| > 0 {
      CountAbsent(s[1..], c);
    }
  }

  /** Splitting distributes over a separator: the pieces of `a + sep + b`
      are the pieces of `a` followed by the pieces of `b`. */
  lemma {:induction false} SplitAppend(a: string, b: string, sep: char)
    ensures Split(a + [sep] + b, sep) == Split(a, sep) + Split(b, sep)
    decreases |a|
  {
    var s := a + [sep] + b;
    if |a| == 0 {
      assert s[0] == sep && s[1..] == b;
    } else {
      assert s[0] == a[0] && s[1..] == a[1..] + [sep] + b;
      SplitAppend(a[1..], b, sep);
    }
  }

  // ---------------------------------------------------------------------
  // String comparison
  // ---------------------------------------------------------------------

  /** JavaScript's `a < b` on strings: lexicographic by character, a
      proper prefix being smaller. */
  predicate StrLess(a: string, b: string)
    decreases |a|
  {
    if |a| == 0 then |b| > 0
    else if |b| == 0 then false
    else if a[0] != b[0] then a[0] < b[0]
    else StrLess(a[1..], b[1..])
  }

  lemma {:induction false} StrLessIrreflexive(a: string)
    ensures !StrLess(a, a)
    decreases |a|
  {
    if |a| > 0 {
      StrLessIrreflexive(a[1..]);
    }
  }

  lemma {:induction false} StrLessTransitive(a: string, b: string, c: string)
    requires StrLess(a, b) && StrLess(b, c)
    ensures StrLess(a, c)
    decreases |a|
  {
    if |a| > 0 && |b| > 0 && |c| > 0 && a[0] == b[0] && b[0] == c[0] {
      StrLessTransitive(a[1..], b[1..], c[1..]);
    }
  }

  /** Distinct strings are always ordered one way or the other. */
  lemma {:induction false} StrLessTotal(a: string, b: string)
    requires a != b
    ensures StrLess(a, b) || StrLess(b, a)
    decreases |a|
  {
    if |a| > 0 && |b| > 0 && a[0] == b[0] {
      assert a == [a[0]] + a[1..] && b == [b[0]] + b[1..];
      StrLessTotal(a[1..], b[1..]);
    }
  }
}
