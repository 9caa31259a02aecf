/**
 The parts of JavaScript's `String.prototype` that the history parser and the
 aggregator rely on: `trim`, `startsWith`, `includes`, `split` on a string
 separator, `replace` with a global pattern, `padStart`, number-to-string
 conversion and the default (code-unit) ordering used by `Array.prototype.sort`.
 Strings are Dafny `string`s, that is sequences of Unicode scalar values.
 */
module JsStrings {

  // ---------------------------------------------------------------------------
  // trim
  // ---------------------------------------------------------------------------

  /** The WhiteSpace and LineTerminator code points of ECMA-262, which `trim` removes. */
  const JsWhitespace: set<char> := {
    '\t', '\n', '\U{000B}', '\U{000C}', '\r', ' ', '\U{00A0}', '\U{1680}',
    '\U{2000}', '\U{2001}', '\U{2002}', '\U{2003}', '\U{2004}', '\U{2005}',
    '\U{2006}', '\U{2007}', '\U{2008}', '\U{2009}', '\U{200A}',
    '\U{2028}', '\U{2029}', '\U{202F}', '\U{205F}', '\U{3000}', '\U{FEFF}'
  }

  predicate IsJsWhitespace(c: char) {
    c in JsWhitespace
  }

  /** Drops the leading whitespace: the result is a suffix of `s` and only whitespace was dropped. */
  function TrimStart(s: string): (r: string)
    ensures |r| <= |s| && r == s[|s| - |r|..]
    ensures forall k :: 0 <= k < |s| - |r| ==> IsJsWhitespace(s[k])
    ensures r == [] || !IsJsWhitespace(r[0])
    decreases |s|
  {
    if s != [] && IsJsWhitespace(s[0]) then TrimStart(s[1..]) else s
  }

  /** Drops the trailing whitespace: the result is a prefix of `s` and only whitespace was dropped. */
  function TrimEnd(s: string): (r: string)
    ensures |r| <= |s| && r == s[..|r|]
    ensures forall k :: |r| <= k < |s| ==> IsJsWhitespace(s[k])
    ensures r == [] || !IsJsWhitespace(r[|r| - 1])
    decreases |s|
  {
    if s != [] && IsJsWhitespace(s[|s| - 1]) then TrimEnd(s[..|s| - 1]) else s
  }

  /** `s.trim()` */
  function Trim(s: string): string {
    TrimEnd(TrimStart(s))
  }

  /** The trimmed string neither starts nor ends with whitespace. */
  lemma TrimEnds(s: string)
    ensures var r := Trim(s);
      r == [] || (!IsJsWhitespace(r[0]) && !IsJsWhitespace(r[|r| - 1]))
  {
    var t := TrimStart(s);
    var r := TrimEnd(t);
    assert r != [] ==> r[0] == t[0];
  }

  /** Trimming twice is trimming once, so a trimmed field is its own trim. */
  lemma TrimIdempotent(s: string)
    ensures Trim(Trim(s)) == Trim(s)
  {
    var r := Trim(s);
    TrimEnds(s);
    assert TrimStart(r) == r;
    assert TrimEnd(r) == r;
  }

  // ---------------------------------------------------------------------------
  // startsWith, includes
  // ---------------------------------------------------------------------------

  /** `s.startsWith(p)` */
  predicate StartsWith(s: string, p: string) {
    |p| <= |s| && s[..|p|] == p
  }

  /** `s.includes(sub)`, searching from the left. */
  predicate Includes(s: string, sub: string)
    decreases |s|
  {
    StartsWith(s, sub) || (s != [] && Includes(s[1..], sub))
  }

  /** `sub` occurs in `s` at position `i`. */
  ghost predicate OccursAt(s: string, sub: string, i: int) {
    0 <= i && i + |sub| <= |s| && s[i..i + |sub|] == sub
  }

  /** `includes` holds exactly when the pattern occurs somewhere in the string. */
  lemma {:induction false} IncludesIff(s: string, sub: string)
    ensures Includes(s, sub) <==> exists i :: OccursAt(s, sub, i)
    decreases |s|
  {
    if StartsWith(s, sub) {
      assert OccursAt(s, sub, 0);
    } else if s == [] {
      assert |sub| > 0;
    } else {
      IncludesIff(s[1..], sub);
      if exists i :: OccursAt(s[1..], sub, i) {
        var i :| OccursAt(s[1..], sub, i);
        assert s[i + 1..i + 1 + |sub|] == s[1..][i..i + |sub|];
        assert OccursAt(s, sub, i + 1);
      }
      if exists i :: OccursAt(s, sub, i) {
        var i :| OccursAt(s, sub, i);
        assert i != 0;
        assert s[1..][i - 1..i - 1 + |sub|] == s[i..i + |sub|];
        assert OccursAt(s[1..], sub, i - 1);
      }
    }
  }

  // ---------------------------------------------------------------------------
  // split, join, replace
  // ---------------------------------------------------------------------------

  /** `parts.join(sep)` */
  function Join(parts: seq<string>, sep: string): string
    requires |parts| >= 1
  {
    if |parts| == 1 then parts[0] else parts[0] + sep + Join(parts[1..], sep)
  }

  /** `s.split(sep)` for a non-empty separator: the text between the non-overlapping
      occurrences of `sep`, found from the left; there is always at least one part. */
  function Split(s: string, sep: string): (parts: seq<string>)
    requires |sep| > 0
    ensures |parts| >= 1
    decreases |s|
  {
    if StartsWith(s, sep) then [""] + Split(s[|sep|..], sep)
    else if s == [] then [""]
    else
      var rest := Split(s[1..], sep);
      [[s[0]] + rest[0]] + rest[1..]
  }

  /** The first part is a prefix of `s`, no part contains `sep`, and joining the parts with
      `sep` gives back `s`. */
  lemma {:induction false} SplitSpec(s: string, sep: string)
    requires |sep| > 0
    ensures var parts := Split(s, sep);
      && parts[0] <= s
      && (forall i :: 0 <= i < |parts| ==> !Includes(parts[i], sep))
      && Join(parts, sep) == s
    decreases |s|
  {
    if StartsWith(s, sep) {
      var rest := Split(s[|sep|..], sep);
      SplitSpec(s[|sep|..], sep);
      SplitAtSeparator(s, sep, rest);
      var parts := [""] + rest;
      assert forall i :: 1 <= i < |parts| ==> parts[i] == rest[i - 1];
    } else if s != [] {
      var rest := Split(s[1..], sep);
      SplitSpec(s[1..], sep);
      SplitPastChar(s, sep, rest);
      var parts := [[s[0]] + rest[0]] + rest[1..];
      assert forall i :: 1 <= i < |parts| ==> parts[i] == rest[i];
    }
  }

  /** The step of Split that meets a separator at the front. */
  lemma SplitAtSeparator(s: string, sep: string, rest: seq<string>)
    requires |sep| > 0 && StartsWith(s, sep)
    requires |rest| >= 1 && Join(rest, sep) == s[|sep|..]
    ensures Join([""] + rest, sep) == s
  {
    assert ([""] + rest)[1..] == rest;
    assert sep + s[|sep|..] == s;
  }

  /** The step of Split that moves one character into the first part. */
  lemma SplitPastChar(s: string, sep: string, rest: seq<string>)
    requires |sep| > 0 && !StartsWith(s, sep) && s != []
    requires |rest| >= 1 && rest[0] <= s[1..] && !Includes(rest[0], sep)
    requires Join(rest, sep) == s[1..]
    ensures var parts := [[s[0]] + rest[0]] + rest[1..];
      && parts[0] <= s
      && !Includes(parts[0], sep)
      && Join(parts, sep) == s
  {
    var first := [s[0]] + rest[0];
    FirstPartPastChar(s, sep, rest[0]);
    JoinConsChar(s[0], rest, sep);
  }

  lemma FirstPartPastChar(s: string, sep: string, part: string)
    requires |sep| > 0 && !StartsWith(s, sep) && s != []
    requires part <= s[1..] && !Includes(part, sep)
    ensures [s[0]] + part <= s && !Includes([s[0]] + part, sep)
  {
    var first := [s[0]] + part;
    assert first[1..] == part;
    assert s == [s[0]] + s[1..];
    assert first <= s;
    if |sep| <= |first| {
      assert first[..|sep|] == s[..|sep|];
    }
  }

  lemma JoinConsChar(c: char, rest: seq<string>, sep: string)
    requires |rest| >= 1
    ensures Join([[c] + rest[0]] + rest[1..], sep) == [c] + Join(rest, sep)
  {
    var parts := [[c] + rest[0]] + rest[1..];
    if |rest| > 1 {
      assert parts[1..] == rest[1..];
    }
  }

  /** `s.replace(/pat/g, rep)` for a pattern that matches one fixed non-empty string. */
  function ReplaceAll(s: string, pat: string, rep: string): string
    requires |pat| > 0
    decreases |s|
  {
    if StartsWith(s, pat) then rep + ReplaceAll(s[|pat|..], pat, rep)
    else if s == [] then []
    else [s[0]] + ReplaceAll(s[1..], pat, rep)
  }

  /** Replacing every occurrence is splitting on the pattern and joining with the replacement. */
  lemma {:induction false} ReplaceAllIsSplitJoin(s: string, pat: string, rep: string)
    requires |pat| > 0
    ensures ReplaceAll(s, pat, rep) == Join(Split(s, pat), rep)
    decreases |s|
  {
    if StartsWith(s, pat) {
      ReplaceAllIsSplitJoin(s[|pat|..], pat, rep);
      ReplaceAtPattern(s, pat, rep);
    } else if s != [] {
      ReplaceAllIsSplitJoin(s[1..], pat, rep);
      ReplacePastChar(s, pat, rep);
    }
  }

  lemma ReplaceAtPattern(s: string, pat: string, rep: string)
    requires |pat| > 0 && StartsWith(s, pat)
    requires ReplaceAll(s[|pat|..], pat, rep) == Join(Split(s[|pat|..], pat), rep)
    ensures ReplaceAll(s, pat, rep) == Join(Split(s, pat), rep)
  {
    var rest := Split(s[|pat|..], pat);
    assert Split(s, pat) == [""] + rest;
    assert ([""] + rest)[1..] == rest;
    assert Join([""] + rest, rep) == "" + rep + Join(rest, rep);
  }

  lemma ReplacePastChar(s: string, pat: string, rep: string)
    requires |pat| > 0 && s != [] && !StartsWith(s, pat)
    requires ReplaceAll(s[1..], pat, rep) == Join(Split(s[1..], pat), rep)
    ensures ReplaceAll(s, pat, rep) == Join(Split(s, pat), rep)
  {
    var rest := Split(s[1..], pat);
    assert Split(s, pat) == [[s[0]] + rest[0]] + rest[1..];
    JoinConsChar(s[0], rest, rep);
  }

  /** Replacing a pattern by itself changes nothing. */
  lemma ReplaceAllSelf(s: string, pat: string)
    requires |pat| > 0
    ensures ReplaceAll(s, pat, pat) == s
  {
    ReplaceAllIsSplitJoin(s, pat, pat);
    SplitSpec(s, pat);
  }

  /** Deletes every comma that is immediately followed by a space. */
  function DropCommasBeforeSpace(s: string): string
    decreases |s|
  {
    if s == [] then []
    else if |s| >= 2 && s[0] == ',' && s[1] == ' ' then DropCommasBeforeSpace(s[1..])
    else [s[0]] + DropCommasBeforeSpace(s[1..])
  }

  /** `s.replace(/, /g, ' ')` deletes exactly the commas that precede a space. */
  lemma {:induction false} ReplaceCommaSpace(s: string)
    ensures ReplaceAll(s, ", ", " ") == DropCommasBeforeSpace(s)
    decreases |s|
  {
    if StartsWith(s, ", ") {
      ReplaceCommaSpace(s[2..]);
      assert s[1..][1..] == s[2..];
      assert DropCommasBeforeSpace(s[1..]) == [' '] + DropCommasBeforeSpace(s[2..]);
    } else if s != [] {
      ReplaceCommaSpace(s[1..]);
      if |s| >= 2 { assert s[..2] == [s[0], s[1]]; }
    }
  }

  // ---------------------------------------------------------------------------
  // padStart and number-to-string conversion
  // ---------------------------------------------------------------------------

  /** `fill` repeated `n` times. */
  function Repeat(fill: char, n: nat): (r: string)
    ensures |r| == n && forall k :: 0 <= k < n ==> r[k] == fill
  {
    if n == 0 then [] else [fill] + Repeat(fill, n - 1)
  }

  /** `s.padStart(len, fill)` with a one-character fill string. */
  function PadStart(s: string, len: nat, fill: char): (r: string)
    ensures |s| >= len ==> r == s
    ensures |s| < len ==> |r| == len
    ensures r[|r| - |s|..] == s
    ensures forall k :: 0 <= k < |r| - |s| ==> r[k] == fill
  {
    if |s| >= len then s else Repeat(fill, len - |s|) + s
  }

  predicate IsDigit(c: char) {
    '0' <= c <= '9'
  }

  function DigitChar(d: nat): (c: char)
    requires d < 10
    ensures IsDigit(c)
  {
    ('0' as int + d) as char
  }

  function DigitValue(c: char): (d: nat)
    requires IsDigit(c)
    ensures d < 10
  {
    c as int - '0' as int
  }

  predicate AllDigits(s: string) {
    forall k :: 0 <= k < |s| ==> IsDigit(s[k])
  }

  /** The number a string of decimal digits denotes, most significant digit first. */
  function DigitsValue(s: string): nat
    requires AllDigits(s)
  {
    if s == [] then 0 else 10 * DigitsValue(s[..|s| - 1]) + DigitValue(s[|s| - 1])
  }

  /** `String(n)` for a non-negative integer: its decimal digits with no leading zero. */
  function NatToString(n: nat): (r: string)
    ensures 1 <= |r| && AllDigits(r)
    ensures |r| > 1 ==> r[0] != '0'
    decreases n
  {
    if n < 10 then [DigitChar(n)] else NatToString(n / 10) + [DigitChar(n % 10)]
  }

  /** `String(n)` denotes `n`. */
  lemma {:induction false} NatToStringValue(n: nat)
    ensures DigitsValue(NatToString(n)) == n
    decreases n
  {
    if n >= 10 {
      NatToStringValue(n / 10);
      var r := NatToString(n);
      assert r[..|r| - 1] == NatToString(n / 10);
    }
  }

  /** A number from 1000 to 9999 is written with exactly four digits. */
  lemma FourDigits(n: nat)
    requires 1000 <= n <= 9999
    ensures |NatToString(n)| == 4
  {
    assert |NatToString(n / 1000)| == 1;
    assert |NatToString(n / 100)| == 2 by { assert (n / 100) / 10 == n / 1000; }
    assert |NatToString(n / 10)| == 3 by { assert (n / 10) / 10 == n / 100; }
  }

  /** Same-length digit strings that denote the same number are equal. */
  lemma {:induction false} DigitsValueInjective(a: string, b: string)
    requires AllDigits(a) && AllDigits(b) && |a| == |b|
    ensures DigitsValue(a) == DigitsValue(b) ==> a == b
    decreases |a|
  {
    if a != [] && DigitsValue(a) == DigitsValue(b) {
      var n := |a| - 1;
      assert DigitValue(a[n]) == DigitValue(b[n]);
      DigitsValueInjective(a[..n], b[..n]);
      assert a == a[..n] + [a[n]] && b == b[..n] + [b[n]];
    }
  }

  /** `String(n)` is injective on non-negative integers. */
  lemma NatToStringInjective(m: nat, n: nat)
    ensures NatToString(m) == NatToString(n) ==> m == n
  {
    NatToStringValue(m);
    NatToStringValue(n);
  }

  /** `String(i)` for an integer, as a template literal writes it: a minus sign for negatives. */
  function IntToString(i: int): (r: string)
    ensures 1 <= |r|
    ensures (i < 0) == (r[0] == '-')
  {
    if i < 0 then "-" + NatToString(-i) else NatToString(i)
  }

  /** `String(i)` is injective on integers. */
  lemma IntToStringInjective(i: int, j: int)
    ensures IntToString(i) == IntToString(j) ==> i == j
  {
    if IntToString(i) != IntToString(j) {
    } else if i < 0 {
      assert IntToString(i)[1..] == NatToString(-i);
      assert IntToString(j)[1..] == NatToString(-j);
      NatToStringInjective(-i, -j);
    } else {
      NatToStringInjective(i, j);
    }
  }

  // ---------------------------------------------------------------------------
  // the default sort order
  // ---------------------------------------------------------------------------

  /** The order `Array.prototype.sort` uses without a comparator: a proper prefix comes
      first, otherwise the first differing character decides. */
  predicate LexLess(a: string, b: string)
    decreases |a|
  {
    if a == [] then b != []
    else if b == [] then false
    else if a[0] != b[0] then a[0] < b[0]
    else LexLess(a[1..], b[1..])
  }

  lemma {:induction false} LexLessIrreflexive(a: string)
    ensures !LexLess(a, a)
    decreases |a|
  {
    if a != [] { LexLessIrreflexive(a[1..]); }
  }

  /** Any two different strings are ordered one way or the other, and never both. */
  lemma {:induction false} LexLessTotal(a: string, b: string)
    ensures a != b <==> (LexLess(a, b) || LexLess(b, a))
    ensures !(LexLess(a, b) && LexLess(b, a))
    decreases |a|
  {
    if a == [] || b == [] {
    } else if a[0] != b[0] {
    } else {
      LexLessTotal(a[1..], b[1..]);
      assert a == [a[0]] + a[1..] && b == [b[0]] + b[1..];
    }
  }

  lemma {:induction false} LexLessTransitive(a: string, b: string, c: string)
    requires LexLess(a, b) && LexLess(b, c)
    ensures LexLess(a, c)
    decreases |a|
  {
    if a != [] && a[0] == b[0] && b[0] == c[0] {
      LexLessTransitive(a[1..], b[1..], c[1..]);
    }
  }

  /** Comparing two strings that start with parts of equal length: the first parts decide
      unless they are equal, in which case the rest does. */
  lemma {:induction false} LexLessConcat(a: string, x: string, b: string, y: string)
    requires |a| == |b|
    ensures LexLess(a + x, b + y) <==> (LexLess(a, b) || (a == b && LexLess(x, y)))
    decreases |a|
  {
    if a == [] {
      assert a + x == x && b + y == y;
    } else {
      assert (a + x)[0] == a[0] && (b + y)[0] == b[0];
      assert (a + x)[1..] == a[1..] + x && (b + y)[1..] == b[1..] + y;
      if a[0] != b[0] {
        assert a != b;
        assert LexLess(a + x, b + y) == (a[0] < b[0]);
        assert LexLess(a, b) == (a[0] < b[0]);
      } else {
        LexLessConcat(a[1..], x, b[1..], y);
        assert LexLess(a + x, b + y) == LexLess(a[1..] + x, b[1..] + y);
        assert LexLess(a, b) == LexLess(a[1..], b[1..]);
        assert a == b <==> a[1..] == b[1..] by {
          assert a == [a[0]] + a[1..] && b == [b[0]] + b[1..];
        }
      }
    }
  }

  /** On digit strings of one length the default order is the numeric order. */
  lemma {:induction false} LexLessDigits(a: string, b: string)
    requires AllDigits(a) && AllDigits(b) && |a| == |b|
    ensures LexLess(a, b) <==> DigitsValue(a) < DigitsValue(b)
    decreases |a|
  {
    if a != [] {
      var n := |a| - 1;
      LexLessDigits(a[..n], b[..n]);
      assert a == a[..n] + [a[n]] && b == b[..n] + [b[n]];
      LexLessConcat(a[..n], [a[n]], b[..n], [b[n]]);
      assert DigitsValue(a) == 10 * DigitsValue(a[..n]) + DigitValue(a[n]);
      assert DigitsValue(b) == 10 * DigitsValue(b[..n]) + DigitValue(b[n]);
      if a[..n] == b[..n] {
        assert LexLess([a[n]], [b[n]]) <==> a[n] < b[n];
      } else {
        LexLessTotal(a[..n], b[..n]);
        DigitsValueInjective(a[..n], b[..n]);
        if DigitsValue(a[..n]) < DigitsValue(b[..n]) {
          assert DigitsValue(a) < DigitsValue(b);
        } else {
          assert DigitsValue(a[..n]) > DigitsValue(b[..n]);
          assert DigitsValue(a) > DigitsValue(b);
        }
      }
    }
  }
}
