/** String helpers with the JavaScript semantics the modelled functions rely on: literal prefix tests,
    `indexOf`, `replaceAll` with a literal pattern, `trim`, the `\s`, `\w` and `\d` character
    classes of regular expressions, and `String(n)` for integers. */
module Strings {
  import opened Wrappers

  /** `s.startsWith(p)`. */
  predicate StartsWith(s: string, p: string)
  {
    |p| <= |s| && s[..|p|] == p
  }

  /** `p` occurs in `s` starting at index `i`. */
  predicate OccursAt(s: string, p: string, i: nat)
  {
    i + |p| <= |s| && s[i..i + |p|] == p
  }

  /** `s.includes(p)`. */
  ghost predicate Contains(s: string, p: string)
  {
    exists i: nat :: OccursAt(s, p, i)
  }

  /** `\s` of JavaScript regular expressions, which is also the set `trim` removes:
      the white-space characters and the line terminators. */
  predicate IsSpace(c: char)
  {
    c == ' ' || c == '\t' || c == '\n' || c == '\r' || c == '\U{000B}' || c == '\U{000C}'
    || c == '\U{00A0}' || c == '\U{1680}' || ('\U{2000}' <= c <= '\U{200A}')
    || c == '\U{2028}' || c == '\U{2029}' || c == '\U{202F}' || c == '\U{205F}'
    || c == '\U{3000}' || c == '\U{FEFF}'
  }

  /** `\d`. */
  predicate IsDigit(c: char)
  {
    '0' <= c <= '9'
  }

  /** `\w`: the characters on the word side of a `\b` boundary. */
  predicate IsWordChar(c: char)
  {
    ('a' <= c <= 'z') || ('A' <= c <= 'Z') || IsDigit(c) || c == '_'
  }

  /** `\b` at index `i` of `s`: exactly one of the characters around `i` is a word character
      (positions outside the string count as non-word). */
  predicate WordBoundaryAt(s: string, i: nat)
    requires i <= |s|
  {
    (i > 0 && IsWordChar(s[i - 1])) != (i < |s| && IsWordChar(s[i]))
  }

  /** The first index at or after `from` where `p` occurs, if any. */
  function IndexOfFrom(s: string, p: string, from: nat): (r: Option<nat>)
    ensures r.Some? ==> from <= r.value && OccursAt(s, p, r.value)
    ensures r.Some? ==> forall j: nat :: from <= j < r.value ==> !OccursAt(s, p, j)
    ensures r.None? ==> forall j: nat :: from <= j ==> !OccursAt(s, p, j)
    decreases |s| - from
  {
    if from + |p| > |s| then None
    else if s[from..from + |p|] == p then Some(from)
    else IndexOfFrom(s, p, from + 1)
  }

  /** `s.indexOf(p)`, with `None` for -1. */
  function IndexOf(s: string, p: string): (r: Option<nat>)
    ensures r.Some? ==> OccursAt(s, p, r.value)
    ensures r.Some? ==> forall j: nat :: j < r.value ==> !OccursAt(s, p, j)
    ensures r.None? <==> !Contains(s, p)
  {
    IndexOfFrom(s, p, 0)
  }

  /** `s.replaceAll(p, r)` for a literal, non-empty `p` whose replacement holds no `$`
      pattern: every leftmost, non-overlapping occurrence of `p` becomes `r`. */
  function ReplaceAll(s: string, p: string, r: string): string
    requires |p| > 0
    decreases |s|
  {
    if |s| < |p| then s
    else if s[..|p|] == p then r + ReplaceAll(s[|p|..], p, r)
    else [s[0]] + ReplaceAll(s[1..], p, r)
  }

  /** The concatenation of `f(c)` over the characters `c` of `s`. */
  function MapConcat(s: string, f: char -> string): string
    decreases |s|
  {
    if s == [] then [] else f(s[0]) + MapConcat(s[1..], f)
  }

  lemma {:induction false} MapConcatAppend(a: string, b: string, f: char -> string)
    ensures MapConcat(a + b, f) == MapConcat(a, f) + MapConcat(b, f)
    decreases |a|
  {
    if a == [] {
      assert a + b == b;
    } else {
      MapConcatAppend(a[1..], b, f);
      assert (a + b)[0] == a[0];
      assert (a + b)[1..] == a[1..] + b;
      calc {
        MapConcat(a + b, f);
        f(a[0]) + MapConcat(a[1..] + b, f);
        f(a[0]) + (MapConcat(a[1..], f) + MapConcat(b, f));
        (f(a[0]) + MapConcat(a[1..], f)) + MapConcat(b, f);
      }
    }
  }

  /** Two per-character maps in a row are one per-character map. */
  lemma {:induction false} MapConcatCompose(s: string, f: char -> string, g: char -> string)
    ensures MapConcat(MapConcat(s, f), g) == MapConcat(s, c => MapConcat(f(c), g))
    decreases |s|
  {
    if s != [] {
      MapConcatCompose(s[1..], f, g);
      MapConcatAppend(f(s[0]), MapConcat(s[1..], f), g);
    }
  }

  /** A map that sends every character of `v` to itself gives `v` back. */
  lemma {:induction false} MapConcatIdentity(v: string, f: char -> string)
    requires forall i :: 0 <= i < |v| ==> f(v[i]) == [v[i]]
    ensures MapConcat(v, f) == v
    decreases |v|
  {
    if v != [] {
      MapConcatIdentity(v[1..], f);
      assert v == [v[0]] + v[1..];
    }
  }

  /** Maps that agree on the characters of `s` agree on `s`. */
  lemma {:induction false} MapConcatExt(s: string, f: char -> string, g: char -> string)
    requires forall i :: 0 <= i < |s| ==> f(s[i]) == g(s[i])
    ensures MapConcat(s, f) == MapConcat(s, g)
    decreases |s|
  {
    if s != [] {
      MapConcatExt(s[1..], f, g);
    }
  }

  /** A pattern whose first character is not in `s` does not occur in it. */
  lemma AbsentFirstChar(s: string, p: string)
    requires p != [] && p[0] !in s
    ensures !Contains(s, p)
  {
    forall i: nat ensures !OccursAt(s, p, i) {
      if i + |p| <= |s| {
        assert s[i..i + |p|][0] == s[i];
      }
    }
  }

  /** A pattern absent from `s` is absent from every suffix of `s`. */
  lemma AbsentFromTail(s: string, p: string, k: nat)
    requires k <= |s| && !Contains(s, p)
    ensures !Contains(s[k..], p)
  {
    forall i: nat | OccursAt(s[k..], p, i) ensures OccursAt(s, p, k + i) {
      assert s[k..][i..i + |p|] == s[k + i..k + i + |p|];
    }
  }

  /** Replacing a one-character pattern is a per-character map. */
  lemma {:induction false} ReplaceAllSingleIsMap(s: string, c: char, r: string)
    ensures ReplaceAll(s, [c], r) == MapConcat(s, x => if x == c then r else [x])
    decreases |s|
  {
    if s != [] {
      ReplaceAllSingleIsMap(s[1..], c, r);
      assert s[..1] == [s[0]];
    }
  }

  /** Replacing a pattern that does not occur changes nothing. */
  lemma {:induction false} ReplaceAllAbsent(s: string, p: string, r: string)
    requires |p| > 0
    requires !Contains(s, p)
    ensures ReplaceAll(s, p, r) == s
    decreases |s|
  {
    if |s| >= |p| {
      assert !OccursAt(s, p, 0);
      forall i: nat ensures !OccursAt(s[1..], p, i) {
        assert !OccursAt(s, p, i + 1);
      }
      ReplaceAllAbsent(s[1..], p, r);
      assert s == [s[0]] + s[1..];
    }
  }

  /** A prefix free of the pattern's first character passes through unchanged. */
  lemma {:induction false} ReplaceAllSkip(w: string, x: string, p: string, r: string)
    requires |p| > 0
    requires p[0] !in w
    ensures ReplaceAll(w + x, p, r) == w + ReplaceAll(x, p, r)
    decreases |w|
  {
    if w == [] {
      assert w + x == x;
    } else {
      var s := w + x;
      assert s[0] == w[0];
      assert s[1..] == w[1..] + x;
      assert p[0] !in w[1..] by {
        assert forall y :: y in w[1..] ==> y in w;
      }
      ReplaceAllSkip(w[1..], x, p, r);
      if |s| < |p| {
        assert ReplaceAll(x, p, r) == x;
      } else {
        assert s[..|p|][0] != p[0];
        calc {
          ReplaceAll(s, p, r);
          [w[0]] + ReplaceAll(w[1..] + x, p, r);
          [w[0]] + (w[1..] + ReplaceAll(x, p, r));
          ([w[0]] + w[1..]) + ReplaceAll(x, p, r);
          { assert [w[0]] + w[1..] == w; }
          w + ReplaceAll(x, p, r);
        }
      }
    }
  }

  /** A character in neither the input nor the replacement is not in the output. */
  lemma {:induction false} ReplaceAllKeepsOut(s: string, p: string, r: string, c: char)
    requires |p| > 0
    requires c !in s && c !in r
    ensures c !in ReplaceAll(s, p, r)
    decreases |s|
  {
    if |s| >= |p| {
      if s[..|p|] == p {
        assert forall x :: x in s[|p|..] ==> x in s;
        ReplaceAllKeepsOut(s[|p|..], p, r, c);
      } else {
        assert forall x :: x in s[1..] ==> x in s;
        ReplaceAllKeepsOut(s[1..], p, r, c);
      }
    }
  }

  /** `s.trimStart()`. */
  function TrimStart(s: string): (r: string)
    ensures r == [] || !IsSpace(r[0])
    ensures |r| <= |s| && r == s[|s| - |r|..]
    ensures forall i :: 0 <= i < |s| - |r| ==> IsSpace(s[i])
  {
    if s != [] && IsSpace(s[0]) then TrimStart(s[1..]) else s
  }

  /** `s.trimEnd()`. */
  function TrimEnd(s: string): (r: string)
    ensures r == [] || !IsSpace(r[|r| - 1])
    ensures |r| <= |s| && r == s[..|r|]
    ensures forall i :: |r| <= i < |s| ==> IsSpace(s[i])
  {
    if s != [] && IsSpace(s[|s| - 1]) then TrimEnd(s[..|s| - 1]) else s
  }

  /** `s.trim()`: the longest infix with no white space at either end. */
  function Trim(s: string): (r: string)
    ensures r == [] || (!IsSpace(r[0]) && !IsSpace(r[|r| - 1]))
  {
    var t := TrimStart(s);
    var r := TrimEnd(t);
    assert r != [] ==> r[0] == t[0];
    r
  }

  /** The trim is a piece of the string. */
  lemma TrimInfix(s: string)
    ensures Contains(s, Trim(s))
  {
    assert OccursAt(s, Trim(s), |s| - |TrimStart(s)|);
  }

  /** Trimming cannot bring in a character. */
  lemma TrimKeepsAbsent(s: string, c: char)
    requires c !in s
    ensures c !in Trim(s)
  {
    var r := Trim(s);
    TrimInfix(s);
    var i: nat :| OccursAt(s, r, i);
    forall k | 0 <= k < |r| ensures r[k] != c {
      assert r[k] == s[i + k];
    }
  }

  /** A string whose ends are not white space is its own trim. */
  lemma TrimTrimmed(s: string)
    requires s == [] || (!IsSpace(s[0]) && !IsSpace(s[|s| - 1]))
    ensures Trim(s) == s
  {
  }

  /** Leading white space does not change the trim. */
  lemma TrimLeadingSpace(c: char, s: string)
    requires IsSpace(c)
    ensures Trim([c] + s) == Trim(s)
  {
    assert ([c] + s)[1..] == s;
  }

  /** The decimal digit for `d`. */
  function DigitChar(d: nat): (c: char)
    requires d < 10
    ensures IsDigit(c)
  {
    ['0', '1', '2', '3', '4', '5', '6', '7', '8', '9'][d]
  }

  /** The value of a decimal digit. */
  function DigitValue(c: char): (d: nat)
    requires IsDigit(c)
    ensures d < 10 && DigitChar(d) == c
  {
    (c as int - '0' as int) as nat
  }

  /** `String(n)` for a non-negative integer: its shortest decimal numeral. */
  function NatToString(n: nat): (r: string)
    ensures r != [] && forall i :: 0 <= i < |r| ==> IsDigit(r[i])
    ensures r[0] == '0' ==> n == 0 && r == "0"
    decreases n
  {
    if n < 10 then [DigitChar(n)] else NatToString(n / 10) + [DigitChar(n % 10)]
  }

  /** The value of a decimal numeral. */
  function ParseNat(s: string): nat
    requires forall i :: 0 <= i < |s| ==> IsDigit(s[i])
    decreases |s|
  {
    if s == [] then 0 else ParseNat(s[..|s| - 1]) * 10 + DigitValue(s[|s| - 1])
  }

  /** Reading back a numeral gives the number it was printed from. */
  lemma {:induction false} ParseNatToString(n: nat)
    ensures ParseNat(NatToString(n)) == n
    decreases n
  {
    var s := NatToString(n);
    if n >= 10 {
      ParseNatToString(n / 10);
      assert s[..|s| - 1] == NatToString(n / 10);
    }
  }

  /** `String(i)` for an integer: a minus sign before the numeral of a negative value. */
  function IntToString(i: int): (r: string)
    ensures i >= 0 ==> r == NatToString(i)
    ensures i < 0 ==> r == "-" + NatToString(-i)
  {
    if i < 0 then "-" + NatToString(-i) else NatToString(i)
  }
}
