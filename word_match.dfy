/** The regular expression `\b(a1|a2|...|an)\b` with the global flag, as used by
    `String.prototype.replace`: the scan moves left to right; at each index the alternatives
    are tried in list order, and the first one that occurs there with a word boundary on both
    sides is the match; a match is replaced and the scan resumes after it; text at which
    nothing matches is copied. The alternatives are literal, non-empty strings. */
module WordMatch {
  import opened Wrappers
  import opened Strings

  /** `v` occurs at `i` with a word boundary before and after it. */
  predicate WholeWordAt(s: string, i: nat, v: string)
  {
    i <= |s| && OccursAt(s, v, i) && WordBoundaryAt(s, i) && WordBoundaryAt(s, i + |v|)
  }

  /** The alternative the expression matches at index `i`. */
  function MatchAt(s: string, i: nat, alts: seq<string>): (r: Option<string>)
    requires i <= |s|
    ensures r.Some? ==> r.value in alts && WholeWordAt(s, i, r.value)
    decreases |alts|
  {
    if alts == [] then None
    else if WholeWordAt(s, i, alts[0]) then Some(alts[0])
    else MatchAt(s, i, alts[1..])
  }

  /** The match at `i` is the first alternative in list order that occurs there as a whole
      word, and there is none when no alternative does. */
  lemma {:induction false} MatchAtFirst(s: string, i: nat, alts: seq<string>)
    requires i <= |s|
    ensures MatchAt(s, i, alts).Some? ==> exists k :: (0 <= k < |alts| && alts[k] == MatchAt(s, i, alts).value
      && WholeWordAt(s, i, alts[k]) && forall j :: 0 <= j < k ==> !WholeWordAt(s, i, alts[j]))
    ensures MatchAt(s, i, alts).None? <==> forall k :: 0 <= k < |alts| ==> !WholeWordAt(s, i, alts[k])
    decreases |alts|
  {
    if alts != [] && !WholeWordAt(s, i, alts[0]) {
      MatchAtFirst(s, i, alts[1..]);
      assert forall k :: 1 <= k < |alts| ==> alts[k] == alts[1..][k - 1];
      if MatchAt(s, i, alts).Some? {
        var k :| 0 <= k < |alts[1..]| && alts[1..][k] == MatchAt(s, i, alts).value
          && WholeWordAt(s, i, alts[1..][k]) && forall j :: 0 <= j < k ==> !WholeWordAt(s, i, alts[1..][j]);
        assert alts[k + 1] == alts[1..][k];
      }
    }
  }

  /** The replacement of every match from index `i` on, `f` applied to each matched text. */
  function ReplaceFrom(s: string, i: nat, alts: seq<string>, f: string -> string): string
    requires i <= |s|
    requires forall k :: 0 <= k < |alts| ==> alts[k] != []
    decreases |s| - i
  {
    if i == |s| then []
    else match MatchAt(s, i, alts)
      case Some(v) => f(v) + ReplaceFrom(s, i + |v|, alts, f)
      case None => [s[i]] + ReplaceFrom(s, i + 1, alts, f)
  }

  /** `s.replace(/\b(alts)\b/g, (m) => f(m))`. */
  function ReplaceWholeWords(s: string, alts: seq<string>, f: string -> string): string
    requires forall k :: 0 <= k < |alts| ==> alts[k] != []
  {
    ReplaceFrom(s, 0, alts, f)
  }

  /** A formatter that gives every alternative back unchanged leaves the text unchanged. */
  lemma {:induction false} ReplaceFromIdentity(s: string, i: nat, alts: seq<string>, f: string -> string)
    requires i <= |s|
    requires forall k :: 0 <= k < |alts| ==> alts[k] != []
    requires forall k :: 0 <= k < |alts| ==> f(alts[k]) == alts[k]
    ensures ReplaceFrom(s, i, alts, f) == s[i..]
    decreases |s| - i
  {
    if i < |s| {
      match MatchAt(s, i, alts)
      case Some(v) =>
        ReplaceFromIdentity(s, i + |v|, alts, f);
        assert s[i..] == s[i..i + |v|] + s[i + |v|..];
      case None =>
        ReplaceFromIdentity(s, i + 1, alts, f);
        assert s[i..] == [s[i]] + s[i + 1..];
    }
  }

  /** Where no alternative occurs as a whole word at any index from `i` on, the text is
      copied unchanged. */
  lemma {:induction false} ReplaceFromNoMatch(s: string, i: nat, alts: seq<string>, f: string -> string)
    requires i <= |s|
    requires forall k :: 0 <= k < |alts| ==> alts[k] != []
    requires forall j: nat, k :: i <= j <= |s| && 0 <= k < |alts| ==> !WholeWordAt(s, j, alts[k])
    ensures ReplaceFrom(s, i, alts, f) == s[i..]
    decreases |s| - i
  {
    if i < |s| {
      MatchAtFirst(s, i, alts);
      ReplaceFromNoMatch(s, i + 1, alts, f);
      assert s[i..] == [s[i]] + s[i + 1..];
    }
  }

  /** Text in which no alternative occurs at all comes back unchanged. */
  lemma ReplaceAbsent(s: string, alts: seq<string>, f: string -> string)
    requires forall k :: 0 <= k < |alts| ==> alts[k] != []
    requires forall k :: 0 <= k < |alts| ==> !Contains(s, alts[k])
    ensures ReplaceWholeWords(s, alts, f) == s
  {
    ReplaceFromNoMatch(s, 0, alts, f);
  }

  /** Where the character at `i` begins no alternative, nothing matches at `i`. */
  lemma NoMatchAtChar(s: string, i: nat, alts: seq<string>)
    requires i < |s|
    requires forall k :: 0 <= k < |alts| ==> alts[k] != [] && alts[k][0] != s[i]
    ensures MatchAt(s, i, alts) == None
  {
    MatchAtFirst(s, i, alts);
    forall k | 0 <= k < |alts| ensures !OccursAt(s, alts[k], i) {
      if i + |alts[k]| <= |s| {
        assert s[i..i + |alts[k]|][0] == s[i];
      }
    }
  }

  /** Stepping over a text segment in which nothing matches copies it. */
  lemma {:induction false} ReplaceFromSkip(s: string, i: nat, j: nat, alts: seq<string>, f: string -> string)
    requires i <= j <= |s|
    requires forall k :: 0 <= k < |alts| ==> alts[k] != []
    requires forall m: nat :: i <= m < j ==> MatchAt(s, m, alts) == None
    ensures ReplaceFrom(s, i, alts, f) == s[i..j] + ReplaceFrom(s, j, alts, f)
    decreases j - i
  {
    if i < j {
      var head, mid, rest := [s[i]], s[i + 1..j], ReplaceFrom(s, j, alts, f);
      assert ReplaceFrom(s, i, alts, f) == head + ReplaceFrom(s, i + 1, alts, f) by {
        ReplaceFromCopy(s, i, alts, f);
      }
      assert ReplaceFrom(s, i + 1, alts, f) == mid + rest by {
        ReplaceFromSkip(s, i + 1, j, alts, f);
      }
      assert head + (mid + rest) == (head + mid) + rest;
      assert s[i..j] == head + mid;
    }
  }

  /** Where nothing matches, the character is copied and the scan moves on by one. */
  lemma ReplaceFromCopy(s: string, i: nat, alts: seq<string>, f: string -> string)
    requires i < |s|
    requires forall k :: 0 <= k < |alts| ==> alts[k] != []
    requires MatchAt(s, i, alts) == None
    ensures ReplaceFrom(s, i, alts, f) == [s[i]] + ReplaceFrom(s, i + 1, alts, f)
  {
  }

  /** At a match, the formatted match is followed by the replacement of the text after it. */
  lemma ReplaceFromMatch(s: string, i: nat, v: string, alts: seq<string>, f: string -> string)
    requires i < |s|
    requires forall k :: 0 <= k < |alts| ==> alts[k] != []
    requires MatchAt(s, i, alts) == Some(v)
    ensures i + |v| <= |s|
    ensures ReplaceFrom(s, i, alts, f) == f(v) + ReplaceFrom(s, i + |v|, alts, f)
  {
  }

  /** A stretch of text none of whose characters begins an alternative is copied. */
  lemma CopyStretch(s: string, i: nat, j: nat, alts: seq<string>, f: string -> string)
    requires i <= j <= |s|
    requires forall k :: 0 <= k < |alts| ==> alts[k] != [] && alts[k][0] !in s[i..j]
    ensures ReplaceFrom(s, i, alts, f) == s[i..j] + ReplaceFrom(s, j, alts, f)
  {
    forall m: nat | i <= m < j ensures MatchAt(s, m, alts) == None {
      assert s[m] == s[i..j][m - i];
      NoMatchAtChar(s, m, alts);
    }
    ReplaceFromSkip(s, i, j, alts, f);
  }

  /** From a match on, with no alternative beginning after it: the formatted match and the rest copied. */
  lemma ReplaceLastMatch(s: string, i: nat, e: nat, alts: seq<string>, f: string -> string)
    requires i < e <= |s|
    requires forall j :: 0 <= j < |alts| ==> alts[j] != [] && alts[j][0] !in s[e..|s|]
    requires MatchAt(s, i, alts) == Some(s[i..e])
    ensures ReplaceFrom(s, i, alts, f) == f(s[i..e]) + s[e..|s|]
  {
    ReplaceFromMatch(s, i, s[i..e], alts, f);
    CopyStretch(s, e, |s|, alts, f);
  }

  /** A text with one match and no alternative beginning before or after it. */
  lemma ReplaceOneMatch(s: string, i: nat, e: nat, alts: seq<string>, f: string -> string)
    requires i < e <= |s|
    requires forall j :: 0 <= j < |alts| ==> alts[j] != [] && alts[j][0] !in s[0..i] && alts[j][0] !in s[e..|s|]
    requires MatchAt(s, i, alts) == Some(s[i..e])
    ensures ReplaceFrom(s, 0, alts, f) == s[0..i] + f(s[i..e]) + s[e..|s|]
  {
    CopyStretch(s, 0, i, alts, f);
    ReplaceLastMatch(s, i, e, alts, f);
    var pre, v, post := s[0..i], f(s[i..e]), s[e..|s|];
    assert pre + (v + post) == pre + v + post;
  }

  /** One alternative standing as a whole word between two stretches in which no alternative
      can begin is replaced, and the stretches are copied, provided no earlier alternative
      occurs at its position. */
  lemma ReplaceBetween(a: string, k: nat, b: string, alts: seq<string>, f: string -> string)
    requires forall j :: 0 <= j < |alts| ==> alts[j] != [] && alts[j][0] !in a && alts[j][0] !in b
    requires k < |alts| && IsWordChar(alts[k][0]) && IsWordChar(alts[k][|alts[k]| - 1])
    requires a == [] || !IsWordChar(a[|a| - 1])
    requires b == [] || !IsWordChar(b[0])
    requires forall j :: 0 <= j < k ==> !OccursAt(a + alts[k] + b, alts[j], |a|)
    ensures ReplaceWholeWords(a + alts[k] + b, alts, f) == a + f(alts[k]) + b
  {
    var v := alts[k];
    var s := a + v + b;
    var e := |a| + |v|;
    assert s[0..|a|] == a && s[|a|..e] == v && s[e..|s|] == b;
    assert s[|a|] == v[0] && s[e - 1] == v[|v| - 1];
    assert |a| > 0 ==> s[|a| - 1] == a[|a| - 1];
    assert e < |s| ==> s[e] == b[0];
    assert WholeWordAt(s, |a|, v);
    MatchAtFirst(s, |a|, alts);
    assert MatchAt(s, |a|, alts) == Some(v) by {
      if MatchAt(s, |a|, alts).Some? {
        var m :| 0 <= m < |alts| && alts[m] == MatchAt(s, |a|, alts).value
          && WholeWordAt(s, |a|, alts[m]) && forall j :: 0 <= j < m ==> !WholeWordAt(s, |a|, alts[j]);
        assert m == k;
      }
    }
    ReplaceOneMatch(s, |a|, e, alts, f);
  }
}
