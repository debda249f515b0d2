/** The self-author helpers of `src/data/cv/authors.ts`: the configured spellings of the site
    owner's name, exact membership, and the emphasis of those spellings inside an author string. */
module Authors {
  import opened Wrappers
  import opened Strings
  import opened WordMatch

  /** The configured spellings, in the order the emphasis pattern lists them. */
  const SelfAuthorVariants: seq<string> := [
    "Tzu-Ming Harry Hsu",
    "Tzu Ming Harry Hsu",
    "Tzu-Ming Hsu",
    "Tzu Ming Hsu",
    "Harry Hsu"
  ]

  /** The identifier is exactly one of the configured spellings. */
  predicate IsSelfAuthor(author: string)
  {
    author in SelfAuthorVariants
  }

  /** The characters a regular expression gives a meaning to: `. * + ? ^ $ { } ( ) | [ ] \`. */
  predicate IsRegexSpecial(c: char)
  {
    c in ".*+?^${}()|[]\\"
  }

  /** One character of a variant as it is written into the pattern source. */
  function EscapeRegexChar(c: char): string
  {
    if IsRegexSpecial(c) then ['\\', c] else [c]
  }

  /** `variant.replace(/[.*+?^${}()|[\]\\]/g, "\\$&")`: a backslash before every special character. */
  function EscapeRegex(v: string): string
  {
    MapConcat(v, EscapeRegexChar)
  }

  /** The literal text a pattern made of plain characters and backslash escapes matches:
      an escaped character stands for itself. */
  function RegexLiteral(p: string): string
    decreases |p|
  {
    if p == [] then []
    else if p[0] == '\\' && |p| >= 2 then [p[1]] + RegexLiteral(p[2..])
    else [p[0]] + RegexLiteral(p[1..])
  }

  /** Escaping is exact: the escaped pattern matches precisely the text it was made from. */
  lemma {:induction false} RegexLiteralEscape(v: string)
    ensures RegexLiteral(EscapeRegex(v)) == v
    decreases |v|
  {
    if v != [] {
      RegexLiteralEscape(v[1..]);
      var p := EscapeRegex(v);
      assert p == EscapeRegexChar(v[0]) + EscapeRegex(v[1..]);
      if IsRegexSpecial(v[0]) {
        assert p[2..] == EscapeRegex(v[1..]);
      } else {
        assert v[0] != '\\';
        assert p[1..] == EscapeRegex(v[1..]);
      }
      assert v == [v[0]] + v[1..];
    }
  }

  /** The configured spellings contain no special character, so escaping leaves them as they are. */
  lemma VariantsNeedNoEscape()
    ensures forall k :: 0 <= k < |SelfAuthorVariants| ==> EscapeRegex(SelfAuthorVariants[k]) == SelfAuthorVariants[k]
  {
    forall k | 0 <= k < |SelfAuthorVariants|
      ensures EscapeRegex(SelfAuthorVariants[k]) == SelfAuthorVariants[k]
    {
      var v := SelfAuthorVariants[k];
      assert forall i :: 0 <= i < |v| ==> IsWordChar(v[i]) || v[i] == ' ' || v[i] == '-';
      MapConcatIdentity(v, EscapeRegexChar);
    }
  }

  /** The alternatives of `selfAuthorPattern`, the escaped spellings joined by `|`, match
      exactly the spellings themselves, in the same order. */
  lemma PatternAlternatives()
    ensures forall k :: 0 <= k < |SelfAuthorVariants| ==>
      RegexLiteral(EscapeRegex(SelfAuthorVariants[k])) == SelfAuthorVariants[k]
  {
    forall k | 0 <= k < |SelfAuthorVariants|
      ensures RegexLiteral(EscapeRegex(SelfAuthorVariants[k])) == SelfAuthorVariants[k]
    {
      RegexLiteralEscape(SelfAuthorVariants[k]);
    }
  }

  /** `authors.replace(selfAuthorPattern, (author) => formatter(author))`: every whole-word
      occurrence of a spelling is replaced by what the formatter makes of it (the pattern's
      alternatives are the spellings, by `PatternAlternatives`; at most one of them occurs at
      any index, by `OneVariantAt`). */
  function EmphasizeSelfAuthors(authors: string, formatter: string -> string): string
  {
    ReplaceWholeWords(authors, SelfAuthorVariants, formatter)
  }

  /** A formatter that returns its argument leaves every author string unchanged. */
  lemma EmphasizeIdentity(authors: string, formatter: string -> string)
    requires forall v :: v in SelfAuthorVariants ==> formatter(v) == v
    ensures EmphasizeSelfAuthors(authors, formatter) == authors
  {
    ReplaceFromIdentity(authors, 0, SelfAuthorVariants, formatter);
  }

  /** An author string that contains none of the spellings is returned unchanged. */
  lemma EmphasizeAbsent(authors: string, formatter: string -> string)
    requires forall v :: v in SelfAuthorVariants ==> !Contains(authors, v)
    ensures EmphasizeSelfAuthors(authors, formatter) == authors
  {
    ReplaceAbsent(authors, SelfAuthorVariants, formatter);
  }

  /** Every spelling begins with `T` or `H` and ends with `u`. */
  lemma VariantEnds()
    ensures forall k :: 0 <= k < |SelfAuthorVariants| ==>
      SelfAuthorVariants[k] != [] && SelfAuthorVariants[k][|SelfAuthorVariants[k]| - 1] == 'u'
      && (SelfAuthorVariants[k][0] == 'T' || SelfAuthorVariants[k][0] == 'H')
  {
  }

  /** No spelling begins another: a shorter spelling is never the start of a longer one. */
  lemma VariantsPrefixFree()
    ensures forall j, k ::
      (0 <= j < |SelfAuthorVariants| && 0 <= k < |SelfAuthorVariants| && |SelfAuthorVariants[k]| < |SelfAuthorVariants[j]|)
      ==> SelfAuthorVariants[j][..|SelfAuthorVariants[k]|] != SelfAuthorVariants[k]
  {
    var V := SelfAuthorVariants;
    forall j, k | 0 <= j < |V| && 0 <= k < |V| && |V[k]| < |V[j]|
      ensures V[j][..|V[k]|] != V[k]
    {
      if k == 4 {
        assert V[j][..|V[k]|][0] != V[k][0];
      } else if (k == 2 && j == 0) || (k == 3 && j == 1) {
        assert V[j][..|V[k]|][10] != V[k][10];
      } else {
        assert V[j][..|V[k]|][3] != V[k][3];
      }
    }
  }

  /** The spellings are pairwise different. */
  lemma VariantsDistinct()
    ensures forall j, k :: 0 <= j < k < |SelfAuthorVariants| ==> SelfAuthorVariants[j] != SelfAuthorVariants[k]
  {
  }

  /** At most one spelling occurs at any index of any text, so the order in which the pattern
      lists the spellings never decides a match. */
  lemma OneVariantAt(s: string, i: nat, j: nat, k: nat)
    requires j < |SelfAuthorVariants| && k < |SelfAuthorVariants|
    requires OccursAt(s, SelfAuthorVariants[j], i) && OccursAt(s, SelfAuthorVariants[k], i)
    ensures j == k
  {
    var V := SelfAuthorVariants;
    VariantsPrefixFree();
    VariantsDistinct();
  }

  /** The match at an index is the spelling that occurs there as a whole word, if any,
      whatever its place in the list. */
  lemma MatchAtIsTheSpelling(s: string, i: nat, v: string)
    requires i <= |s|
    ensures MatchAt(s, i, SelfAuthorVariants) == Some(v) <==> IsSelfAuthor(v) && WholeWordAt(s, i, v)
  {
    var V := SelfAuthorVariants;
    MatchAtFirst(s, i, V);
    if IsSelfAuthor(v) && WholeWordAt(s, i, v) {
      var k :| 0 <= k < |V| && V[k] == v;
      var m :| 0 <= m < |V| && V[m] == MatchAt(s, i, V).value && WholeWordAt(s, i, V[m]);
      OneVariantAt(s, i, m, k);
    }
  }

  /** A spelling directly followed by a word character has no word boundary after it, and no
      other spelling occurs in its place, so nothing matches there. */
  lemma SpellingNeedsWordEnd(v: string, x: string)
    requires IsSelfAuthor(v) && x != [] && IsWordChar(x[0])
    ensures MatchAt(v + x, 0, SelfAuthorVariants) == None
  {
    var V := SelfAuthorVariants;
    var s := v + x;
    var j :| 0 <= j < |V| && V[j] == v;
    VariantEnds();
    MatchAtFirst(s, 0, V);
    assert OccursAt(s, v, 0) by {
      assert s[0..|v|] == v;
    }
    assert s[|v| - 1] == v[|v| - 1] && s[|v|] == x[0];
    forall k | 0 <= k < |V| ensures !WholeWordAt(s, 0, V[k]) {
      if OccursAt(s, V[k], 0) {
        OneVariantAt(s, 0, j, k);
      }
    }
  }

  /** One spelling standing as a whole word between text free of `T` and `H` is emphasised
      and everything else is copied. */
  lemma EmphasizeBetween(a: string, k: nat, b: string, formatter: string -> string)
    requires k < |SelfAuthorVariants|
    requires 'T' !in a && 'H' !in a && 'T' !in b && 'H' !in b
    requires a == [] || !IsWordChar(a[|a| - 1])
    requires b == [] || !IsWordChar(b[0])
    ensures EmphasizeSelfAuthors(a + SelfAuthorVariants[k] + b, formatter) == a + formatter(SelfAuthorVariants[k]) + b
  {
    var V := SelfAuthorVariants;
    var s := a + V[k] + b;
    VariantEnds();
    assert OccursAt(s, V[k], |a|) by {
      assert s[|a|..|a| + |V[k]|] == V[k];
    }
    forall j | 0 <= j < k ensures !OccursAt(s, V[j], |a|) {
      if OccursAt(s, V[j], |a|) {
        OneVariantAt(s, |a|, j, k);
      }
    }
    ReplaceBetween(a, k, b, V, formatter);
  }

  /** The author test's list: the full name is emphasised as one unit, the rest copied. */
  lemma EmphasizeInList(formatter: string -> string)
    ensures EmphasizeSelfAuthors("Alice, " + "Tzu-Ming Harry Hsu" + ", Bob", formatter)
      == "Alice, " + formatter("Tzu-Ming Harry Hsu") + ", Bob"
  {
    EmphasizeBetween("Alice, ", 0, ", Bob", formatter);
  }

  /** A full name is emphasised whole, not around its tail `Harry Hsu`: the scan goes left to
      right and reaches the index where the full name starts before the one where its tail does. */
  lemma EmphasizeFullNameWhole(formatter: string -> string)
    ensures EmphasizeSelfAuthors("Tzu Ming Harry Hsu", formatter) == formatter("Tzu Ming Harry Hsu")
    ensures EmphasizeSelfAuthors("Tzu-Ming Harry Hsu", formatter) == formatter("Tzu-Ming Harry Hsu")
  {
    var V := SelfAuthorVariants;
    assert [] + V[0] + [] == V[0];
    assert [] + V[1] + [] == V[1];
    EmphasizeBetween([], 0, [], formatter);
    EmphasizeBetween([], 1, [], formatter);
  }

  /** The `H` of `Hsu` begins no spelling of the name in `Harry Hsu` followed by text. */
  lemma NoMatchAtSurname(x: string)
    requires 7 < |x|
    requires x[6] == 'H' && x[7] == 's'
    ensures MatchAt(x, 6, SelfAuthorVariants) == None
  {
    var V := SelfAuthorVariants;
    MatchAtFirst(x, 6, V);
    forall k | 0 <= k < |V| ensures !OccursAt(x, V[k], 6) {
      if 6 + |V[k]| <= |x| {
        if k < 4 {
          assert x[6..6 + |V[k]|][0] == 'H';
        } else {
          assert x[6..6 + |V[k]|][1] == 's';
        }
      }
    }
  }

  /** `Harry Hsu` followed by word characters (and no `T` or `H` that could begin another
      spelling) is not a whole word, and the text comes back unchanged. */
  lemma EmphasizeNeedsWordEnd(x: string, formatter: string -> string)
    requires x != [] && IsWordChar(x[0]) && 'T' !in x && 'H' !in x
    ensures EmphasizeSelfAuthors("Harry Hsu" + x, formatter) == "Harry Hsu" + x
  {
    var V := SelfAuthorVariants;
    var s := "Harry Hsu" + x;
    SpellingNeedsWordEnd("Harry Hsu", x);
    assert s[6] == 'H' && s[7] == 's';
    NoMatchAtSurname(s);
    forall m: nat | m < |s| ensures MatchAt(s, m, V) == None {
      if m != 0 && m != 6 {
        VariantEnds();
        if m >= 9 { assert s[m] == x[m - 9]; }
        NoMatchAtChar(s, m, V);
      }
    }
    ReplaceFromSkip(s, 0, |s|, V, formatter);
  }

  /** The checks the author tests make: the full name is recognised, other names are not. */
  lemma IsSelfAuthorExamples()
    ensures IsSelfAuthor("Tzu-Ming Harry Hsu") && IsSelfAuthor("Harry Hsu")
    ensures !IsSelfAuthor("Alice Smith") && !IsSelfAuthor("Hsu") && !IsSelfAuthor("harry hsu")
  {
  }

  /** Membership is exact: no spelling extended by further text is a spelling, so an author
      identifier with trailing text (a space, a suffix) is not recognised. */
  lemma IsSelfAuthorExtension(v: string, x: string)
    requires IsSelfAuthor(v) && x != []
    ensures !IsSelfAuthor(v + x)
  {
    VariantsPrefixFree();
    assert (v + x)[..|v|] == v;
  }
}
