/** The author lists of `src/components/publications/PublicationAuthors.tsx`: the parsing of an
    author string into names, the spans of the full list with the site owner's name in bold,
    and the preview that shows the first two names and counts the rest. */
module PublicationAuthors {
  import opened Wrappers
  import opened Seqs
  import opened Strings
  import Authors

  /** The spellings that are shown in bold. */
  const AuthorVariants: set<string> := {
    "Tzu-Ming Harry Hsu",
    "Tzu Ming Harry Hsu",
    "Tzu-Ming Hsu",
    "Tzu Ming Hsu",
    "Harry Hsu"
  }

  /** The set here and the list of the author helpers hold the same spellings. */
  lemma VariantsAgree()
    ensures forall v :: v in AuthorVariants <==> Authors.IsSelfAuthor(v)
  {
  }

  /** `AUTHOR_VARIANTS.has(author)`. */
  predicate IsSelf(author: string)
  {
    author in AuthorVariants
  }

  /** What the lists put between two names. */
  const NameSeparator: string := ", "

  /** `Boolean(part)` of a string: it is not empty. */
  predicate NonEmpty(s: string)
  {
    s != ""
  }

  /** `parts.map((part) => part.trim())`. */
  function TrimAll(parts: seq<string>): (r: seq<string>)
    ensures |r| == |parts| && forall i :: 0 <= i < |parts| ==> r[i] == Trim(parts[i])
  {
    Map(Trim, parts)
  }

  /** A name is a list entry: not empty, no white space at either end, no comma. */
  predicate IsEntry(s: string)
  {
    s != [] && !IsSpace(s[0]) && !IsSpace(s[|s| - 1]) && ',' !in s
  }

  /** The trimmed pieces of comma-free text that are not empty are list entries. */
  lemma TrimmedEntries(pieces: seq<string>)
    requires forall k :: 0 <= k < |pieces| ==> ',' !in pieces[k]
    ensures forall i :: 0 <= i < |Filter(NonEmpty, TrimAll(pieces))| ==> IsEntry(Filter(NonEmpty, TrimAll(pieces))[i])
  {
    var trimmed := TrimAll(pieces);
    var r := Filter(NonEmpty, trimmed);
    forall i | 0 <= i < |r| ensures IsEntry(r[i]) {
      var k :| 0 <= k < |trimmed| && trimmed[k] == r[i];
      TrimKeepsAbsent(pieces[k], ',');
    }
  }

  /** `parseAuthors(authors)`: split on commas, trim every part, drop the empty ones. Every
      name is a list entry, the names come in the order of the pieces, and each non-empty
      trimmed piece is kept as often as it occurs. */
  function ParseAuthors(authors: string): (r: seq<string>)
    ensures forall i :: 0 <= i < |r| ==> IsEntry(r[i])
    ensures IsSubsequence(r, TrimAll(Split(authors, ',')))
    ensures forall x :: multiset(r)[x] == if x != "" then multiset(TrimAll(Split(authors, ',')))[x] else 0
  {
    var pieces := TrimAll(Split(authors, ','));
    TrimmedEntries(Split(authors, ','));
    forall x ensures multiset(Filter(NonEmpty, pieces))[x] == if x != "" then multiset(pieces)[x] else 0 {
      FilterCount(NonEmpty, pieces, x);
    }
    Filter(NonEmpty, pieces)
  }

  /** Every piece between commas that is not blank is kept, trimmed. */
  lemma ParseKeepsNames(authors: string, k: nat)
    requires k < |Split(authors, ',')| && Trim(Split(authors, ',')[k]) != ""
    ensures Trim(Split(authors, ',')[k]) in ParseAuthors(authors)
  {
    assert TrimAll(Split(authors, ','))[k] == Trim(Split(authors, ',')[k]);
  }

  /** Filtering with a test every element passes keeps everything. */
  lemma {:induction false} FilterKeepsAll<T>(p: T -> bool, s: seq<T>)
    requires forall i :: 0 <= i < |s| ==> p(s[i])
    ensures Filter(p, s) == s
    decreases |s|
  {
    if s != [] {
      FilterKeepsAll(p, s[1..]);
    }
  }

  /** The `", "`-join of two or more names: the first, a comma, then a space before the rest. */
  lemma JoinCommaSpace(parts: seq<string>)
    requires |parts| > 1
    ensures Join(parts, NameSeparator) == parts[0] + [','] + ([' '] + Join(parts[1..], NameSeparator))
  {
  }

  /** A leading space joins the first piece of the split. */
  lemma SplitLeadingSpace(x: string)
    ensures Split([' '] + x, ',') == [[' '] + Split(x, ',')[0]] + Split(x, ',')[1..]
  {
    assert ([' '] + x)[1..] == x;
  }

  /** Trimming every piece of a list with a first piece in front. */
  lemma TrimAllCons(a: string, s: seq<string>)
    ensures TrimAll([a] + s) == [Trim(a)] + TrimAll(s)
  {
    MapCons(Trim, a, s);
  }

  /** The pieces of a name, a comma, a space and more text: the name, then the pieces of the
      rest with the space on the first of them. */
  lemma SplitAfterName(p0: string, x: string)
    requires ',' !in p0
    ensures Split(p0 + [','] + ([' '] + x), ',') == [p0] + ([[' '] + Split(x, ',')[0]] + Split(x, ',')[1..])
  {
    SplitAround(p0, ',', [' '] + x);
    SplitSingle(p0, ',');
    SplitLeadingSpace(x);
  }

  /** Mapping over a list whose first element is replaced by one with the same image. */
  lemma MapSameHead<T, U>(f: T -> U, x: T, s: seq<T>)
    requires s != [] && f(x) == f(s[0])
    ensures Map(f, [x] + s[1..]) == Map(f, s)
  {
    MapCons(f, x, s[1..]);
    MapCons(f, s[0], s[1..]);
    assert s == [s[0]] + s[1..];
  }

  /** Trimming pieces whose first one has a space in front: the space goes. */
  lemma TrimSpaceHead(s: seq<string>)
    requires s != []
    ensures TrimAll([[' '] + s[0]] + s[1..]) == TrimAll(s)
  {
    TrimLeadingSpace(' ', s[0]);
    MapSameHead(Trim, [' '] + s[0], s);
  }

  /** Trimming those pieces drops the space again and keeps the trimmed name. */
  lemma TrimAfterName(p0: string, s: seq<string>)
    requires Trim(p0) == p0 && s != []
    ensures TrimAll([p0] + ([[' '] + s[0]] + s[1..])) == [p0] + TrimAll(s)
  {
    var t := [[' '] + s[0]] + s[1..];
    MapCons(Trim, p0, t);
    TrimSpaceHead(s);
    assert TrimAll([p0] + t) == [Trim(p0)] + TrimAll(t);
  }

  /** Splitting the `", "`-join of entries on commas and trimming each piece gives the entries. */
  lemma {:induction false} TrimSplitJoin(parts: seq<string>)
    requires parts != [] && forall i :: 0 <= i < |parts| ==> IsEntry(parts[i])
    ensures TrimAll(Split(Join(parts, NameSeparator), ',')) == parts
    decreases |parts|
  {
    var p0 := parts[0];
    if |parts| == 1 {
      SplitSingle(p0, ',');
      TrimTrimmed(p0);
    } else {
      var x := Join(parts[1..], NameSeparator);
      TrimSplitJoin(parts[1..]);
      JoinCommaSpace(parts);
      SplitAfterName(p0, x);
      TrimTrimmed(p0);
      TrimAfterName(p0, Split(x, ','));
      assert parts == [p0] + parts[1..];
    }
  }

  /** Round trip: the names of the `", "`-join of a list of entries are that list. */
  lemma ParseJoin(parts: seq<string>)
    requires forall i :: 0 <= i < |parts| ==> IsEntry(parts[i])
    ensures ParseAuthors(Join(parts, NameSeparator)) == parts
  {
    if parts == [] {
      assert Split("", ',') == [""];
      assert Trim("") == "";
      assert TrimAll([""]) == [""];
    } else {
      TrimSplitJoin(parts);
      FilterKeepsAll(NonEmpty, parts);
    }
  }

  /** Parsing the list the full rendering shows gives back the same names. */
  lemma ParseNormalizes(authors: string)
    ensures ParseAuthors(Join(ParseAuthors(authors), NameSeparator)) == ParseAuthors(authors)
  {
    ParseJoin(ParseAuthors(authors));
  }

  /** One rendered name: bold or not, followed by its separator. */
  datatype AuthorSpan = AuthorSpan(name: string, strong: bool, suffix: string)

  /** The spans of `parts`: bold exactly for the owner's spellings, and `", "` after every name
      but the last. */
  function Spans(parts: seq<string>): (r: seq<AuthorSpan>)
    ensures |r| == |parts|
    ensures forall i :: 0 <= i < |parts| ==> r[i].name == parts[i] && (r[i].strong <==> IsSelf(parts[i]))
    ensures forall i :: 0 <= i < |parts| ==> r[i].suffix == if i < |parts| - 1 then NameSeparator else ""
  {
    seq(|parts|, i requires 0 <= i < |parts| =>
      AuthorSpan(parts[i], IsSelf(parts[i]), if i < |parts| - 1 then NameSeparator else ""))
  }

  /** The text the spans show, bold or not. */
  function SpanText(spans: seq<AuthorSpan>): string
    decreases |spans|
  {
    if spans == [] then "" else spans[0].name + spans[0].suffix + SpanText(spans[1..])
  }

  /** The spans read as the names joined with `", "`, with no trailing separator. */
  lemma {:induction false} SpanTextJoin(parts: seq<string>)
    ensures SpanText(Spans(parts)) == Join(parts, NameSeparator)
    decreases |parts|
  {
    if |parts| == 1 {
      assert Spans(parts)[1..] == [];
    } else if |parts| > 1 {
      SpanTextJoin(parts[1..]);
      assert Spans(parts)[1..] == Spans(parts[1..]);
    }
  }

  /** `PublicationAuthors`: the spans of the full list. */
  function PublicationAuthorSpans(authors: string): (r: seq<AuthorSpan>)
    ensures SpanText(r) == Join(ParseAuthors(authors), NameSeparator)
    ensures forall i :: 0 <= i < |r| ==> (r[i].strong <==> Authors.IsSelfAuthor(r[i].name))
  {
    SpanTextJoin(ParseAuthors(authors));
    VariantsAgree();
    Spans(ParseAuthors(authors))
  }

  /** How many names the preview shows. */
  const PreviewCount: nat := 2

  /** What the preview shows: the spans of the visible names, the number of hidden ones, and the
      `" +N more"` note when that number is positive. */
  datatype Preview = Preview(visible: seq<AuthorSpan>, hiddenCount: nat, more: Option<string>)

  /** The note for `n` hidden names. */
  function MoreNote(n: nat): string
  {
    " +" + NatToString(n) + " more"
  }

  /** The preview of the parsed names `parts`: the first `min(2, n)` names, and the count of the
      others. */
  function PreviewOf(parts: seq<string>): (r: Preview)
    ensures |r.visible| == (if |parts| < PreviewCount then |parts| else PreviewCount)
    ensures |r.visible| + r.hiddenCount == |parts|
    ensures forall i :: 0 <= i < |r.visible| ==> r.visible[i].name == parts[i]
    ensures SpanText(r.visible) == Join(parts[..|r.visible|], NameSeparator)
    ensures r.more.Some? <==> |parts| > PreviewCount
    ensures r.more.Some? ==> r.more.value == MoreNote(r.hiddenCount)
  {
    var visible := parts[..if |parts| < PreviewCount then |parts| else PreviewCount];
    var hidden := |parts| - |visible|;
    SpanTextJoin(visible);
    Preview(Spans(visible), hidden, if hidden > 0 then Some(MoreNote(hidden)) else None)
  }

  /** `PublicationAuthorPreview`: the preview of the parsed author string. */
  function PublicationAuthorPreview(authors: string): Preview
  {
    PreviewOf(ParseAuthors(authors))
  }

  /** With at most two names the preview is the full list and has no note; with more, it shows
      the first two spans of the full list, except that the second has no separator after it. */
  lemma PreviewAgainstFull(parts: seq<string>)
    ensures var p, full := PreviewOf(parts), Spans(parts);
      (|parts| <= PreviewCount ==> p.visible == full && p.more == None)
      && (|parts| > PreviewCount ==>
        p.visible[0] == full[0]
        && p.visible[1] == full[1].(suffix := "") && full[1].suffix == NameSeparator)
  {
    if |parts| <= PreviewCount {
      assert parts[..|parts|] == parts;
    }
  }

  /** The number in the note reads back as the number of hidden names. */
  lemma MoreNoteCount(n: nat)
    ensures var note := MoreNote(n); var digits := note[2..|note| - 5];
      (forall i :: 0 <= i < |digits| ==> IsDigit(digits[i])) && ParseNat(digits) == n
  {
    var note := MoreNote(n);
    assert note[2..|note| - 5] == NatToString(n);
    ParseNatToString(n);
  }
}
