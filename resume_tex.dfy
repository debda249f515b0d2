/** The pure part of the resume generator `scripts/generate-resume-tex.ts`: the `render*`
    builders that turn CV content into the LaTeX body of the resume. Each builder is split
    into a layout over already-escaped text and the escaping of the content's fields, so that
    the layout facts are proved once for any text. */
module ResumeTex {
  import opened Wrappers
  import opened Seqs
  import opened Strings
  import opened CvTypes
  import opened Latex
  import Authors

  /** The text holds no line break. */
  predicate OneLine(s: string)
  {
    '\n' !in s
  }

  /** Joining with a line break. */
  function Lines(parts: seq<string>): string
  {
    Join(parts, "\n")
  }

  /** The pieces of a text between its line breaks. */
  function LinesOf(s: string): seq<string>
  {
    Split(s, '\n')
  }

  /** One-line parts come back as the lines of their join, in order. */
  lemma LinesRoundTrip(parts: seq<string>)
    requires parts != []
    requires forall k :: 0 <= k < |parts| ==> OneLine(parts[k])
    ensures LinesOf(Lines(parts)) == parts
  {
    assert "\n" == ['\n'];
    SplitJoin(parts, '\n');
  }

  /** A line break splits a text into the lines before it and the lines after it. */
  lemma LinesAround(a: string, b: string)
    ensures LinesOf(a + "\n" + b) == LinesOf(a) + LinesOf(b)
  {
    assert "\n" == ['\n'];
    SplitAround(a, '\n', b);
  }

  /** A text without line breaks is one line. */
  lemma LinesSingle(s: string)
    requires OneLine(s)
    ensures LinesOf(s) == [s]
  {
    SplitSingle(s, '\n');
  }

  /** The lines of a join are the pieces of its parts, in order. */
  lemma LinesEach(parts: seq<string>)
    requires parts != []
    ensures LinesOf(Lines(parts)) == SplitEach(parts, '\n')
  {
    assert "\n" == ['\n'];
    SplitJoinEach(parts, '\n');
  }

  lemma SplitEachPair(a: string, b: string)
    ensures SplitEach([a, b], '\n') == LinesOf(a) + LinesOf(b)
  {
    assert [a, b][1..] == [b];
    assert [b][1..] == [];
  }

  /** The join of four parts, written out. */
  lemma JoinFour(a: string, b: string, c: string, d: string, sep: string)
    ensures Join([a, b, c, d], sep) == a + sep + (b + sep + (c + sep + d))
  {
    assert [a, b, c, d][1..] == [b, c, d];
    assert [b, c, d][1..] == [c, d];
    assert [c, d][1..] == [d];
    assert Join([c, d], sep) == c + sep + Join([d], sep);
  }

  /** Four parts on lines, the third of them of any shape. */
  lemma LinesFourMiddle(a: string, b: string, c: string, d: string)
    requires OneLine(a) && OneLine(b) && OneLine(d)
    ensures LinesOf(Lines([a, b, c, d])) == [a, b] + LinesOf(c) + [d]
  {
    LinesFour(a, b, c, d);
    LinesSingle(a);
    LinesSingle(b);
    LinesSingle(d);
  }

  /** Four parts on lines, the last of them of any shape. */
  lemma LinesFourLast(a: string, b: string, c: string, d: string)
    requires OneLine(a) && OneLine(b) && OneLine(c)
    ensures LinesOf(Lines([a, b, c, d])) == [a, b, c] + LinesOf(d)
  {
    LinesFour(a, b, c, d);
    LinesSingle(a);
    LinesSingle(b);
    LinesSingle(c);
  }

  /** Four parts on lines: the lines of each part, in order. */
  lemma LinesFour(a: string, b: string, c: string, d: string)
    ensures LinesOf(Lines([a, b, c, d])) == LinesOf(a) + LinesOf(b) + LinesOf(c) + LinesOf(d)
  {
    LinesEach([a, b, c, d]);
    assert [a, b, c, d] == [a, b] + [c, d];
    SplitEachAppend([a, b], [c, d], '\n');
    SplitEachPair(a, b);
    SplitEachPair(c, d);
  }

  // ----- detail lists -----

  const DetailListBegin: string := "    \\begin{resumeDetailItemList}"
  const DetailListEnd: string := "    \\end{resumeDetailItemList}"
  const DetailItemCommand: string := "      \\resumeDetailItem"

  lemma DetailLiterals()
    ensures OneLine(DetailListBegin) && OneLine(DetailListEnd) && OneLine(DetailItemCommand)
    ensures OneLine("[") && OneLine("]{") && OneLine("{") && OneLine("}")
  {
  }

  /** The label is truthy: present and not empty. */
  predicate HasLabel(d: DetailItem)
  {
    d.caption.Some? && d.caption.value != ""
  }

  /** `\resumeDetailItem[label]{text}` over escaped label and text. */
  function LabeledDetail(lab: string, text: string): string
  {
    DetailItemCommand + "[" + lab + "]{" + text + "}"
  }

  /** `\resumeDetailItem{text}` over escaped text. */
  function PlainDetail(text: string): string
  {
    DetailItemCommand + "{" + text + "}"
  }

  /** One detail line: the labeled form when the label is truthy, both parts escaped. */
  function DetailLine(d: DetailItem): string
  {
    if HasLabel(d) then LabeledDetail(EscapeLatex(d.caption.value), EscapeLatex(d.text))
    else PlainDetail(EscapeLatex(d.text))
  }

  function DetailLines(ds: seq<DetailItem>): seq<string>
  {
    seq(|ds|, i requires 0 <= i < |ds| => DetailLine(ds[i]))
  }

  /** The list environment around the detail lines. */
  function DetailList(lines: seq<string>): string
  {
    "\n" + DetailListBegin + "\n" + Lines(lines) + "\n" + DetailListEnd
  }

  /** `renderDetailItems`: nothing for no details, otherwise the list environment around one
      line per detail. */
  function RenderDetailItems(ds: seq<DetailItem>): (r: string)
    ensures r == "" <==> ds == []
  {
    if ds == [] then "" else DetailList(DetailLines(ds))
  }

  lemma LabeledDetailForm(lab: string, text: string)
    ensures StartsWith(LabeledDetail(lab, text), DetailItemCommand)
    ensures LabeledDetail(lab, text)[|DetailItemCommand|..] == "[" + lab + "]{" + text + "}"
  {
    var tail := "[" + lab + "]{" + text + "}";
    assert LabeledDetail(lab, text) == DetailItemCommand + tail;
  }

  lemma PlainDetailForm(text: string)
    ensures StartsWith(PlainDetail(text), DetailItemCommand)
    ensures PlainDetail(text)[|DetailItemCommand|..] == "{" + text + "}"
  {
    var tail := "{" + text + "}";
    assert PlainDetail(text) == DetailItemCommand + tail;
  }

  /** Every detail line starts with the command, which is followed by `[` exactly when the
      detail has a label; the bracket holds the escaped label and the braces the escaped text. */
  lemma DetailLineForm(d: DetailItem)
    ensures StartsWith(DetailLine(d), DetailItemCommand)
    ensures HasLabel(d) <==> DetailLine(d)[|DetailItemCommand|] == '['
    ensures HasLabel(d) ==>
      DetailLine(d)[|DetailItemCommand|..] == "[" + EscapeLatex(d.caption.value) + "]{" + EscapeLatex(d.text) + "}"
    ensures !HasLabel(d) ==> DetailLine(d)[|DetailItemCommand|..] == "{" + EscapeLatex(d.text) + "}"
  {
    if HasLabel(d) {
      LabeledDetailForm(EscapeLatex(d.caption.value), EscapeLatex(d.text));
    } else {
      PlainDetailForm(EscapeLatex(d.text));
    }
  }

  predicate DetailOneLine(d: DetailItem)
  {
    OneLine(d.text) && (d.caption.Some? ==> OneLine(d.caption.value))
  }

  predicate DetailsOneLine(ds: seq<DetailItem>)
  {
    forall i :: 0 <= i < |ds| ==> DetailOneLine(ds[i])
  }

  lemma LabeledDetailOneLine(lab: string, text: string)
    requires OneLine(lab) && OneLine(text)
    ensures OneLine(LabeledDetail(lab, text))
  {
    DetailLiterals();
  }

  lemma PlainDetailOneLine(text: string)
    requires OneLine(text)
    ensures OneLine(PlainDetail(text))
  {
    DetailLiterals();
  }

  lemma DetailLineOneLine(d: DetailItem)
    requires DetailOneLine(d)
    ensures OneLine(DetailLine(d))
  {
    EscapeLatexOneLine(d.text);
    if HasLabel(d) {
      EscapeLatexOneLine(d.caption.value);
      LabeledDetailOneLine(EscapeLatex(d.caption.value), EscapeLatex(d.text));
    } else {
      PlainDetailOneLine(EscapeLatex(d.text));
    }
  }

  lemma DetailLinesOneLine(ds: seq<DetailItem>)
    requires DetailsOneLine(ds)
    ensures forall k :: 0 <= k < |DetailLines(ds)| ==> OneLine(DetailLines(ds)[k])
  {
    forall k | 0 <= k < |DetailLines(ds)| ensures OneLine(DetailLines(ds)[k]) {
      DetailLineOneLine(ds[k]);
    }
  }

  /** The lines of `pre`, a detail list and `post`, when none of them breaks a line itself. */
  function BlockLines(pre: string, ds: seq<DetailItem>, post: string): seq<string>
  {
    if ds == [] then [pre + post] else [pre, DetailListBegin] + DetailLines(ds) + [DetailListEnd + post]
  }

  /** The newline join of a first text, a line, some lines and a last line with text after it. */
  lemma JoinAround(pre: string, begin: string, lines: seq<string>, end: string, post: string)
    requires lines != []
    ensures Lines([pre, begin] + lines + [end + post]) == pre + ("\n" + begin + "\n" + Lines(lines) + "\n" + end) + post
  {
    JoinAppend([pre, begin] + lines, [end + post], "\n");
    JoinAppend([pre, begin], lines, "\n");
    assert Join([pre, begin], "\n") == pre + "\n" + begin;
  }

  /** The list environment between one-line texts: the begin line, the given lines, the end line. */
  lemma DetailListLines(pre: string, lines: seq<string>, post: string)
    requires OneLine(pre) && OneLine(post) && lines != []
    requires forall k :: 0 <= k < |lines| ==> OneLine(lines[k])
    ensures LinesOf(pre + DetailList(lines) + post) == [pre, DetailListBegin] + lines + [DetailListEnd + post]
  {
    var last := DetailListEnd + post;
    var parts := [pre, DetailListBegin] + lines + [last];
    JoinAround(pre, DetailListBegin, lines, DetailListEnd, post);
    DetailLiterals();
    forall k | 0 <= k < |parts| ensures OneLine(parts[k]) {
      if 2 <= k < |parts| - 1 {
        assert parts[k] == lines[k - 2];
      }
    }
    LinesRoundTrip(parts);
  }

  /** A detail list between one-line texts puts the begin line, one line per detail in input
      order, and the end line on lines of their own; no details add no line. */
  lemma DetailItemsLines(pre: string, ds: seq<DetailItem>, post: string)
    requires OneLine(pre) && OneLine(post)
    requires DetailsOneLine(ds)
    ensures LinesOf(pre + RenderDetailItems(ds) + post) == BlockLines(pre, ds, post)
  {
    if ds == [] {
      assert pre + RenderDetailItems(ds) + post == pre + post;
      LinesSingle(pre + post);
    } else {
      DetailLinesOneLine(ds);
      DetailListLines(pre, DetailLines(ds), post);
    }
  }

  // ----- resume items -----

  const ResumeItemCommand: string := "  \\resumeItem"

  lemma ItemLiterals()
    ensures OneLine(ResumeItemCommand) && OneLine("    {") && OneLine("}{") && OneLine("}")
  {
  }

  /** `{left}{right}` over escaped fields. */
  function Fields(left: string, right: string): string
  {
    "    {" + left + "}{" + right + "}"
  }

  /** A line of two escaped header fields. */
  function FieldPair(left: string, right: string): string
  {
    Fields(EscapeLatex(left), EscapeLatex(right))
  }

  /** The body line: the body in braces. */
  function Braced(body: string): string
  {
    "    {" + body + "}"
  }

  /** The item: the command, two field lines, the body in braces. */
  function ItemLayout(first: string, second: string, body: string): string
  {
    Lines([ResumeItemCommand, first, second, Braced(body)])
  }

  /** `renderResumeItem`: the four header fields escaped, the body as it is given. */
  function RenderResumeItem(leftPrimary: string, rightPrimary: string, leftSecondary: string,
                            rightSecondary: string, body: string): string
  {
    ItemLayout(FieldPair(leftPrimary, rightPrimary), FieldPair(leftSecondary, rightSecondary), body)
  }

  lemma FieldPairOneLine(left: string, right: string)
    requires OneLine(left) && OneLine(right)
    ensures OneLine(FieldPair(left, right))
  {
    EscapeLatexOneLine(left);
    EscapeLatexOneLine(right);
    ItemLiterals();
  }

  lemma ItemLayoutLines(first: string, second: string, body: string)
    requires OneLine(first) && OneLine(second)
    ensures LinesOf(ItemLayout(first, second, body)) == [ResumeItemCommand, first, second] + LinesOf(Braced(body))
  {
    ItemLiterals();
    LinesFourLast(ResumeItemCommand, first, second, Braced(body));
  }

  /** Header fields without line breaks give the command line and two field lines of their
      own, then the lines of the body in braces. */
  lemma ResumeItemLines(leftPrimary: string, rightPrimary: string, leftSecondary: string,
                        rightSecondary: string, body: string)
    requires OneLine(leftPrimary) && OneLine(rightPrimary) && OneLine(leftSecondary) && OneLine(rightSecondary)
    ensures LinesOf(RenderResumeItem(leftPrimary, rightPrimary, leftSecondary, rightSecondary, body))
      == [ResumeItemCommand, FieldPair(leftPrimary, rightPrimary), FieldPair(leftSecondary, rightSecondary)]
         + LinesOf(Braced(body))
  {
    FieldPairOneLine(leftPrimary, rightPrimary);
    FieldPairOneLine(leftSecondary, rightSecondary);
    ItemLayoutLines(FieldPair(leftPrimary, rightPrimary), FieldPair(leftSecondary, rightSecondary), body);
  }

  /** A braced body is the empty braces with the body inserted before the closing brace. */
  lemma BracedInsert(head: string, body: string)
    ensures var e := head + Braced("");
      |e| > 0 && head + Braced(body) == e[..|e| - 1] + body + "}"
  {
    var e := head + Braced("");
    assert e == (head + "    {") + "}";
    assert e[..|e| - 1] == head + "    {";
  }

  lemma ItemLayoutBody(first: string, second: string, body: string)
    ensures var e := ItemLayout(first, second, "");
      |e| > 0 && ItemLayout(first, second, body) == e[..|e| - 1] + body + "}"
  {
    var sep := "\n";
    var head := ResumeItemCommand + sep + (first + sep + (second + sep));
    JoinFour(ResumeItemCommand, first, second, Braced(body), sep);
    JoinFour(ResumeItemCommand, first, second, Braced(""), sep);
    assert ItemLayout(first, second, body) == head + Braced(body);
    assert ItemLayout(first, second, "") == head + Braced("");
    BracedInsert(head, body);
  }

  /** The body goes in verbatim: the item is the item with an empty body, with the body
      inserted before its last character. */
  lemma ResumeItemBodyVerbatim(leftPrimary: string, rightPrimary: string, leftSecondary: string,
                               rightSecondary: string, body: string)
    ensures var e := RenderResumeItem(leftPrimary, rightPrimary, leftSecondary, rightSecondary, "");
      |e| > 0 &&
      RenderResumeItem(leftPrimary, rightPrimary, leftSecondary, rightSecondary, body) == e[..|e| - 1] + body + "}"
  {
    ItemLayoutBody(FieldPair(leftPrimary, rightPrimary), FieldPair(leftSecondary, rightSecondary), body);
  }

  // ----- the entries of each section -----

  /** `renderEducation`: institution and period, degree and location, the details as body. */
  function RenderEducation(item: EducationItem): string
  {
    RenderResumeItem(item.institution, item.period, item.degree, item.location, RenderDetailItems(item.details))
  }

  /** `renderExperience`: organization and period, role and location, the escaped summary
      followed by the highlights as body. */
  function RenderExperience(item: ExperienceItem): string
  {
    RenderResumeItem(item.organization, item.period, item.role, item.location,
      EscapeLatex(item.summary) + RenderDetailItems(item.highlights))
  }

  /** `renderLeadership`: organization and period, role and location, the highlights as body. */
  function RenderLeadership(item: LeadershipItem): string
  {
    RenderResumeItem(item.organization, item.period, item.role, item.location, RenderDetailItems(item.highlights))
  }

  /** `renderAward`: title and year, event and location, the details as body. */
  function RenderAward(item: AwardItem): string
  {
    RenderResumeItem(item.title, IntToString(item.year), item.event, item.location, RenderDetailItems(item.details))
  }

  /** An education entry: three header lines, then its details on lines of their own. */
  lemma EducationLines(item: EducationItem)
    requires OneLine(item.institution) && OneLine(item.period) && OneLine(item.degree) && OneLine(item.location)
    requires DetailsOneLine(item.details)
    ensures LinesOf(RenderEducation(item))
      == [ResumeItemCommand, FieldPair(item.institution, item.period), FieldPair(item.degree, item.location)]
         + BlockLines("    {", item.details, "}")
  {
    ResumeItemLines(item.institution, item.period, item.degree, item.location, RenderDetailItems(item.details));
    ItemLiterals();
    DetailItemsLines("    {", item.details, "}");
  }

  /** An experience entry: three header lines, the escaped summary opening the body line,
      then the highlights on lines of their own. */
  lemma ExperienceLines(item: ExperienceItem)
    requires OneLine(item.organization) && OneLine(item.period) && OneLine(item.role) && OneLine(item.location)
    requires OneLine(item.summary) && DetailsOneLine(item.highlights)
    ensures LinesOf(RenderExperience(item))
      == [ResumeItemCommand, FieldPair(item.organization, item.period), FieldPair(item.role, item.location)]
         + BlockLines("    {" + EscapeLatex(item.summary), item.highlights, "}")
  {
    var summary := EscapeLatex(item.summary);
    ResumeItemLines(item.organization, item.period, item.role, item.location,
      summary + RenderDetailItems(item.highlights));
    EscapeLatexOneLine(item.summary);
    SummaryBodyLines(summary, item.highlights);
  }

  /** A one-line summary followed by a detail list, in braces. */
  lemma SummaryBodyLines(summary: string, ds: seq<DetailItem>)
    requires OneLine(summary) && DetailsOneLine(ds)
    ensures LinesOf(Braced(summary + RenderDetailItems(ds))) == BlockLines("    {" + summary, ds, "}")
  {
    ItemLiterals();
    assert Braced(summary + RenderDetailItems(ds)) == ("    {" + summary) + RenderDetailItems(ds) + "}";
    DetailItemsLines("    {" + summary, ds, "}");
  }

  /** A leadership entry: three header lines, then its highlights on lines of their own. */
  lemma LeadershipLines(item: LeadershipItem)
    requires OneLine(item.organization) && OneLine(item.period) && OneLine(item.role) && OneLine(item.location)
    requires DetailsOneLine(item.highlights)
    ensures LinesOf(RenderLeadership(item))
      == [ResumeItemCommand, FieldPair(item.organization, item.period), FieldPair(item.role, item.location)]
         + BlockLines("    {", item.highlights, "}")
  {
    ResumeItemLines(item.organization, item.period, item.role, item.location, RenderDetailItems(item.highlights));
    ItemLiterals();
    DetailItemsLines("    {", item.highlights, "}");
  }

  /** `String(n)` is one line. */
  lemma IntToStringOneLine(n: int)
    ensures OneLine(IntToString(n))
  {
    var d := NatToString(if n < 0 then -n else n);
    assert '\n' !in d by {
      assert forall i :: 0 <= i < |d| ==> IsDigit(d[i]);
    }
  }

  /** An award: title and year, event and location, then its details on lines of their own. */
  lemma AwardLines(item: AwardItem)
    requires OneLine(item.title) && OneLine(item.event) && OneLine(item.location)
    requires DetailsOneLine(item.details)
    ensures LinesOf(RenderAward(item))
      == [ResumeItemCommand, FieldPair(item.title, IntToString(item.year)), FieldPair(item.event, item.location)]
         + BlockLines("    {", item.details, "}")
  {
    IntToStringOneLine(item.year);
    ResumeItemLines(item.title, IntToString(item.year), item.event, item.location, RenderDetailItems(item.details));
    ItemLiterals();
    DetailItemsLines("    {", item.details, "}");
  }

  // ----- publications -----

  const CitedBy: string := "Cited by "

  /** The citation field: `Cited by N` for a present, non-zero (truthy) count, nothing otherwise. */
  function CitationText(count: Option<int>): (r: string)
    ensures r == "" <==> count.None? || count.value == 0
    ensures r != "" ==> StartsWith(r, CitedBy) && r[|CitedBy|..] == IntToString(count.value)
  {
    if count.Some? && count.value != 0 then CitedBy + IntToString(count.value) else ""
  }

  /** A positive count can be read back from its citation text. */
  lemma CitationRoundTrip(n: nat)
    requires n > 0
    ensures var r := CitationText(Some(n));
      StartsWith(r, CitedBy) && (forall i :: |CitedBy| <= i < |r| ==> IsDigit(r[i]))
      && ParseNat(r[|CitedBy|..]) == n
  {
    var r := CitationText(Some(n));
    assert r[|CitedBy|..] == NatToString(n);
    ParseNatToString(n);
  }

  /** `{\scriptsize …}` around the author line. */
  function ScriptSize(text: string): string
  {
    "{\\scriptsize " + text + "}"
  }

  /** The author line: the authors escaped first, then the site owner's name put in bold. */
  function AuthorBlock(authors: string): string
  {
    ScriptSize(HighlightSelfInAuthors(EscapeLatex(authors)))
  }

  /** `renderPublication`: title and year, venue and citation text, the author line as body. */
  function RenderPublication(item: PublicationItem): string
  {
    RenderResumeItem(item.title, IntToString(item.year), item.venue, CitationText(item.citationCount),
      AuthorBlock(item.authors))
  }

  /** A publication: three header lines, then the lines of its author block. */
  lemma PublicationLines(item: PublicationItem)
    requires OneLine(item.title) && OneLine(item.venue)
    ensures LinesOf(RenderPublication(item))
      == [ResumeItemCommand, FieldPair(item.title, IntToString(item.year)),
          FieldPair(item.venue, CitationText(item.citationCount))]
         + LinesOf(Braced(AuthorBlock(item.authors)))
  {
    IntToStringOneLine(item.year);
    var c := CitationText(item.citationCount);
    assert OneLine(c) by {
      if c != "" {
        IntToStringOneLine(item.citationCount.value);
        assert OneLine(CitedBy);
        assert c == CitedBy + IntToString(item.citationCount.value);
      }
    }
    ResumeItemLines(item.title, IntToString(item.year), item.venue, c, AuthorBlock(item.authors));
  }

  /** Plain text around one spelling of the name is left alone by the escape. */
  lemma EscapeAroundName(a: string, k: nat, b: string)
    requires k < |HighlightNames|
    requires forall i :: 0 <= i < |a| ==> !IsReserved(a[i])
    requires forall i :: 0 <= i < |b| ==> !IsReserved(b[i])
    requires 'L' !in a && 'L' !in b
    ensures EscapeLatex(a + HighlightNames[k] + b) == a + HighlightNames[k] + b
  {
    var v := HighlightNames[k];
    assert 'L' !in v;
    EscapeKeepsNames(k);
    EscapeLatexAppend(a, v);
    EscapeLatexAppend(a + v, b);
    PlaceholderFacts();
    AbsentFirstChar(a, Placeholder);
    AbsentFirstChar(b, Placeholder);
    EscapeLatexPlain(a);
    EscapeLatexPlain(b);
  }

  /** One spelling of the name between text free of the letters other spellings begin with
      is put in bold, the rest copied. */
  lemma HighlightBetween(a: string, k: nat, b: string)
    requires k < |HighlightNames|
    requires 'T' !in a && 'H' !in a && 'T' !in b && 'H' !in b
    requires a == [] || !IsWordChar(a[|a| - 1])
    requires b == [] || !IsWordChar(b[0])
    ensures HighlightSelfInAuthors(a + HighlightNames[k] + b) == a + Bold(HighlightNames[k]) + b
  {
    HighlightIsEmphasis(a + HighlightNames[k] + b);
    Authors.EmphasizeBetween(a, k, b, Bold);
  }

  /** Authors are escaped before the name is highlighted, so the inserted `\textbf{…}` stays
      markup: an author list with one spelling of the name between plain text gets that
      spelling in bold and keeps the rest as it is. */
  lemma AuthorBlockBold(a: string, k: nat, b: string)
    requires k < |HighlightNames|
    requires forall i :: 0 <= i < |a| ==> !IsReserved(a[i])
    requires forall i :: 0 <= i < |b| ==> !IsReserved(b[i])
    requires 'L' !in a && 'L' !in b
    requires 'T' !in a && 'H' !in a && 'T' !in b && 'H' !in b
    requires a == [] || !IsWordChar(a[|a| - 1])
    requires b == [] || !IsWordChar(b[0])
    ensures AuthorBlock(a + HighlightNames[k] + b) == ScriptSize(a + Bold(HighlightNames[k]) + b)
  {
    EscapeAroundName(a, k, b);
    HighlightBetween(a, k, b);
  }

  // ----- header -----

  /** The first contact with the given label (`find`). */
  function FindContact(contacts: seq<ContactItem>, caption: string): (r: Option<ContactItem>)
    ensures r.Some? ==> r.value in contacts && r.value.caption == caption
    ensures r.None? <==> forall i :: 0 <= i < |contacts| ==> contacts[i].caption != caption
    ensures forall i ::
      (0 <= i < |contacts| && contacts[i].caption == caption && forall j :: 0 <= j < i ==> contacts[j].caption != caption)
      ==> r == Some(contacts[i])
    decreases |contacts|
  {
    if contacts == [] then None
    else if contacts[0].caption == caption then Some(contacts[0])
    else FindContact(contacts[1..], caption)
  }

  /** `contact?.value`, a missing contact read as the empty (falsy) value. */
  function ValueOf(contact: Option<ContactItem>): string
  {
    if contact.Some? then contact.value.value else ""
  }

  const MailtoScheme: string := "mailto:"

  /** `emailContact?.href ?? "mailto:" + (emailContact?.value ?? "")`: a present href, even an
      empty one, is kept; otherwise a mail link to the value. */
  function EmailHref(email: Option<ContactItem>): (r: string)
    ensures email.Some? && email.value.href.Some? ==> r == email.value.href.value
    ensures email.None? || email.value.href.None? ==> StartsWith(r, MailtoScheme) && r[|MailtoScheme|..] == ValueOf(email)
  {
    if email.Some? && email.value.href.Some? then email.value.href.value else MailtoScheme + ValueOf(email)
  }

  predicate NonEmpty(s: string)
  {
    s != ""
  }

  const PhoneSeparator: string := " / "

  /** `[usPhone?.value, twPhone?.value].filter(Boolean).join(" / ")`. */
  function PhoneLine(us: Option<ContactItem>, tw: Option<ContactItem>): string
  {
    Join(Filter(NonEmpty, [ValueOf(us), ValueOf(tw)]), PhoneSeparator)
  }

  /** The phone line holds the non-empty phone values, US first, with the separator only
      between two of them. */
  lemma PhoneLineCases(us: Option<ContactItem>, tw: Option<ContactItem>)
    ensures var u, t, r := ValueOf(us), ValueOf(tw), PhoneLine(us, tw);
      && (u == "" && t == "" ==> r == "")
      && (u != "" && t == "" ==> r == u)
      && (u == "" && t != "" ==> r == t)
      && (u != "" && t != "" ==> r == u + PhoneSeparator + t)
  {
    var u, t := ValueOf(us), ValueOf(tw);
    assert [u, t][1..] == [t];
    assert [t][1..] == [];
    var rest := Filter(NonEmpty, [t]);
    assert rest == if t != "" then [t] else [];
    assert Filter(NonEmpty, [u, t]) == if u != "" then [u] + rest else rest;
    if u != "" && t != "" {
      assert [u] + [t] == [u, t];
      assert Join([u, t], PhoneSeparator) == u + PhoneSeparator + Join([t], PhoneSeparator);
    }
  }

  const EmailCaption: string := "Email"
  const UsPhoneCaption: string := "US Phone"
  const TwPhoneCaption: string := "TW Phone"

  /** One summary bullet: `\resumeDetailItem{…}` around the escaped bullet. */
  function BulletLine(bullet: string): string
  {
    "  \\resumeDetailItem{" + EscapeLatex(bullet) + "}"
  }

  function BulletLines(bullets: seq<string>): seq<string>
  {
    seq(|bullets|, i requires 0 <= i < |bullets| => BulletLine(bullets[i]))
  }

  /** The name line: the name in large type. */
  function NameLine(name: string): string
  {
    "  {\\LARGE " + name + "} \\\\"
  }

  /** The native-name line: the name between the CJK commands. */
  function NativeNameLine(nativeName: string): string
  {
    "  \\begin{CJK*}{UTF8}{bkai} " + nativeName + " \\end{CJK*}"
  }

  /** The headline and the mail link. */
  function MailLine(headline: string, href: string, email: string): string
  {
    "  {" + headline + "}{\\href{" + href + "}{" + email + "}}"
  }

  /** The tagline and the phone line. */
  function PhoneRow(tagline: string, phone: string): string
  {
    "  {" + tagline + "}{" + phone + "}"
  }

  /** The header's lines over its prepared parts. */
  function HeaderLayout(name: string, nativeName: string, headline: string, href: string, email: string,
                        tagline: string, phone: string, bullets: string): seq<string>
  {
    [ "\\begin{center}",
      NameLine(name),
      "  \\vspace{4pt}",
      NativeNameLine(nativeName),
      "\\end{center}",
      "",
      "\\begin{resumeItemList}[0in]",
      "  \\resumeItem[\\textwidth][0.50\\textwidth]",
      MailLine(headline, href, email),
      PhoneRow(tagline, phone),
      "  {}",
      "\\end{resumeItemList}",
      "",
      "\\begin{resumeDetailItemList}",
      bullets,
      "\\end{resumeDetailItemList}" ]
  }

  /** The lines of `renderHeader`, read from the profile: the e-mail contact and the US and TW
      phone contacts found by label, every text escaped except the native name and the mail
      link, the summary bullets joined line by line. */
  function HeaderLines(p: Profile): seq<string>
  {
    var email := FindContact(p.contacts, EmailCaption);
    var phone := PhoneLine(FindContact(p.contacts, UsPhoneCaption), FindContact(p.contacts, TwPhoneCaption));
    HeaderLayout(EscapeLatex(p.name), p.nativeName, EscapeLatex(p.headline), EmailHref(email),
      EscapeLatex(ValueOf(email)), EscapeLatex(p.tagline), EscapeLatex(phone),
      Lines(BulletLines(p.summaryBullets)))
  }

  /** `renderHeader`. */
  function RenderHeader(p: Profile): string
  {
    Lines(HeaderLines(p))
  }

  /** Where each prepared part sits among the header's lines. */
  lemma HeaderLayoutSlots(name: string, nativeName: string, headline: string, href: string, email: string,
                          tagline: string, phone: string, bullets: string)
    ensures var h := HeaderLayout(name, nativeName, headline, href, email, tagline, phone, bullets);
      |h| == 16 && h[1] == NameLine(name) && h[3] == NativeNameLine(nativeName)
      && h[8] == MailLine(headline, href, email) && h[9] == PhoneRow(tagline, phone) && h[14] == bullets
  {
  }

  /** The header's lines from the profile: the escaped name, the native name exactly as given
      (the one text that is not escaped), the mail link to the e-mail contact, the escaped
      phone line, and the bullets. */
  lemma HeaderProfileLines(p: Profile)
    ensures var h, email := HeaderLines(p), FindContact(p.contacts, EmailCaption);
      |h| == 16 && h[1] == NameLine(EscapeLatex(p.name)) && h[3] == NativeNameLine(p.nativeName)
      && h[8] == MailLine(EscapeLatex(p.headline), EmailHref(email), EscapeLatex(ValueOf(email)))
      && h[9] == PhoneRow(EscapeLatex(p.tagline),
           EscapeLatex(PhoneLine(FindContact(p.contacts, UsPhoneCaption), FindContact(p.contacts, TwPhoneCaption))))
      && h[14] == Lines(BulletLines(p.summaryBullets))
  {
    var email := FindContact(p.contacts, EmailCaption);
    var phone := PhoneLine(FindContact(p.contacts, UsPhoneCaption), FindContact(p.contacts, TwPhoneCaption));
    HeaderLayoutSlots(EscapeLatex(p.name), p.nativeName, EscapeLatex(p.headline), EmailHref(email),
      EscapeLatex(ValueOf(email)), EscapeLatex(p.tagline), EscapeLatex(phone),
      Lines(BulletLines(p.summaryBullets)));
  }

  // ----- sections and the document -----

  const ItemListBegin: string := "\\begin{resumeItemList}"
  const ItemListEnd: string := "\\end{resumeItemList}"

  /** `\section{title}`. */
  function SectionHeading(title: string): string
  {
    "\\section{" + title + "}"
  }

  /** `renderSection`: the title as given (already LaTeX), then the body in an item list. */
  function RenderSection(title: string, body: string): string
  {
    Lines([SectionHeading(title), ItemListBegin, body, ItemListEnd])
  }

  lemma SectionLiterals()
    ensures OneLine("\\section{") && OneLine("}") && OneLine(ItemListBegin) && OneLine(ItemListEnd)
  {
  }

  /** The lines of a section: its heading, the list's begin line, the body's lines, the end line. */
  function SectionLinesOf(title: string, body: string): seq<string>
  {
    [SectionHeading(title), ItemListBegin] + LinesOf(body) + [ItemListEnd]
  }

  /** The heading of a one-line title is one line. */
  lemma SectionHeadingOneLine(title: string)
    requires OneLine(title)
    ensures OneLine(SectionHeading(title))
  {
    SectionLiterals();
  }

  /** A section is its heading line, the list's begin line, the body's lines and the end line. */
  lemma SectionLines(title: string, body: string)
    requires OneLine(title)
    ensures LinesOf(RenderSection(title, body)) == SectionLinesOf(title, body)
  {
    SectionHeadingOneLine(title);
    SectionLiterals();
    LinesFourMiddle(SectionHeading(title), ItemListBegin, body, ItemListEnd);
  }

  /** The entries of a section, a blank line between neighbours. */
  function JoinEntries(entries: seq<string>): string
  {
    Join(entries, "\n\n")
  }

  const EducationTitle: string := "Education"
  const ExperienceTitle: string := "Professional Experience"
  const LeadershipTitle: string := "Leadership Experiences"
  const AwardsTitle: string := "Awards \\& Honors"
  const PublicationsTitle: string := "Academic Publications"
  const PageBreak: string := "\\newpage"

  lemma TitleLiterals()
    ensures OneLine(EducationTitle) && OneLine(ExperienceTitle) && OneLine(LeadershipTitle)
    ensures OneLine(AwardsTitle) && OneLine(PublicationsTitle) && OneLine(PageBreak)
  {
  }

  function EducationBody(c: CvContent): string
  {
    JoinEntries(seq(|c.education|, i requires 0 <= i < |c.education| => RenderEducation(c.education[i])))
  }

  function ExperienceBody(c: CvContent): string
  {
    JoinEntries(seq(|c.experience|, i requires 0 <= i < |c.experience| => RenderExperience(c.experience[i])))
  }

  function LeadershipBody(c: CvContent): string
  {
    JoinEntries(seq(|c.leadership|, i requires 0 <= i < |c.leadership| => RenderLeadership(c.leadership[i])))
  }

  function AwardsBody(c: CvContent): string
  {
    JoinEntries(seq(|c.awards|, i requires 0 <= i < |c.awards| => RenderAward(c.awards[i])))
  }

  function PublicationsBody(c: CvContent): string
  {
    JoinEntries(seq(|c.publications|, i requires 0 <= i < |c.publications| => RenderPublication(c.publications[i])))
  }

  /** The document over its five section bodies. */
  function DocumentLayout(header: string, education: string, experience: string, leadership: string,
                          awards: string, publications: string): string
  {
    Lines([ header, "",
            RenderSection(EducationTitle, education), "",
            RenderSection(ExperienceTitle, experience), "",
            RenderSection(LeadershipTitle, leadership), "",
            RenderSection(AwardsTitle, awards), "",
            PageBreak, "",
            RenderSection(PublicationsTitle, publications) ])
  }

  /** `renderDocumentContent`. */
  function RenderDocumentContent(c: CvContent): string
  {
    DocumentLayout(RenderHeader(c.profile), EducationBody(c), ExperienceBody(c), LeadershipBody(c),
      AwardsBody(c), PublicationsBody(c))
  }

  /** The fixed section order over any header and bodies. */
  lemma DocumentLayoutLines(header: string, education: string, experience: string, leadership: string,
                            awards: string, publications: string)
    ensures LinesOf(DocumentLayout(header, education, experience, leadership, awards, publications))
      == LinesOf(header) + ([""]
         + (SectionLinesOf(EducationTitle, education) + ([""]
         + (SectionLinesOf(ExperienceTitle, experience) + ([""]
         + (SectionLinesOf(LeadershipTitle, leadership) + ([""]
         + (SectionLinesOf(AwardsTitle, awards) + ([""] + ([PageBreak] + ([""]
         + SectionLinesOf(PublicationsTitle, publications))))))))))))
  {
    TitleLiterals();
    SectionLines(EducationTitle, education);
    SectionLines(ExperienceTitle, experience);
    SectionLines(LeadershipTitle, leadership);
    SectionLines(AwardsTitle, awards);
    SectionLines(PublicationsTitle, publications);
    LinesSingle("");
    LinesSingle(PageBreak);
    var parts := [header, "",
      RenderSection(EducationTitle, education), "",
      RenderSection(ExperienceTitle, experience), "",
      RenderSection(LeadershipTitle, leadership), "",
      RenderSection(AwardsTitle, awards), "",
      PageBreak, "",
      RenderSection(PublicationsTitle, publications)];
    ThirteenPieces(parts);
  }

  /** The pieces of the first part of a list, then the pieces of the rest. */
  lemma SplitEachFrom(p: seq<string>, k: nat)
    requires k < |p|
    ensures SplitEach(p[k..], '\n') == LinesOf(p[k]) + SplitEach(p[k + 1..], '\n')
  {
    assert p[k..][0] == p[k] && p[k..][1..] == p[k + 1..];
  }

  /** The pieces of three parts of a list, then the pieces of the rest. */
  lemma PiecesFromThree(p: seq<string>, k: nat)
    requires k + 3 <= |p|
    ensures SplitEach(p[k..], '\n')
      == LinesOf(p[k]) + (LinesOf(p[k + 1]) + (LinesOf(p[k + 2]) + SplitEach(p[k + 3..], '\n')))
  {
    SplitEachFrom(p, k);
    SplitEachFrom(p, k + 1);
    SplitEachFrom(p, k + 2);
  }

  /** The lines of thirteen parts, over any parts. */
  lemma ThirteenPieces(p: seq<string>)
    requires |p| == 13
    ensures LinesOf(Lines(p))
      == LinesOf(p[0]) + (LinesOf(p[1]) + (LinesOf(p[2]) + (LinesOf(p[3]) + (LinesOf(p[4]) + (LinesOf(p[5])
         + (LinesOf(p[6]) + (LinesOf(p[7]) + (LinesOf(p[8]) + (LinesOf(p[9]) + (LinesOf(p[10]) + (LinesOf(p[11])
         + LinesOf(p[12]))))))))))))
  {
    LinesEach(p);
    assert p[0..] == p;
    PiecesFromThree(p, 0);
    PiecesFromThree(p, 3);
    PiecesFromThree(p, 6);
    PiecesFromThree(p, 9);
    SplitEachFrom(p, 12);
    assert p[13..] == [];
    assert LinesOf(p[12]) + [] == LinesOf(p[12]);
  }

  /** The resume body: the header's lines, then Education, Professional Experience,
      Leadership Experiences and Awards \& Honors, a page break, and Academic Publications,
      an empty line between neighbours. */
  lemma DocumentSectionOrder(c: CvContent)
    ensures LinesOf(RenderDocumentContent(c))
      == LinesOf(RenderHeader(c.profile)) + ([""]
         + (SectionLinesOf(EducationTitle, EducationBody(c)) + ([""]
         + (SectionLinesOf(ExperienceTitle, ExperienceBody(c)) + ([""]
         + (SectionLinesOf(LeadershipTitle, LeadershipBody(c)) + ([""]
         + (SectionLinesOf(AwardsTitle, AwardsBody(c)) + ([""] + ([PageBreak] + ([""]
         + SectionLinesOf(PublicationsTitle, PublicationsBody(c)))))))))))))
  {
    DocumentLayoutLines(RenderHeader(c.profile), EducationBody(c), ExperienceBody(c), LeadershipBody(c),
      AwardsBody(c), PublicationsBody(c));
  }

  // ----- the template splice -----

  /** The placeholder line of the resume template. */
  const ContentMarker: string := "%%__GENERATED_CONTENT__%%"

  lemma MarkerFacts()
    ensures |ContentMarker| == 25 && ContentMarker[0] == '%'
  {
  }

  /** The replacement text of `String.prototype.replace` with a string pattern (the
      GetSubstitution step of section 22.1.3.19.1 of ECMA-262): `$$` is a dollar sign, `$&`
      the matched text, `` $` `` the text before the match, `$'` the text after it; a string
      pattern has no captures, so `$1` or `$<` stay as they are, like every other character. */
  function Substitute(rep: string, matched: string, before: string, after: string): (r: string)
    ensures '$' !in rep ==> r == rep
    decreases |rep|
  {
    if rep == [] then []
    else if rep[0] == '$' && |rep| >= 2 && rep[1] == '$' then "$" + Substitute(rep[2..], matched, before, after)
    else if rep[0] == '$' && |rep| >= 2 && rep[1] == '&' then matched + Substitute(rep[2..], matched, before, after)
    else if rep[0] == '$' && |rep| >= 2 && rep[1] == '`' then before + Substitute(rep[2..], matched, before, after)
    else if rep[0] == '$' && |rep| >= 2 && rep[1] == '\'' then after + Substitute(rep[2..], matched, before, after)
    else
      assert rep == [rep[0]] + rep[1..];
      [rep[0]] + Substitute(rep[1..], matched, before, after)
  }

  /** The four patterns of a string-pattern replacement, each on its own. */
  lemma SubstitutePatterns(matched: string, before: string, after: string)
    ensures Substitute("$$", matched, before, after) == "$"
    ensures Substitute("$&", matched, before, after) == matched
    ensures Substitute("$`", matched, before, after) == before
    ensures Substitute("$'", matched, before, after) == after
  {
    assert "$$"[2..] == [] && "$&"[2..] == [] && "$`"[2..] == [] && "$'"[2..] == [];
    assert Substitute([], matched, before, after) == [];
  }

  /** `template.replace("%%__GENERATED_CONTENT__%%", content)` as written: the first marker
      is replaced, by the content read as a replacement pattern. */
  function SpliceAsWritten(template: string, content: string): (r: string)
    ensures !Contains(template, ContentMarker) ==> r == template
    ensures forall i: nat ::
      (OccursAt(template, ContentMarker, i) && (forall j: nat :: j < i ==> !OccursAt(template, ContentMarker, j)))
      ==> (r == template[..i] + Substitute(content, ContentMarker, template[..i], template[i + |ContentMarker|..])
             + template[i + |ContentMarker|..])
  {
    match IndexOf(template, ContentMarker)
    case None => template
    case Some(i) =>
      FirstMarker(template, i);
      var before, after := template[..i], template[i + |ContentMarker|..];
      before + Substitute(content, ContentMarker, before, after) + after
  }

  /** The index of the first marker is the only index where a marker occurs with none before it. */
  lemma FirstMarker(template: string, k: nat)
    requires IndexOf(template, ContentMarker) == Some(k)
    ensures forall i: nat ::
      (OccursAt(template, ContentMarker, i) && (forall j: nat :: j < i ==> !OccursAt(template, ContentMarker, j)))
      ==> i == k
  {
  }

  /** The splice the generator means, the corrected form of `SpliceAsWritten`: the first
      marker is replaced by the content verbatim; a template without the marker is left
      unchanged. */
  function Splice(template: string, content: string): (r: string)
    ensures !Contains(template, ContentMarker) ==> r == template
    ensures forall i: nat ::
      (OccursAt(template, ContentMarker, i) && (forall j: nat :: j < i ==> !OccursAt(template, ContentMarker, j)))
      ==> r == template[..i] + content + template[i + |ContentMarker|..]
  {
    match IndexOf(template, ContentMarker)
    case None => template
    case Some(i) => template[..i] + content + template[i + |ContentMarker|..]
  }

  /** Content without a dollar sign splices the same as written and as meant. */
  lemma SpliceAgrees(template: string, content: string)
    requires '$' !in content
    ensures SpliceAsWritten(template, content) == Splice(template, content)
  {
  }

  /** A pattern whose first character is not in `a` is first found right after `a`. */
  lemma FirstFoundAfter(a: string, p: string, b: string)
    requires p != [] && p[0] !in a
    ensures IndexOf(a + p + b, p) == Some(|a|)
  {
    var s := a + p + b;
    assert s[|a|..|a| + |p|] == p;
    assert OccursAt(s, p, |a|);
    var r := IndexOf(s, p);
    assert r.Some?;

  }

  /** Only the first marker is replaced: markers in the text after it are kept. */
  lemma SpliceFirstOnly(a: string, b: string, content: string)
    requires '%' !in a
    ensures Splice(a + ContentMarker + b, content) == a + content + b
  {
    MarkerFacts();
    FirstFoundAfter(a, ContentMarker, b);
    var t := a + ContentMarker + b;
    assert t[..|a|] == a && t[|a| + |ContentMarker|..] == b;
  }

  /** The content `$'` is spliced as written into the text after the marker, and as meant
      into itself. */
  lemma SpliceDollarQuote(a: string, b: string)
    requires '%' !in a
    ensures SpliceAsWritten(a + ContentMarker + b, "$'") == a + b + b
    ensures Splice(a + ContentMarker + b, "$'") == a + "$'" + b
  {
    MarkerFacts();
    FirstFoundAfter(a, ContentMarker, b);
    var t := a + ContentMarker + b;
    assert t[..|a|] == a && t[|a| + |ContentMarker|..] == b;
    SubstitutePatterns(ContentMarker, a, b);
  }

  /** Escaping keeps the `'` after an escaped dollar sign, so CV text `$'` reaches the
      splice as `\$'`, and the splice as written then copies the rest of the template there. */
  lemma EscapedDollarQuote()
    ensures EscapeLatex("$'") == "\\$'"
  {
    var s := "$'";
    PlaceholderFacts();
    assert 'L' !in s;
    AbsentFirstChar(s, Placeholder);
    EscapeLatexPerChar(s);
    DollarQuoteMap();
  }

  lemma DollarQuoteMap()
    ensures MapConcat("$'", EscapeChar) == "\\$'"
  {
  }

  /** The generated resume as the generator computes it: the template with the document
      content spliced in place of its marker by `SpliceAsWritten`. Where the content holds no
      dollar sign, this is the intended resume. */
  function ResumeTexAsWritten(template: string, c: CvContent): (r: string)
    ensures !Contains(template, ContentMarker) ==> r == template
    ensures '$' !in RenderDocumentContent(c) ==> r == ResumeTexOf(template, c)
  {
    var content := RenderDocumentContent(c);
    if '$' !in content then SpliceAgrees(template, content); SpliceAsWritten(template, content)
    else SpliceAsWritten(template, content)
  }

  /** The intended resume, over the corrected splice: the template with the document content
      in place of its first marker, verbatim. */
  function ResumeTexOf(template: string, c: CvContent): (r: string)
    ensures !Contains(template, ContentMarker) ==> r == template
    ensures forall i: nat ::
      (OccursAt(template, ContentMarker, i) && (forall j: nat :: j < i ==> !OccursAt(template, ContentMarker, j)))
      ==> r == template[..i] + RenderDocumentContent(c) + template[i + |ContentMarker|..]
  {
    Splice(template, RenderDocumentContent(c))
  }
}
