# Portfolio site: the content-to-presentation layer, in Dafny

This project models the part of a personal portfolio and resume site that turns CV content into
text. The site is written in TypeScript. The layer modelled here is made of small pure functions:

- the CV records and the conditions well-formed content meets;
- the publication selectors: the year ordering, the topic filter, topic labels and the topics in use;
- the recognition and emphasis of the site owner's name among a publication's authors;
- the LaTeX escape and the name highlight;
- the assembly of the resume body and the splice of that body into the LaTeX template;
- the resolution of links under the site's base path;
- the publication and card helpers of the web page: the year in a venue, the thumbnail class,
  the action links, the period label, the card header fields, and author parsing and preview.

Every source function is pure, so every module is datatypes, functions and lemmas. There is one
module per source file, plus a few shared helpers:

- `Wrappers` holds `Option`;
- `Seqs` holds `filter`, `map`, `join`, `split` on one character, the subsequence relation and distinctness;
- `Strings` holds prefixes, `indexOf`, `replaceAll`, `trim` and decimal numerals;
- `PublicationOrder` holds the generic year-then-order sort;
- `WordMatch` holds a global `\b(a|b|…)\b` replacement.

JavaScript semantics are written out where they matter:

- `String.prototype.replace` with a string pattern replaces the first occurrence only, and it reads
  `$$`, `$&`, `` $` `` and `$'` in the replacement text.
- A global regular-expression replace is leftmost and non-overlapping, and it tries the
  alternatives in the order they are listed.
- `\b` is taken over ASCII word characters. `\s` and `trim` use the JavaScript white-space set.
- `??` falls back only on a missing value. A truthiness test (`Boolean(x)`, `x ? … : …`)
  is false on a missing value, on `""` and on `0`.

The site's build-time base path (`import.meta.env.BASE_URL`) is a parameter `base: Option<string>`.
The content object the resume generator reads is a parameter `c: CvContent`, and the template
text is a parameter `template`.

Where the site's code disagrees with itself, the model follows the record types:

- `toExperienceCardHeader` reads `item.organization.name` (src/components/cardSemantics.ts:20), but
  the record type declares `organization: string` (src/data/cv/types.ts:55), and on a string
  `.name` has no value. The model takes the record type's side, so the card's secondary field
  is the organization string (see "## Left out").

The order in which the name spellings are listed never decides a match: no spelling begins
another (`Authors.VariantsPrefixFree`), so at most one of them occurs at any index
(`Authors.OneVariantAt`). "Tzu-Ming Harry Hsu" is emphasised as one unit, not around its tail
"Harry Hsu", because the scan goes left to right: it reaches the index where the full name
starts before the index where the tail starts.

## Model

| member | source | states |
|---|---|---|
| CvTypes.ParseSlug | src/data/cv/types.ts:1-7 | a string reads as a slug exactly when it is the spelling of that slug |
| CvTypes.SlugsClosed | src/data/cv/types.ts:1-7 | the slug type has exactly six members, spelled pairwise differently, and every spelling parses back to its slug |
| CvTypes.AllIds | tests/cv-content.test.js:7-13 | the ids of all five sections, one per entry, section by section |
| CvTypes.AllIdsAt | tests/cv-content.test.js:7-13 | entry `i` of a section has its id at that section's offset plus `i` |
| CvTypes.OffsetsApart | tests/cv-content.test.js:7-13 | two different entries, in one section or in two, have two different positions in the id list |
| CvTypes.WellFormed | tests/cv-content.test.js:6-44 | definition of what the content tests check: ids unique across the five sections, every publication topic registered, publication orders pairwise distinct, citation counts non-negative; stated by `WellFormedIdsAcrossSections`, `WellFormedSortStrict`, `WellFormedUsedTopicsComplete` |
| CvTypes.WellFormedIdsAcrossSections | tests/cv-content.test.js:6-16 | in well-formed content, two entries at different places (in one section or in two of the five) never share an id |
| CvSelectors.GetWebProfile | src/data/cv/selectors.ts:10-17 | name, headline, location and summary bullets are copied from the profile |
| CvSelectors.GetWebExperience | src/data/cv/selectors.ts:19-21 | the experience list is returned as stored |
| CvSelectors.SortPublicationsByYear | src/data/cv/selectors.ts:23-31 | the result is a permutation of the input; years are non-increasing; same-year neighbours have non-decreasing order; every earlier entry may precede every later one under the comparator |
| CvSelectors.SortPublicationsDistinctOrders | src/data/cv/selectors.ts:25-27 | with pairwise distinct orders, same-year neighbours are strictly ascending, and every sorted permutation equals the result |
| CvSelectors.WellFormedSortStrict | tests/selectors.test.js:24-31 | in well-formed content, the sorted publications are strictly ascending in order within a year |
| CvSelectors.GetWebPublications | src/data/cv/selectors.ts:33-35 | the web list is the year ordering of the publications |
| CvSelectors.FilterPublicationsByTopic | src/data/cv/selectors.ts:37-43 | `all` returns the list itself; a slug gives a subsequence that holds each tagged publication as often as the input does, and no other |
| CvSelectors.FilterByTopicMembership | tests/selectors.test.js:33-38 | a publication is in the filtered list exactly when it is in the input and tagged with the slug |
| CvSelectors.GetTopicLabelBySlug | src/data/cv/selectors.ts:45-47 | the label of the first registry entry with the slug, or the slug's spelling when no entry has it |
| CvSelectors.TopicLabelRegistered | tests/selectors.test.js:54-56 | a registered slug never falls back: its label is that of a registry entry with that slug |
| CvSelectors.GetUsedTopics | src/data/cv/selectors.ts:49-52 | a subsequence of the registry that holds each entry whose slug some publication uses as often as the registry does, and no other entry |
| CvSelectors.WellFormedUsedTopicsComplete | tests/selectors.test.js:46-52 | in well-formed content, a slug has a used-topics entry exactly when some publication uses it |
| PublicationOrder.Insert | src/data/cv/selectors.ts:24-30 | inserting adds exactly one element, keeping all the others |
| PublicationOrder.InsertSorted | src/data/cv/selectors.ts:24-30 | inserting into a sorted sequence keeps it sorted |
| PublicationOrder.Sort | src/data/selectors.ts:3-11 | the sort returns a sorted permutation of its input |
| PublicationOrder.SortedAdjacent | src/data/cv/selectors.ts:25-29 | a sorted sequence has non-increasing years, and non-decreasing order between same-year neighbours |
| PublicationOrder.SortedStrict | src/data/cv/selectors.ts:25-27 | with distinct orders, same-year neighbours are strictly ascending |
| PublicationOrder.SortedPermutationUnique | src/data/cv/selectors.ts:24-30 | with distinct orders, two sorted permutations of the same publications are equal |
| LegacySelectors.SortPublicationsByYear | src/data/selectors.ts:3-11 | a permutation of the input, in which every earlier entry may precede every later one |
| LegacySelectors.GetFeaturedPublications | src/data/selectors.ts:13-15 | each featured publication as often as in the input, no others, in sorted order |
| LegacySelectors.FeaturedMembership | src/data/selectors.ts:13-15 | a publication is listed exactly when it is in the input and featured |
| LegacySelectors.FilterPublicationsByTopic | src/data/selectors.ts:17-26 | `all` returns the list itself; a slug gives the order-preserving subsequence of tagged publications |
| LegacySelectors.GetTopicLabelBySlug | src/data/selectors.ts:28-30 | the first registry label for the slug, falling back to the slug's spelling |
| LegacySelectors.GetUsedTopics | src/data/selectors.ts:32-35 | a subsequence of the registry that holds each topic some publication uses as often as the registry does, and no other topic |
| Authors.RegexLiteralEscape | src/data/cv/authors.ts:9 | the escaped pattern of a spelling matches exactly that spelling |
| Authors.VariantsNeedNoEscape | src/data/cv/authors.ts:1-9 | escaping leaves the five spellings unchanged |
| Authors.PatternAlternatives | src/data/cv/authors.ts:9-10 | the alternatives of the pattern match exactly the five spellings, in list order |
| Authors.IsSelfAuthor | src/data/cv/authors.ts:12-14 | definition: exact membership in the spelling list; stated by `IsSelfAuthorExamples`, `IsSelfAuthorExtension`, `MatchAtIsTheSpelling` |
| Authors.IsSelfAuthorExamples | tests/authors.test.js:6-9 | the full name and "Harry Hsu" are recognised; "Alice Smith", "Hsu" and "harry hsu" are not |
| Authors.IsSelfAuthorExtension | src/data/cv/authors.ts:12-14 | membership is exact: a spelling followed by more text is not a spelling |
| Authors.EmphasizeSelfAuthors | src/data/cv/authors.ts:16-18 | definition: the global whole-word replace over the spellings; stated by `EmphasizeIdentity`, `EmphasizeAbsent`, `EmphasizeBetween`, `EmphasizeFullNameWhole`, `EmphasizeNeedsWordEnd` |
| Authors.EmphasizeIdentity | src/data/cv/authors.ts:16-18 | a formatter that gives every spelling back unchanged leaves every author string unchanged |
| Authors.EmphasizeAbsent | src/data/cv/authors.ts:16-18 | a string that contains no spelling is returned unchanged |
| Authors.VariantsPrefixFree | src/data/cv/authors.ts:1-7 | no spelling is the start of a longer one |
| Authors.OneVariantAt | src/data/cv/authors.ts:1-10 | at most one spelling occurs at any index of any text |
| Authors.MatchAtIsTheSpelling | src/data/cv/authors.ts:10 | the pattern matches a spelling at an index exactly when that spelling occurs there as a whole word, whatever its place in the list |
| Authors.SpellingNeedsWordEnd | src/data/cv/authors.ts:10 | any spelling directly followed by a word character is not matched there |
| Authors.EmphasizeBetween | src/data/cv/authors.ts:10-17 | one spelling standing as a whole word between text in which no spelling can begin is replaced by its formatted form, and the text around it is kept |
| Authors.EmphasizeInList | tests/authors.test.js:11-15 | "Alice, Tzu-Ming Harry Hsu, Bob" gets the full name formatted as one unit |
| Authors.EmphasizeFullNameWhole | src/data/cv/authors.ts:1-17 | "Tzu Ming Harry Hsu" and "Tzu-Ming Harry Hsu" are each formatted whole, not around their tail "Harry Hsu" |
| Authors.EmphasizeNeedsWordEnd | src/data/cv/authors.ts:10-17 | "Harry Hsu" followed by word characters, with no `T` or `H` after it, is returned unchanged |
| WordMatch.ReplaceWholeWords | src/data/cv/authors.ts:10-17 | definition of a global whole-word replace over a list of alternatives, scanning left to right; stated by `MatchAtFirst`, `ReplaceAbsent`, `ReplaceBetween` |
| WordMatch.MatchAtFirst | src/data/cv/authors.ts:10 | the match at an index is the first alternative, in list order, that occurs there as a whole word; there is none exactly when no alternative does |
| WordMatch.ReplaceAbsent | src/data/cv/authors.ts:17 | a global replace over text containing no alternative changes nothing |
| WordMatch.ReplaceBetween | src/data/cv/authors.ts:17 | one whole-word match between stretches where nothing matches is the only text replaced |
| Latex.EscapeChar | src/resume/latex.ts:3-13 | a character changes exactly when it is reserved, and then becomes a backslash sequence |
| Latex.RuleIsEscape | src/resume/latex.ts:3-13 | each table rule replaces its character by that character's escape |
| Latex.RuleTable | src/resume/latex.ts:3-13 | nine rules with distinct targets; no later rule's target occurs in an earlier rule's replacement, so emitted braces are not re-escaped |
| Latex.PlaceholderNoBorder | src/resume/latex.ts:1 | the placeholder overlaps itself nowhere |
| Latex.MiddleStage | src/resume/latex.ts:16-20 | after the placeholder step and the table, each character is its escape, backslashes parked as the placeholder |
| Latex.FinalStage | src/resume/latex.ts:22 | restoring the placeholder turns exactly the parked backslashes into `\textbackslash{}` |
| Latex.EscapeLatex | src/resume/latex.ts:15-23 | definition: protect backslashes, apply the nine rules in order, restore; stated by `MiddleStage`, `FinalStage`, `EscapeLatexPerChar`, `EscapeLatexPlain`, `EscapeLatexAppend`, `EscapeLatexPlaceholderCollision` |
| Latex.EscapeLatexPerChar | src/resume/latex.ts:15-23 | on input without the placeholder, the escape is the per-character map |
| Latex.EscapeLatexPlain | src/resume/latex.ts:15-23 | text without reserved characters or the placeholder passes unchanged |
| Latex.EscapeLatexOneLine | src/resume/latex.ts:3-22 | the escape brings in no line break |
| Latex.EscapeLatexAppend | src/resume/latex.ts:15-23 | the escape distributes over concatenation when neither part holds an `L` |
| Latex.EscapeLatexSample | tests/resume-latex.test.js:6-12 | the test's sample escapes to exactly the expected text |
| Latex.EscapeLatexPlaceholderCollision | src/resume/latex.ts:1-22 | input that spells the placeholder comes out as `\textbackslash{}` |
| Latex.HighlightSelfInAuthors | src/resume/latex.ts:25-30 | definition: the whole-word replace of the highlight names by `\textbf{…}`; stated by `HighlightIsEmphasis`, `HighlightInList` |
| Latex.HighlightIsEmphasis | src/resume/latex.ts:25-30 | the highlight lists the same spellings in the same order, and is the emphasis with `\textbf{…}` |
| Latex.HighlightInList | tests/resume-latex.test.js:14-18 | the test's author list gets `\textbf{Tzu-Ming Harry Hsu}`, with the rest unchanged |
| Latex.EscapeKeepsNames | src/resume/latex.ts:3-13 | escaping leaves the spellings alone |
| ResumeTex.LinesRoundTrip | scripts/generate-resume-tex.ts:34 | one-line parts are the lines of their join with line breaks |
| ResumeTex.RenderDetailItems | scripts/generate-resume-tex.ts:21-37 | the result is empty exactly when there are no details |
| ResumeTex.DetailLineForm | scripts/generate-resume-tex.ts:28-32 | each detail line starts with `\resumeDetailItem`, followed by `[escaped label]{escaped text}` exactly when the label is truthy, and by `{escaped text}` otherwise |
| ResumeTex.DetailItemsLines | scripts/generate-resume-tex.ts:26-36 | a non-empty list gives the begin line, one line per detail in input order, and the end line |
| ResumeTex.RenderResumeItem | scripts/generate-resume-tex.ts:39-52 | definition; stated by `ResumeItemLines`, `ResumeItemBodyVerbatim` |
| ResumeTex.ResumeItemLines | scripts/generate-resume-tex.ts:46-51 | an item is the command line, two lines of escaped header fields, then the lines of the braced body |
| ResumeTex.ResumeItemBodyVerbatim | scripts/generate-resume-tex.ts:50 | the body is inserted verbatim before the final closing brace |
| ResumeTex.RenderEducation | scripts/generate-resume-tex.ts:54-56 | definition; stated by `EducationLines` |
| ResumeTex.EducationLines | scripts/generate-resume-tex.ts:54-56 | institution and period, then degree and location, then the details |
| ResumeTex.RenderExperience | scripts/generate-resume-tex.ts:58-63 | definition; stated by `ExperienceLines` |
| ResumeTex.ExperienceLines | scripts/generate-resume-tex.ts:58-63 | organization and period, then role and location, then the escaped summary followed by the highlights |
| ResumeTex.RenderLeadership | scripts/generate-resume-tex.ts:65-67 | definition; stated by `LeadershipLines` |
| ResumeTex.LeadershipLines | scripts/generate-resume-tex.ts:65-67 | organization and period, then role and location, then the highlights |
| ResumeTex.RenderAward | scripts/generate-resume-tex.ts:69-71 | definition; stated by `AwardLines` |
| ResumeTex.AwardLines | scripts/generate-resume-tex.ts:69-71 | title and year, then event and location, then the details |
| ResumeTex.CitationText | scripts/generate-resume-tex.ts:76 | empty exactly for a missing or zero count; otherwise `Cited by ` and the count |
| ResumeTex.CitationRoundTrip | scripts/generate-resume-tex.ts:76 | a positive count reads back from its citation text |
| ResumeTex.RenderPublication | scripts/generate-resume-tex.ts:73-78 | definition; stated by `PublicationLines` |
| ResumeTex.PublicationLines | scripts/generate-resume-tex.ts:73-78 | title and year, then venue and citation text, then the author block |
| ResumeTex.AuthorBlock | scripts/generate-resume-tex.ts:74-75 | definition: escape, then highlight, then `{\scriptsize …}`; stated by `AuthorBlockBold`, `PublicationLines` |
| ResumeTex.AuthorBlockBold | scripts/generate-resume-tex.ts:74-75 | authors are escaped before highlighting, so the `\textbf{…}` markup around the name is not escaped |
| ResumeTex.FindContact | scripts/generate-resume-tex.ts:81-83 | the first contact with the label, or none exactly when no contact has it |
| ResumeTex.EmailHref | scripts/generate-resume-tex.ts:85 | the contact's href if present, otherwise `mailto:` followed by the value |
| ResumeTex.PhoneLineCases | scripts/generate-resume-tex.ts:87 | the non-empty phone values, US first, with ` / ` only between two of them |
| ResumeTex.RenderHeader | scripts/generate-resume-tex.ts:80-111 | definition: the newline join of the header's sixteen lines; stated by `HeaderProfileLines` (see "## Left out") |
| ResumeTex.HeaderProfileLines | scripts/generate-resume-tex.ts:93-110 | the header's lines hold the escaped name, the native name unescaped, the mail link, the escaped phone line and the bullets |
| ResumeTex.RenderSection | scripts/generate-resume-tex.ts:113-115 | definition; stated by `SectionLines` |
| ResumeTex.SectionLines | scripts/generate-resume-tex.ts:113-115 | the heading line, the list's begin line, the body's lines, then the end line |
| ResumeTex.RenderDocumentContent | scripts/generate-resume-tex.ts:117-139 | definition; stated by `DocumentSectionOrder`, `ResumeTexAsWritten`, `ResumeTexOf` |
| ResumeTex.DocumentSectionOrder | scripts/generate-resume-tex.ts:117-139 | header, Education, Professional Experience, Leadership Experiences, Awards \& Honors, `\newpage`, Academic Publications, with an empty line between neighbours |
| ResumeTex.Substitute | scripts/generate-resume-tex.ts:144 | replacement text without `$` is inserted as it is |
| ResumeTex.SubstitutePatterns | scripts/generate-resume-tex.ts:144 | `$$` gives `$`, `$&` the marker, `` $` `` the text before it and `$'` the text after it |
| ResumeTex.SpliceAsWritten | scripts/generate-resume-tex.ts:144 | as the code is written: a template without the marker is unchanged; otherwise the first marker is replaced by the content read as a replacement pattern |
| ResumeTex.Splice | scripts/generate-resume-tex.ts:144 | the corrected splice of "## Findings": the first marker is replaced by the content verbatim, and a template without the marker is unchanged |
| ResumeTex.SpliceFirstOnly | scripts/generate-resume-tex.ts:144 | markers after the first are kept |
| ResumeTex.SpliceAgrees | scripts/generate-resume-tex.ts:144 | content without `$` splices the same under the code as written and as intended |
| ResumeTex.SpliceDollarQuote | scripts/generate-resume-tex.ts:144 | as written, content `$'` becomes the template text after the marker |
| ResumeTex.EscapedDollarQuote | scripts/generate-resume-tex.ts:74 | CV text `$'` escapes to `\$'`, which still holds `$'` |
| ResumeTex.ResumeTexAsWritten | scripts/generate-resume-tex.ts:143-144 | the resume as the code computes it: a template without the marker is unchanged, and content without `$` gives the intended resume |
| ResumeTex.ResumeTexOf | scripts/generate-resume-tex.ts:143-144 | the intended resume, over the corrected splice of "## Findings": a template without the marker is unchanged; otherwise the document content stands verbatim in place of the first marker |
| Url.IsExternalUrl | src/lib/url.ts:19-21 | definition of the `/^https?:\/\//` test; stated by `ExternalIff`, `MailtoNotExternal` |
| Url.ExternalIff | src/lib/url.ts:1 | a link is external exactly when it starts with `http://` or `https://` |
| Url.MailtoNotExternal | src/lib/url.ts:19-21 | a `mailto:` link is not external |
| Url.NormalizePath | src/lib/url.ts:8 | the path starts with `/`; a leading `/` is added only when missing |
| Url.DropTrailingSlash | src/lib/url.ts:15 | one trailing `/` is removed when present |
| Url.ToPublicUrl | src/lib/url.ts:3-17 | web and mail links are unchanged; under base `/` the normalised path; otherwise the base without its trailing `/`, then the path |
| Url.ToPublicUrlIdempotent | src/lib/url.ts:3-17 | under base `/`, resolving twice is resolving once |
| Url.ToPublicUrlUnderBase | src/lib/url.ts:15-16 | under another base, an absolute path gets the trimmed base in front |
| Url.OneSlashDropped | src/lib/url.ts:15 | of a base ending in `//`, only one slash is removed |
| Url.ResolveLink | src/lib/url.ts:30-40 | the href is the public URL; external is the pattern test on it; target `_blank` and rel `noreferrer` are present exactly when external |
| Url.ResolveAbsoluteLinks | src/lib/url.ts:30-40 | web links stay and open in a new tab; mail links stay and do not |
| Url.ResolveSitePath | src/lib/url.ts:30-40 | under base `/`, a site path resolves to its normalised form and is internal |
| PublicationUtils.YearFrom | src/components/publications/publicationUtils.ts:6 | the search from an index finds a year token exactly when one starts at or after it |
| PublicationUtils.HasYearInVenue | src/components/publications/publicationUtils.ts:5-7 | true exactly when a word-bounded 19xx or 20xx token occurs |
| PublicationUtils.YearAfterSpace | src/components/publications/publicationUtils.ts:6 | "ECCV 2020" has a year |
| PublicationUtils.NoYearGlued | src/components/publications/publicationUtils.ts:6 | "ECCV2020" has none |
| PublicationUtils.YearOutsideRange | src/components/publications/publicationUtils.ts:6 | 2100 among non-digits is not a year |
| PublicationUtils.ClassifyAspect | src/components/publications/publicationUtils.ts:9-27 | each of the four classes, exactly for its ratio range, or for a missing or zero ratio |
| PublicationUtils.KeepLinks | src/components/publications/publicationUtils.ts:52 | every kept link has a non-empty href; a link is kept exactly when its candidate has a URL; captions keep their order |
| PublicationUtils.KeepLinksLabel | src/components/publications/publicationUtils.ts:52 | with distinct labels, a label is listed exactly when its candidate has a URL, and then with that URL |
| PublicationUtils.Sources | src/components/publications/publicationUtils.ts:44-51 | the candidates carry the seven labels in display order |
| PublicationUtils.GetPublicationActionLinks | src/components/publications/publicationUtils.ts:41-53 | hrefs are non-empty; the labels are a subsequence of Paper, Slides, Poster, Video, Code, Project, Dataset, each at most once |
| PublicationUtils.ActionLinkPresent | src/components/publications/publicationUtils.ts:42-52 | each label is listed exactly when its URL is present and non-empty, and it links to that URL |
| PublicationUtils.PaperLinkFallback | src/components/publications/publicationUtils.ts:42 | without a paper URL, the paper link follows the citation page; a defined empty paper URL drops it |
| CardSemantics.FormatPeriodLabel | src/components/cardSemantics.ts:13-15 | definition of the `\s--\s` global replace; stated by `FormatPeriodUnchanged`, `FormatPeriodRange` |
| CardSemantics.FormatPeriodUnchanged | src/components/cardSemantics.ts:13-15 | a period with no spaced `--` is its own label |
| CardSemantics.FormatPeriodRange | src/components/cardSemantics.ts:14 | a white-space, `--`, white-space match between two dates becomes the separator, and nothing else changes |
| CardSemantics.ToExperienceCardHeader | src/components/cardSemantics.ts:17-24 | primary is the role, secondary the organization, date the formatted period, and location the location |
| CardSemantics.ToEducationCardHeader | src/components/cardSemantics.ts:26-33 | primary is the degree, secondary the institution, date the formatted period, and location the location |
| CardSemantics.PlainPeriodOnCards | src/components/cardSemantics.ts:13-30 | a period with no spaced `--` is shown as it is on either card |
| CardSemantics.EducationDateRange | src/components/cardSemantics.ts:30 | a period `a -- b` is shown as `a`, the separator, then `b` |
| PublicationAuthors.VariantsAgree | src/components/publications/PublicationAuthors.tsx:1-7 | the bold set holds the same spellings as the author helpers |
| PublicationAuthors.ParseAuthors | src/components/publications/PublicationAuthors.tsx:9-14 | every name is non-empty, has no white space at either end and no comma; the names keep the order of the pieces, and each non-empty trimmed piece is kept as often as it occurs |
| PublicationAuthors.ParseKeepsNames | src/components/publications/PublicationAuthors.tsx:9-14 | every piece between commas that is not blank is kept, trimmed |
| PublicationAuthors.ParseJoin | src/components/publications/PublicationAuthors.tsx:9-14 | parsing the `, `-join of list entries gives the entries back |
| PublicationAuthors.ParseNormalizes | src/components/publications/PublicationAuthors.tsx:9-26 | parsing the text the full list shows gives back the same names |
| PublicationAuthors.Spans | src/components/publications/PublicationAuthors.tsx:25-35 | one span per name, bold exactly for the owner's spellings, and `, ` after every name but the last |
| PublicationAuthors.SpanTextJoin | src/components/publications/PublicationAuthors.tsx:26 | the spans read as the names joined by `, ` with no trailing separator |
| PublicationAuthors.PublicationAuthorSpans | src/components/publications/PublicationAuthors.tsx:20-38 | the full list reads as the parsed names joined by `, `, and a name is bold exactly when it is a spelling of the owner's name |
| PublicationAuthors.PreviewOf | src/components/publications/PublicationAuthors.tsx:40-61 | the first min(2, n) names are shown and the rest counted; the `+N more` note is present exactly when more than two names exist |
| PublicationAuthors.PublicationAuthorPreview | src/components/publications/PublicationAuthors.tsx:40-61 | definition: the preview of the parsed names; stated by `PreviewOf`, `PreviewAgainstFull`, `MoreNoteCount` |
| PublicationAuthors.PreviewAgainstFull | src/components/publications/PublicationAuthors.tsx:42-48 | up to two names, the preview is the full list; beyond that, it is the first two spans with no separator after the second |
| PublicationAuthors.MoreNoteCount | src/components/publications/PublicationAuthors.tsx:58 | the number in the note reads back as the hidden count |

## Left out

- `run()` in scripts/generate-resume-tex.ts:141-159 is left out: reading the template, writing the two files, creating the directory, logging and the exit code are I/O. Only the splice at line 144 is modelled: as written by `ResumeTex.ResumeTexAsWritten`, and corrected by `ResumeTex.ResumeTexOf`.
- `ResumeTex.HeaderProfileLines`: the header is not stated as one line-by-line layout. The lemma states where each part sits among its sixteen lines. The lines of the summary bullets inside it are not split further.
- `mediaFrameClassByAspect` (src/components/publications/publicationUtils.ts:29-34) and the two CSS class constants of src/components/cardSemantics.ts:10-11 are left out: they are style strings with no logic.
- `classifyAspect` on NaN: the ratio is a `real`, so NaN (falsy in JavaScript, hence "standard") and negative zero cannot be written.
- `CardSemantics.ToExperienceCardHeader`: the secondary field is the `organization` string of the record type, not the `organization.name` the card code reads.
- JSX, the React components, the browser-driven state and the theme are left out. They are UI, not string or list logic.
- Regular expressions are modelled only as far as they are used: `\b` over ASCII word characters, and `\s` as the JavaScript white-space set. There is no general regex engine.
- `Authors.EmphasizeSelfAuthors` is defined over the list of spellings, not over the pattern text. `Authors.PatternAlternatives` shows that the escaped, `|`-joined pattern has exactly those alternatives.
- `Authors.IsSelfAuthorExtension`: membership is exact, but a proper substring of one spelling can be another spelling ("Harry Hsu" inside "Tzu-Ming Harry Hsu"). So the property is stated for extensions and for named non-members, not for every substring.
- `PublicationOrder.Sort` ties: equal year and equal order keep their input order in the definition. No contract states this, and with the distinct orders of well-formed content no two publications tie.
- The period separator is kept as the three code points the source text holds after the spaced `--`. How a browser shows them is not modelled.
- `getExperiencePublicationLinks` is imported by tests/selectors.test.js:6 from src/data/cv/selectors.ts, but that file does not export it (its exported functions are at lines 10-49), so it is not modelled. `src/data/cv/content` and src/data/content.ts are data and are not part of this model.
- Integer widths: years, orders and citation counts are unbounded integers, and `String(n)` is the decimal numeral.

## Findings

| source | as written | input that shows it | evidently intended | confidence | as-written member | corrected member |
|---|---|---|---|---|---|---|
| scripts/generate-resume-tex.ts:144 | `template.replace(marker, content)` reads `$'`, `` $` ``, `$&` and `$$` in the content as replacement patterns | a CV text holding `$'`: the escape turns it into `\$'` (`ResumeTex.EscapedDollarQuote`), and the splice then puts the rest of the template in place of `$'` | the generated content is inserted verbatim in place of the first marker | high; not executed | ResumeTex.SpliceDollarQuote | ResumeTex.Splice |
