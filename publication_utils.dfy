/** The publication helpers of `src/components/publications/publicationUtils.ts`: whether a
    venue already names its year, the size class of a thumbnail, and the ordered list of a
    publication's action links. */
module PublicationUtils {
  import opened Wrappers
  import opened Seqs
  import opened Strings
  import opened CvTypes

  // ----- year in the venue -----

  /** `\b(19|20)\d{2}\b` matches at `i`: a word boundary, `19` or `20`, two digits, a word boundary. */
  predicate YearTokenAt(venue: string, i: nat)
  {
    i + 4 <= |venue| && WordBoundaryAt(venue, i)
    && ((venue[i] == '1' && venue[i + 1] == '9') || (venue[i] == '2' && venue[i + 1] == '0'))
    && IsDigit(venue[i + 2]) && IsDigit(venue[i + 3]) && WordBoundaryAt(venue, i + 4)
  }

  /** The search of the pattern from index `i` on. */
  function YearFrom(venue: string, i: nat): (r: bool)
    ensures r <==> exists j: nat :: i <= j && YearTokenAt(venue, j)
    decreases |venue| - i
  {
    if i + 4 > |venue| then
      assert forall j: nat :: i <= j ==> !YearTokenAt(venue, j);
      false
    else if YearTokenAt(venue, i) then true
    else
      var r := YearFrom(venue, i + 1);
      assert forall j: nat :: i <= j && YearTokenAt(venue, j) ==> j == i || i + 1 <= j;
      r
  }

  /** `hasYearInVenue`: the pattern matches somewhere in the venue. */
  function HasYearInVenue(venue: string): (r: bool)
    ensures r <==> exists i: nat :: YearTokenAt(venue, i)
  {
    YearFrom(venue, 0)
  }

  /** A year standing as a word of its own is found. */
  lemma YearAfterSpace()
    ensures HasYearInVenue("ECCV 2020")
  {
    assert YearTokenAt("ECCV 2020", 5);
  }

  /** A year glued to the venue's name is not. */
  lemma NoYearGlued()
    ensures !HasYearInVenue("ECCV2020")
  {
    var v := "ECCV2020";
    forall i: nat ensures !YearTokenAt(v, i) {
      if i == 4 {
        assert IsWordChar(v[3]) && IsWordChar(v[4]);
      }
    }
  }

  /** Years outside 1900 to 2099 do not count. */
  lemma YearOutsideRange(a: string, b: string)
    requires forall i :: 0 <= i < |a| ==> !IsDigit(a[i])
    requires forall i :: 0 <= i < |b| ==> !IsDigit(b[i])
    ensures !HasYearInVenue(a + "2100" + b)
  {
    var v := a + "2100" + b;
    forall i: nat ensures !YearTokenAt(v, i) {
      if i < |a| && i + 4 <= |v| {
        assert v[i] == a[i];
      } else if |a| < i && i + 4 <= |v| {
        assert v[i + 3] == b[i + 3 - |a| - 4];
      } else if i == |a| {
        assert v[i + 1] == '1';
      }
    }
  }

  // ----- aspect classes -----

  datatype Aspect = Panorama | Wide | Standard | Compact

  const PanoramaFrom: real := 2.4
  const WideFrom: real := 1.75
  const StandardFrom: real := 1.35

  /** `classifyAspect(aspectRatio)`: a missing or zero ratio is standard; otherwise the
      thresholds are tried from the widest class down. */
  function ClassifyAspect(ratio: Option<real>): (r: Aspect)
    ensures r == Panorama <==> ratio.Some? && ratio.value >= PanoramaFrom
    ensures r == Wide <==> ratio.Some? && WideFrom <= ratio.value < PanoramaFrom
    ensures r == Compact <==> ratio.Some? && ratio.value != 0.0 && ratio.value < StandardFrom
    ensures r == Standard <==> ratio.None? || ratio.value == 0.0 || StandardFrom <= ratio.value < WideFrom
  {
    if ratio.None? || ratio.value == 0.0 then Standard
    else if ratio.value >= PanoramaFrom then Panorama
    else if ratio.value >= WideFrom then Wide
    else if ratio.value < StandardFrom then Compact
    else Standard
  }

  /** The classes from narrowest to widest. */
  function AspectRank(a: Aspect): nat
  {
    match a
    case Compact => 0
    case Standard => 1
    case Wide => 2
    case Panorama => 3
  }

  /** A wider positive ratio never gets a narrower class. */
  lemma ClassifyAspectMonotone(x: real, y: real)
    requires 0.0 < x <= y
    ensures AspectRank(ClassifyAspect(Some(x))) <= AspectRank(ClassifyAspect(Some(y)))
  {
  }

  // ----- action links -----

  /** A candidate link: its label and its URL, if the publication has one. */
  datatype LinkSource = LinkSource(caption: string, href: Option<string>)

  /** A link shown in the list. */
  datatype ActionLink = ActionLink(caption: string, href: string)

  /** `Boolean(item.href)`: a URL is there and is not empty. */
  predicate HasHref(s: LinkSource)
  {
    s.href.Some? && s.href.value != ""
  }

  function SourceCaptions(ss: seq<LinkSource>): (r: seq<string>)
    ensures |r| == |ss| && forall i :: 0 <= i < |ss| ==> r[i] == ss[i].caption
  {
    seq(|ss|, i requires 0 <= i < |ss| => ss[i].caption)
  }

  function LinkCaptions(ls: seq<ActionLink>): (r: seq<string>)
    ensures |r| == |ls| && forall i :: 0 <= i < |ls| ==> r[i] == ls[i].caption
  {
    seq(|ls|, i requires 0 <= i < |ls| => ls[i].caption)
  }

  /** The candidates with a URL, in order, as links. */
  function KeepLinks(ss: seq<LinkSource>): (r: seq<ActionLink>)
    ensures forall i :: 0 <= i < |r| ==> r[i].href != ""
    ensures forall l :: l in r <==> exists i :: 0 <= i < |ss| && HasHref(ss[i]) && l == ActionLink(ss[i].caption, ss[i].href.value)
    ensures IsSubsequence(LinkCaptions(r), SourceCaptions(ss))
    decreases |ss|
  {
    if ss == [] then []
    else
      var rest := KeepLinks(ss[1..]);
      assert forall i :: 1 <= i < |ss| ==> ss[i] == ss[1..][i - 1];
      assert SourceCaptions(ss)[1..] == SourceCaptions(ss[1..]);
      if HasHref(ss[0]) then
        var r := [ActionLink(ss[0].caption, ss[0].href.value)] + rest;
        assert LinkCaptions(r)[1..] == LinkCaptions(rest);
        assert forall l :: l in r <==> l == r[0] || l in rest;
        r
      else
        rest
  }

  /** A candidate with a URL is listed under its label. */
  lemma KeepLinksHas(ss: seq<LinkSource>, k: nat)
    requires k < |ss| && HasHref(ss[k])
    ensures ss[k].caption in LinkCaptions(KeepLinks(ss))
  {
    var r := KeepLinks(ss);
    var l := ActionLink(ss[k].caption, ss[k].href.value);
    assert l in r;
    var m :| 0 <= m < |r| && r[m] == l;
    assert LinkCaptions(r)[m] == ss[k].caption;
  }

  /** With candidate labels all different, a listed link comes from the candidate with its label. */
  lemma KeepLinksFrom(ss: seq<LinkSource>, k: nat, l: ActionLink)
    requires k < |ss| && Distinct(SourceCaptions(ss))
    requires l in KeepLinks(ss) && l.caption == ss[k].caption
    ensures HasHref(ss[k]) && l.href == ss[k].href.value
  {
    var i :| 0 <= i < |ss| && HasHref(ss[i]) && l == ActionLink(ss[i].caption, ss[i].href.value);
    var cs := SourceCaptions(ss);
    assert i == k by {
      if i < k {
        assert false;
      } else if k < i {
        assert false;
      }
    }
  }

  /** With candidate labels all different, a label is listed exactly when its candidate has a
      URL, and then with that URL. */
  lemma KeepLinksLabel(ss: seq<LinkSource>, k: nat)
    requires k < |ss| && Distinct(SourceCaptions(ss))
    ensures ss[k].caption in LinkCaptions(KeepLinks(ss)) <==> HasHref(ss[k])
    ensures forall l :: l in KeepLinks(ss) && l.caption == ss[k].caption ==> l.href == ss[k].href.value
  {
    var r := KeepLinks(ss);
    if HasHref(ss[k]) {
      KeepLinksHas(ss, k);
    }
    if ss[k].caption in LinkCaptions(r) {
      var m :| 0 <= m < |r| && LinkCaptions(r)[m] == ss[k].caption;
      KeepLinksFrom(ss, k, r[m]);
    }
    forall l | l in r && l.caption == ss[k].caption ensures l.href == ss[k].href.value {
      KeepLinksFrom(ss, k, l);
    }
  }

  const PaperLabel: string := "Paper"
  const SlidesLabel: string := "Slides"
  const PosterLabel: string := "Poster"
  const VideoLabel: string := "Video"
  const CodeLabel: string := "Code"
  const ProjectLabel: string := "Project"
  const DatasetLabel: string := "Dataset"

  const ActionLabels: seq<string> :=
    [PaperLabel, SlidesLabel, PosterLabel, VideoLabel, CodeLabel, ProjectLabel, DatasetLabel]

  lemma ActionLabelsDistinct()
    ensures Distinct(ActionLabels)
  {
  }

  /** `publication.paperUrl ?? publication.scholarCitationUrl`: the paper URL whenever it is
      defined, even when empty. */
  function PaperHref(p: PublicationItem): Option<string>
  {
    if p.paperUrl.Some? then p.paperUrl else p.scholarCitationUrl
  }

  /** The seven candidates, in display order. */
  function Sources(p: PublicationItem): (r: seq<LinkSource>)
    ensures SourceCaptions(r) == ActionLabels
  {
    var r := [ LinkSource(PaperLabel, PaperHref(p)), LinkSource(SlidesLabel, p.slidesUrl),
      LinkSource(PosterLabel, p.posterUrl), LinkSource(VideoLabel, p.videoUrl), LinkSource(CodeLabel, p.codeUrl),
      LinkSource(ProjectLabel, p.projectUrl), LinkSource(DatasetLabel, p.datasetUrl) ];
    assert SourceCaptions(r) == ActionLabels;
    r
  }

  /** `getPublicationActionLinks`: every link has a URL, and the labels come in the order Paper,
      Slides, Poster, Video, Code, Project, Dataset, each at most once. */
  function GetPublicationActionLinks(p: PublicationItem): (r: seq<ActionLink>)
    ensures forall i :: 0 <= i < |r| ==> r[i].href != ""
    ensures IsSubsequence(LinkCaptions(r), ActionLabels)
    ensures Distinct(LinkCaptions(r))
  {
    var r := KeepLinks(Sources(p));
    ActionLabelsDistinct();
    SubsequenceDistinct(LinkCaptions(r), ActionLabels);
    r
  }

  /** A label is listed exactly when its URL is present and not empty, and links to that URL. */
  lemma ActionLinkPresent(p: PublicationItem, k: nat)
    requires k < |ActionLabels|
    ensures var r, s := GetPublicationActionLinks(p), Sources(p)[k];
      (ActionLabels[k] in LinkCaptions(r) <==> HasHref(s))
      && forall l :: l in r && l.caption == ActionLabels[k] ==> l.href == s.href.value
  {
    ActionLabelsDistinct();
    KeepLinksLabel(Sources(p), k);
  }

  /** Without a paper URL, the paper link falls back to the citation page; a defined but empty
      paper URL drops the paper link, whatever the citation page. */
  lemma PaperLinkFallback(p: PublicationItem)
    ensures p.paperUrl.None? ==>
      (PaperLabel in LinkCaptions(GetPublicationActionLinks(p)) <==>
        p.scholarCitationUrl.Some? && p.scholarCitationUrl.value != "")
    ensures p.paperUrl == Some("") ==> PaperLabel !in LinkCaptions(GetPublicationActionLinks(p))
  {
    ActionLinkPresent(p, 0);
  }
}
