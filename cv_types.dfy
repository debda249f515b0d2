/** The canonical CV content model (the records of `src/data/cv/types.ts`) and the
    well-formedness conditions the content tests demand of any instance. */
module CvTypes {
  import opened Wrappers
  import opened Seqs

  /** The closed set of topic slugs. */
  datatype TopicSlug =
    | FederatedLearning
    | MedicalAi
    | ComputerVision
    | MlSystems
    | WirelessSensing
    | Blockchain

  /** The slug as it is spelled in content and in the filter UI. */
  function SlugText(s: TopicSlug): string
  {
    match s
    case FederatedLearning => "federated-learning"
    case MedicalAi => "medical-ai"
    case ComputerVision => "computer-vision"
    case MlSystems => "ml-systems"
    case WirelessSensing => "wireless-sensing"
    case Blockchain => "blockchain"
  }

  /** Every slug, in declaration order. */
  const AllSlugs: seq<TopicSlug> :=
    [FederatedLearning, MedicalAi, ComputerVision, MlSystems, WirelessSensing, Blockchain]

  /** The slug spelled `t`, if `t` spells one. */
  function ParseSlug(t: string): (r: Option<TopicSlug>)
    ensures r.Some? ==> SlugText(r.value) == t
    ensures r.None? ==> forall s: TopicSlug :: SlugText(s) != t
  {
    if t == "federated-learning" then Some(FederatedLearning)
    else if t == "medical-ai" then Some(MedicalAi)
    else if t == "computer-vision" then Some(ComputerVision)
    else if t == "ml-systems" then Some(MlSystems)
    else if t == "wireless-sensing" then Some(WirelessSensing)
    else if t == "blockchain" then Some(Blockchain)
    else None
  }

  /** The enumeration has exactly six members, each spelled once: spellings are pairwise
      distinct and read back to the slug they spell. */
  lemma SlugsClosed(s: TopicSlug)
    ensures s in AllSlugs && |AllSlugs| == 6 && Distinct(AllSlugs)
    ensures ParseSlug(SlugText(s)) == Some(s)
    ensures forall u: TopicSlug :: SlugText(u) == SlugText(s) ==> u == s
  {
    match s
    case FederatedLearning =>
    case MedicalAi =>
    case ComputerVision =>
    case MlSystems =>
    case WirelessSensing =>
    case Blockchain =>
  }

  /** A registry entry: a slug and its display label. */
  datatype Topic = Topic(slug: TopicSlug, caption: string)

  datatype LinkIcon = EmailIcon | GithubIcon | ScholarIcon | LinkedinIcon | ResumeIcon

  datatype LinkItem = LinkItem(icon: LinkIcon, caption: string, href: string, description: string)

  datatype ContactItem = ContactItem(caption: string, value: string, href: Option<string>)

  /** A labeled fact when `caption` (the source's `label`) is present, a plain bullet otherwise; the text is always there. */
  datatype DetailItem = DetailItem(caption: Option<string>, text: string)

  datatype Profile = Profile(
    name: string,
    nativeName: string,
    tagline: string,
    headline: string,
    location: string,
    summaryBullets: seq<string>,
    contacts: seq<ContactItem>,
    links: seq<LinkItem>)

  datatype EducationItem = EducationItem(
    id: string,
    institution: string,
    institutionLogoPath: Option<string>,
    period: string,
    degree: string,
    location: string,
    details: seq<DetailItem>)

  datatype ExperienceItem = ExperienceItem(
    id: string,
    organization: string,
    organizationLogoPath: Option<string>,
    organizationDescription: Option<string>,
    organizationUrl: Option<string>,
    period: string,
    role: string,
    location: string,
    summary: string,
    highlights: seq<DetailItem>,
    highlighted: bool)

  datatype LeadershipItem = LeadershipItem(
    id: string,
    organization: string,
    period: string,
    role: string,
    location: string,
    highlights: seq<DetailItem>)

  datatype AwardItem = AwardItem(
    id: string,
    title: string,
    year: int,
    event: string,
    location: string,
    details: seq<DetailItem>)

  datatype PublicationKind = Journal | Conference | Workshop | Patent | Thesis | Preprint

  datatype PublicationItem = PublicationItem(
    id: string,
    title: string,
    year: int,
    venue: string,
    citationCount: Option<int>,
    authors: string,
    kind: PublicationKind,
    paperUrl: Option<string>,
    scholarCitationUrl: Option<string>,
    thumbnailPath: Option<string>,
    thumbnailAspectRatio: Option<real>,
    slidesUrl: Option<string>,
    posterUrl: Option<string>,
    videoUrl: Option<string>,
    codeUrl: Option<string>,
    projectUrl: Option<string>,
    datasetUrl: Option<string>,
    relatedExperienceIds: Option<seq<string>>,
    topics: seq<TopicSlug>,
    order: int)

  datatype SeoConfig = SeoConfig(title: string, description: string, siteUrl: string, image: string)

  datatype CvContent = CvContent(
    profile: Profile,
    topics: seq<Topic>,
    education: seq<EducationItem>,
    experience: seq<ExperienceItem>,
    leadership: seq<LeadershipItem>,
    awards: seq<AwardItem>,
    publications: seq<PublicationItem>,
    seo: SeoConfig)

  /** The ids of all education, experience, leadership, award and publication entries,
      section by section. */
  function AllIds(c: CvContent): (ids: seq<string>)
    ensures |ids| == |c.education| + |c.experience| + |c.leadership| + |c.awards| + |c.publications|
  {
    seq(|c.education|, i requires 0 <= i < |c.education| => c.education[i].id)
    + seq(|c.experience|, i requires 0 <= i < |c.experience| => c.experience[i].id)
    + seq(|c.leadership|, i requires 0 <= i < |c.leadership| => c.leadership[i].id)
    + seq(|c.awards|, i requires 0 <= i < |c.awards| => c.awards[i].id)
    + seq(|c.publications|, i requires 0 <= i < |c.publications| => c.publications[i].id)
  }

  /** The slug is registered in `topics`. */
  predicate Registered(topics: seq<Topic>, s: TopicSlug)
  {
    exists i :: 0 <= i < |topics| && topics[i].slug == s
  }

  /** The invariants the content tests check of every content instance. */
  predicate WellFormed(c: CvContent)
  {
    && Distinct(AllIds(c))
    && (forall i, k :: 0 <= i < |c.publications| && 0 <= k < |c.publications[i].topics| ==>
          Registered(c.topics, c.publications[i].topics[k]))
    && (forall i, j :: 0 <= i < j < |c.publications| ==> c.publications[i].order != c.publications[j].order)
    && (forall i :: 0 <= i < |c.publications| && c.publications[i].citationCount.Some? ==>
          c.publications[i].citationCount.value >= 0)
  }

  /** The five sections whose entries carry an id, in the order `AllIds` lists them. */
  datatype Section = EducationSection | ExperienceSection | LeadershipSection | AwardsSection | PublicationsSection

  function SectionRank(s: Section): nat
  {
    match s
    case EducationSection => 0
    case ExperienceSection => 1
    case LeadershipSection => 2
    case AwardsSection => 3
    case PublicationsSection => 4
  }

  /** The number of entries of a section. */
  function SectionSize(c: CvContent, s: Section): nat
  {
    match s
    case EducationSection => |c.education|
    case ExperienceSection => |c.experience|
    case LeadershipSection => |c.leadership|
    case AwardsSection => |c.awards|
    case PublicationsSection => |c.publications|
  }

  /** The id of entry `i` of a section. */
  function IdAt(c: CvContent, s: Section, i: nat): string
    requires i < SectionSize(c, s)
  {
    match s
    case EducationSection => c.education[i].id
    case ExperienceSection => c.experience[i].id
    case LeadershipSection => c.leadership[i].id
    case AwardsSection => c.awards[i].id
    case PublicationsSection => c.publications[i].id
  }

  /** Where a section's ids begin in `AllIds`: after the sections listed before it. */
  function Offset(c: CvContent, s: Section): nat
  {
    match s
    case EducationSection => 0
    case ExperienceSection => |c.education|
    case LeadershipSection => |c.education| + |c.experience|
    case AwardsSection => |c.education| + |c.experience| + |c.leadership|
    case PublicationsSection => |c.education| + |c.experience| + |c.leadership| + |c.awards|
  }

  /** `AllIds` holds the id of entry `i` of a section at that section's offset plus `i`, and a
      section's ids end where the ids of the next section begin. */
  lemma AllIdsAt(c: CvContent, s: Section, i: nat)
    requires i < SectionSize(c, s)
    ensures Offset(c, s) + i < |AllIds(c)| && AllIds(c)[Offset(c, s) + i] == IdAt(c, s, i)
  {
  }

  /** Entries at two different places, in the same section or in two of them, sit at two
      different positions of `AllIds`. */
  lemma OffsetsApart(c: CvContent, s: Section, i: nat, t: Section, j: nat)
    requires i < SectionSize(c, s) && j < SectionSize(c, t) && (s, i) != (t, j)
    ensures Offset(c, s) + i != Offset(c, t) + j
  {
    if SectionRank(s) < SectionRank(t) {
      assert Offset(c, s) + SectionSize(c, s) <= Offset(c, t);
    } else if SectionRank(t) < SectionRank(s) {
      assert Offset(c, t) + SectionSize(c, t) <= Offset(c, s);
    }
  }

  /** In well-formed content ids are unique across all five sections: two entries at two
      different places (in one section or in two) never share an id. */
  lemma WellFormedIdsAcrossSections(c: CvContent, s: Section, i: nat, t: Section, j: nat)
    requires WellFormed(c)
    requires i < SectionSize(c, s) && j < SectionSize(c, t) && (s, i) != (t, j)
    ensures IdAt(c, s, i) != IdAt(c, t, j)
  {
    var ids := AllIds(c);
    AllIdsAt(c, s, i);
    AllIdsAt(c, t, j);
    OffsetsApart(c, s, i, t, j);
    var a, b := Offset(c, s) + i, Offset(c, t) + j;
    if a < b {
      assert ids[a] != ids[b];
    } else {
      assert ids[b] != ids[a];
    }
  }
}
