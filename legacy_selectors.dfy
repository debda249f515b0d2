/** The older selector module `src/data/selectors.ts` over the older site records of
    `src/data/types.ts` (four topic slugs; publications carry a `featured` flag). */
module LegacySelectors {
  import opened Seqs
  import PublicationOrder

  datatype LegacyTopicSlug = FederatedLearning | MedicalAi | ComputerVision | MlSystems

  function LegacySlugText(s: LegacyTopicSlug): string
  {
    match s
    case FederatedLearning => "federated-learning"
    case MedicalAi => "medical-ai"
    case ComputerVision => "computer-vision"
    case MlSystems => "ml-systems"
  }

  datatype LegacyTopic = LegacyTopic(slug: LegacyTopicSlug, caption: string)

  datatype LegacyPublication = LegacyPublication(
    id: string,
    title: string,
    year: int,
    venue: string,
    authors: string,
    description: string,
    href: string,
    topics: seq<LegacyTopicSlug>,
    featured: bool,
    order: int)

  function YearOf(p: LegacyPublication): int { p.year }
  function OrderOf(p: LegacyPublication): int { p.order }

  /** Newest year first, ascending `order` within a year, as a rearrangement of a copy. */
  function SortPublicationsByYear(ps: seq<LegacyPublication>): (r: seq<LegacyPublication>)
    ensures |r| == |ps| && multiset(r) == multiset(ps)
    ensures forall i, j :: 0 <= i < j < |r| ==> PublicationOrder.Precedes(r[i].year, r[i].order, r[j].year, r[j].order)
  {
    PublicationOrder.Sort(ps, YearOf, OrderOf)
  }

  predicate IsFeatured(p: LegacyPublication) { p.featured }

  /** Exactly the featured publications, each as often as in the input, in the sorted order. */
  function GetFeaturedPublications(ps: seq<LegacyPublication>): (r: seq<LegacyPublication>)
    ensures forall x :: multiset(r)[x] == if x.featured then multiset(ps)[x] else 0
    ensures forall i, j :: 0 <= i < j < |r| ==> PublicationOrder.Precedes(r[i].year, r[i].order, r[j].year, r[j].order)
  {
    var featured := Filter(IsFeatured, ps);
    forall x ensures multiset(featured)[x] == if x.featured then multiset(ps)[x] else 0 {
      FilterCount(IsFeatured, ps, x);
    }
    SortPublicationsByYear(featured)
  }

  /** A publication is featured-and-listed exactly when it is in the input and featured. */
  lemma FeaturedMembership(ps: seq<LegacyPublication>, p: LegacyPublication)
    ensures p in GetFeaturedPublications(ps) <==> p in ps && p.featured
  {
    var r := GetFeaturedPublications(ps);
    assert p in r <==> multiset(r)[p] > 0;
    assert p in ps <==> multiset(ps)[p] > 0;
  }

  /** The topic filter: every topic, or one slug. */
  datatype LegacyFilter = AllTopics | OnlyTopic(slug: LegacyTopicSlug)

  /** `"all"` gives back the list itself; a slug keeps, in order, the publications tagged with it. */
  function FilterPublicationsByTopic(ps: seq<LegacyPublication>, f: LegacyFilter): (r: seq<LegacyPublication>)
    ensures f.AllTopics? ==> r == ps
    ensures f.OnlyTopic? ==> IsSubsequence(r, ps)
    ensures f.OnlyTopic? ==> forall x :: multiset(r)[x] == if f.slug in x.topics then multiset(ps)[x] else 0
  {
    match f
    case AllTopics => ps
    case OnlyTopic(s) =>
      var keep := (p: LegacyPublication) => s in p.topics;
      var r := Filter(keep, ps);
      forall x ensures multiset(r)[x] == if s in x.topics then multiset(ps)[x] else 0 {
        FilterCount(keep, ps, x);
      }
      r
  }

  /** The label of the first registry entry with slug `s`, or the slug's spelling when none has it. */
  function GetTopicLabelBySlug(topics: seq<LegacyTopic>, s: LegacyTopicSlug): (r: string)
    ensures (forall i :: 0 <= i < |topics| ==> topics[i].slug != s) ==> r == LegacySlugText(s)
    ensures forall i ::
      (0 <= i < |topics| && topics[i].slug == s && forall j :: 0 <= j < i ==> topics[j].slug != s)
      ==> r == topics[i].caption
    decreases |topics|
  {
    if topics == [] then LegacySlugText(s)
    else if topics[0].slug == s then topics[0].caption
    else GetTopicLabelBySlug(topics[1..], s)
  }

  predicate Used(ps: seq<LegacyPublication>, s: LegacyTopicSlug)
  {
    exists i :: 0 <= i < |ps| && s in ps[i].topics
  }

  /** The registry entries whose slug some publication uses, in registry order. */
  function GetUsedTopics(topics: seq<LegacyTopic>, ps: seq<LegacyPublication>): (r: seq<LegacyTopic>)
    ensures IsSubsequence(r, topics)
    ensures forall t :: t in r <==> t in topics && Used(ps, t.slug)
    ensures forall t :: multiset(r)[t] == if Used(ps, t.slug) then multiset(topics)[t] else 0
  {
    var r := Filter((t: LegacyTopic) => Used(ps, t.slug), topics);
    forall t ensures multiset(r)[t] == if Used(ps, t.slug) then multiset(topics)[t] else 0 {
      FilterCount((t: LegacyTopic) => Used(ps, t.slug), topics, t);
    }
    forall t ensures t in r <==> t in topics && Used(ps, t.slug) {
      assert t in r <==> multiset(r)[t] > 0;
      assert t in topics <==> multiset(topics)[t] > 0;
    }
    r
  }
}
