/** The selectors of `src/data/cv/selectors.ts`: projections for the web renderer, the
    publication ordering, the topic filter, topic-label lookup and the topics in use. */
module CvSelectors {
  import opened Wrappers
  import opened Seqs
  import opened CvTypes
  import PublicationOrder

  /** The profile fields the web page shows. */
  datatype WebProfile = WebProfile(name: string, headline: string, location: string, summaryBullets: seq<string>)

  /** The web profile: name, headline, location and summary bullets copied from the profile. */
  function GetWebProfile(c: CvContent): (r: WebProfile)
    ensures r.name == c.profile.name && r.headline == c.profile.headline
    ensures r.location == c.profile.location && r.summaryBullets == c.profile.summaryBullets
  {
    WebProfile(c.profile.name, c.profile.headline, c.profile.location, c.profile.summaryBullets)
  }

  /** The experience list as stored, without filtering or reordering. */
  function GetWebExperience(c: CvContent): (r: seq<ExperienceItem>)
    ensures r == c.experience
  {
    c.experience
  }

  function YearOf(p: PublicationItem): int { p.year }
  function OrderOf(p: PublicationItem): int { p.order }

  /** The publications, newest year first and by ascending `order` within a year. */
  function SortPublicationsByYear(ps: seq<PublicationItem>): (r: seq<PublicationItem>)
    ensures |r| == |ps| && multiset(r) == multiset(ps)
    ensures forall i :: 0 <= i < |r| - 1 ==> r[i].year >= r[i + 1].year
    ensures forall i :: 0 <= i < |r| - 1 && r[i].year == r[i + 1].year ==> r[i].order <= r[i + 1].order
    ensures forall i, j :: 0 <= i < j < |r| ==> PublicationOrder.Precedes(r[i].year, r[i].order, r[j].year, r[j].order)
  {
    var r := PublicationOrder.Sort(ps, YearOf, OrderOf);
    PublicationOrder.SortedAdjacent(r, YearOf, OrderOf);
    r
  }

  /** With pairwise distinct orders (as in well-formed content), same-year neighbours are
      strictly ascending in order, and the result is the only sorted arrangement of `ps`. */
  lemma SortPublicationsDistinctOrders(ps: seq<PublicationItem>, other: seq<PublicationItem>)
    requires forall i, j :: 0 <= i < j < |ps| ==> ps[i].order != ps[j].order
    requires multiset(other) == multiset(ps)
    requires forall i, j :: 0 <= i < j < |other| ==>
      PublicationOrder.Precedes(other[i].year, other[i].order, other[j].year, other[j].order)
    ensures var r := SortPublicationsByYear(ps);
      (forall i :: 0 <= i < |r| - 1 && r[i].year == r[i + 1].year ==> r[i].order < r[i + 1].order)
      && other == r
  {
    var r := SortPublicationsByYear(ps);
    PermutationKeepsKeysDistinct(ps, r, OrderOf);
    PublicationOrder.SortedStrict(r, YearOf, OrderOf);
    PublicationOrder.SortedPermutationUnique(r, other, YearOf, OrderOf);
  }

  /** In well-formed content the sorted publications are strictly ascending in order within a year. */
  lemma WellFormedSortStrict(c: CvContent)
    requires WellFormed(c)
    ensures var r := SortPublicationsByYear(c.publications);
      forall i :: 0 <= i < |r| - 1 && r[i].year == r[i + 1].year ==> r[i].order < r[i + 1].order
  {
    var r := SortPublicationsByYear(c.publications);
    SortPublicationsDistinctOrders(c.publications, r);
  }

  /** The publication list of the web page. */
  function GetWebPublications(ps: seq<PublicationItem>): (r: seq<PublicationItem>)
    ensures r == SortPublicationsByYear(ps)
  {
    SortPublicationsByYear(ps)
  }

  /** The topic filter of the publication list: every topic, or one slug. */
  datatype TopicFilter = AllTopics | OnlyTopic(slug: TopicSlug)

  /** `p` is tagged with `s`. */
  predicate HasTopic(p: PublicationItem, s: TopicSlug)
  {
    s in p.topics
  }

  /** `"all"` gives back the list itself; a slug keeps, in order, the publications tagged with it. */
  function FilterPublicationsByTopic(ps: seq<PublicationItem>, f: TopicFilter): (r: seq<PublicationItem>)
    ensures f.AllTopics? ==> r == ps
    ensures f.OnlyTopic? ==> IsSubsequence(r, ps)
    ensures f.OnlyTopic? ==> forall x :: multiset(r)[x] == if f.slug in x.topics then multiset(ps)[x] else 0
  {
    match f
    case AllTopics => ps
    case OnlyTopic(s) =>
      var r := Filter((p: PublicationItem) => HasTopic(p, s), ps);
      forall x ensures multiset(r)[x] == if s in x.topics then multiset(ps)[x] else 0 {
        FilterCount((p: PublicationItem) => HasTopic(p, s), ps, x);
      }
      r
  }

  /** Filtering by a slug: a publication is kept exactly when it is tagged with the slug. */
  lemma FilterByTopicMembership(ps: seq<PublicationItem>, s: TopicSlug, p: PublicationItem)
    ensures p in FilterPublicationsByTopic(ps, OnlyTopic(s)) <==> p in ps && s in p.topics
  {
    var r := FilterPublicationsByTopic(ps, OnlyTopic(s));
    assert p in r <==> multiset(r)[p] > 0;
    assert p in ps <==> multiset(ps)[p] > 0;
  }

  /** The label of the first registry entry with slug `s`, or the slug's spelling when none has it. */
  function GetTopicLabelBySlug(topics: seq<Topic>, s: TopicSlug): (r: string)
    ensures (forall i :: 0 <= i < |topics| ==> topics[i].slug != s) ==> r == SlugText(s)
    ensures forall i ::
      (0 <= i < |topics| && topics[i].slug == s && forall j :: 0 <= j < i ==> topics[j].slug != s)
      ==> r == topics[i].caption
    decreases |topics|
  {
    if topics == [] then SlugText(s)
    else if topics[0].slug == s then topics[0].caption
    else GetTopicLabelBySlug(topics[1..], s)
  }

  /** A registered slug never falls back: its label is that of a registry entry with that slug. */
  lemma {:induction false} TopicLabelRegistered(topics: seq<Topic>, s: TopicSlug) returns (i: nat)
    requires Registered(topics, s)
    ensures i < |topics| && topics[i].slug == s && GetTopicLabelBySlug(topics, s) == topics[i].caption
    decreases |topics|
  {
    if topics[0].slug == s {
      i := 0;
    } else {
      var k :| 0 <= k < |topics| && topics[k].slug == s;
      assert topics[1..][k - 1].slug == s;
      var i' := TopicLabelRegistered(topics[1..], s);
      i := i' + 1;
    }
  }

  /** Some publication in `ps` is tagged with `s` (the set built from `flatMap` of the topics). */
  predicate Used(ps: seq<PublicationItem>, s: TopicSlug)
  {
    exists i :: 0 <= i < |ps| && s in ps[i].topics
  }

  /** The registry entries whose slug some publication uses, in registry order. */
  function GetUsedTopics(topics: seq<Topic>, ps: seq<PublicationItem>): (r: seq<Topic>)
    ensures IsSubsequence(r, topics)
    ensures forall t :: t in r <==> t in topics && Used(ps, t.slug)
    ensures forall t :: multiset(r)[t] == if Used(ps, t.slug) then multiset(topics)[t] else 0
  {
    var r := Filter((t: Topic) => Used(ps, t.slug), topics);
    forall t ensures multiset(r)[t] == if Used(ps, t.slug) then multiset(topics)[t] else 0 {
      FilterCount((t: Topic) => Used(ps, t.slug), topics, t);
    }
    forall t ensures t in r <==> t in topics && Used(ps, t.slug) {
      assert t in r <==> multiset(r)[t] > 0;
      assert t in topics <==> multiset(topics)[t] > 0;
    }
    r
  }

  /** In well-formed content the slugs of the topics in use are exactly the slugs the
      publications carry: every used slug has a registry entry. */
  lemma WellFormedUsedTopicsComplete(c: CvContent, s: TopicSlug)
    requires WellFormed(c)
    ensures (exists t :: t in GetUsedTopics(c.topics, c.publications) && t.slug == s) <==> Used(c.publications, s)
  {
    if Used(c.publications, s) {
      var i :| 0 <= i < |c.publications| && s in c.publications[i].topics;
      var k :| 0 <= k < |c.publications[i].topics| && c.publications[i].topics[k] == s;
      assert Registered(c.topics, c.publications[i].topics[k]);
      var j :| 0 <= j < |c.topics| && c.topics[j].slug == s;
      assert c.topics[j] in GetUsedTopics(c.topics, c.publications);
    }
  }
}
