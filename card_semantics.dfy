/** The card header helpers of `src/components/cardSemantics.ts`: the date label of a period
    and the four header fields of an experience or an education card. */
module CardSemantics {
  import opened Wrappers
  import opened Strings
  import opened CvTypes

  /** The separator the source writes between the two dates: a space, the three characters
      U+00E2 U+20AC U+201C (an en dash decoded with the wrong character set), and a space. */
  const PeriodSeparator: string := " \U{00E2}\U{20AC}\U{201C} "

  /** `\s--\s` matches at `i`: white space, two hyphens, white space. */
  predicate DashAt(s: string, i: nat)
  {
    i + 4 <= |s| && IsSpace(s[i]) && s[i + 1] == '-' && s[i + 2] == '-' && IsSpace(s[i + 3])
  }

  /** The global replacement from index `i` on: a match becomes the separator and the scan
      resumes after it; elsewhere the character is copied. */
  function FormatFrom(s: string, i: nat): string
    requires i <= |s|
    decreases |s| - i
  {
    if i == |s| then []
    else if DashAt(s, i) then PeriodSeparator + FormatFrom(s, i + 4)
    else [s[i]] + FormatFrom(s, i + 1)
  }

  /** `formatPeriodLabel(period)`: `period.replace(/\s--\s/g, separator)`. */
  function FormatPeriodLabel(period: string): string
  {
    FormatFrom(period, 0)
  }

  /** Text with no match from `i` on is copied. */
  lemma {:induction false} FormatFromNoMatch(s: string, i: nat)
    requires i <= |s|
    requires forall j: nat :: i <= j ==> !DashAt(s, j)
    ensures FormatFrom(s, i) == s[i..]
    decreases |s| - i
  {
    if i < |s| {
      FormatFromNoMatch(s, i + 1);
      assert s[i..] == [s[i]] + s[i + 1..];
    }
  }

  /** A stretch without a match is copied and the scan goes on after it. */
  lemma {:induction false} FormatFromSkip(s: string, i: nat, j: nat)
    requires i <= j <= |s|
    requires forall m: nat :: i <= m < j ==> !DashAt(s, m)
    ensures FormatFrom(s, i) == s[i..j] + FormatFrom(s, j)
    decreases j - i
  {
    if i < j {
      FormatFromSkip(s, i + 1, j);
      assert !DashAt(s, i);
      calc {
        FormatFrom(s, i);
        [s[i]] + FormatFrom(s, i + 1);
        [s[i]] + (s[i + 1..j] + FormatFrom(s, j));
        { assert s[i..j] == [s[i]] + s[i + 1..j]; }
        s[i..j] + FormatFrom(s, j);
      }
    }
  }

  /** A period with no match is its own label. */
  lemma FormatPeriodUnchanged(period: string)
    requires forall i: nat :: !DashAt(period, i)
    ensures FormatPeriodLabel(period) == period
  {
    FormatFromNoMatch(period, 0);
  }

  /** Two dates around `--` with white space on each side (a space, a tab, a line break) get
      the separator in between, and nothing else changes. */
  lemma FormatPeriodRange(a: string, c: char, d: char, b: string)
    requires '-' !in a && '-' !in b
    requires IsSpace(c) && IsSpace(d)
    ensures FormatPeriodLabel(a + [c, '-', '-', d] + b) == a + PeriodSeparator + b
  {
    var s := a + [c, '-', '-', d] + b;
    var e := |a| + 4;
    assert s[..|a|] == a && s[e..] == b;
    assert s[|a|..e] == [c, '-', '-', d];
    forall m: nat | m < |a| ensures !DashAt(s, m) {
      if m + 1 < |a| {
        assert s[m + 1] == a[m + 1];
      } else {
        assert s[m + 1] == c;
      }
    }
    FormatFromSkip(s, 0, |a|);
    assert DashAt(s, |a|);
    forall m: nat | e <= m ensures !DashAt(s, m) {
      if m + 1 < |s| {
        assert s[m + 1] == b[m + 1 - e];
      }
    }
    FormatFromNoMatch(s, e);
    assert s[0..|a|] == a;
  }

  /** The fields of a card header. */
  datatype CardHeader = CardHeader(primary: string, secondary: string, date: string, location: Option<string>)

  /** `toExperienceCardHeader`: the role first, then the organization, the formatted period and
      the location. */
  function ToExperienceCardHeader(item: ExperienceItem): (r: CardHeader)
    ensures r.primary == item.role && r.secondary == item.organization
    ensures r.date == FormatPeriodLabel(item.period) && r.location == Some(item.location)
  {
    CardHeader(item.role, item.organization, FormatPeriodLabel(item.period), Some(item.location))
  }

  /** `toEducationCardHeader`: the degree first, then the institution, the formatted period and
      the location. */
  function ToEducationCardHeader(item: EducationItem): (r: CardHeader)
    ensures r.primary == item.degree && r.secondary == item.institution
    ensures r.date == FormatPeriodLabel(item.period) && r.location == Some(item.location)
  {
    CardHeader(item.degree, item.institution, FormatPeriodLabel(item.period), Some(item.location))
  }

  /** A period with no spaced `--` is shown as it is on either card. */
  lemma PlainPeriodOnCards(e: ExperienceItem, d: EducationItem)
    requires forall i: nat :: !DashAt(e.period, i)
    requires forall i: nat :: !DashAt(d.period, i)
    ensures ToExperienceCardHeader(e).date == e.period
    ensures ToEducationCardHeader(d).date == d.period
  {
    FormatPeriodUnchanged(e.period);
    FormatPeriodUnchanged(d.period);
  }

  /** A card's date label for a range written around a spaced `--` shows the separator. */
  lemma EducationDateRange(d: EducationItem, a: string, b: string)
    requires d.period == a + " -- " + b
    requires '-' !in a && '-' !in b
    ensures ToEducationCardHeader(d).date == a + PeriodSeparator + b
  {
    assert " -- " == [' ', '-', '-', ' '];
    FormatPeriodRange(a, ' ', ' ', b);
  }
}
