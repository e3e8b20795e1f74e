/**
 * The logic of the experience timeline
 * (components/Experience/ExperienceTimeline.tsx): the colour of a company,
 * the cutting of a date range into its two ends, the first three
 * experiences with their "view all" count, and the skill badges of a card.
 */
module ExperienceTimeline {
  import opened Wrappers
  import opened Text
  import opened Seqs
  import PortfolioContext

  /** An experience as the page data presents it: already formatted for display. */
  datatype Entry = Entry(id: string, company: string, dateRange: string, skills: seq<string>)

  const DefaultColor: string := "#FF6B00"

  /** The colours by company, the `default` entry included. */
  const CompanyColors: map<string, string> := map[
    "Weneeds" := "#FF6B00",
    "Capgemini" := "#0070AD",
    "42C" := "#FF6B00",
    "Freelance" := "#10B981",
    "default" := DefaultColor]

  const MaxShown: nat := 3
  const MaxBadges: nat := 3

  /** The separator between the two ends of a date range. */
  const RangeSeparator: string := " - "

  /** The end shown for a range that has none. */
  const OpenEnd: string := "Present"

  // ---------------------------------------------------------------------------
  // Colours
  // ---------------------------------------------------------------------------

  /** `companyColors[company] || companyColors['default']`: the company's own colour, else the default one. */
  function CompanyColor(company: string): (color: string)
    ensures company in CompanyColors ==> color == CompanyColors[company]
    ensures company !in CompanyColors ==> color == DefaultColor
  {
    if company in CompanyColors && CompanyColors[company] != "" then CompanyColors[company]
    else CompanyColors["default"]
  }

  /** Only Capgemini and Freelance stand out: every other company is drawn in the default orange. */
  lemma DefaultColorIff(company: string)
    ensures CompanyColor(company) == DefaultColor <==> company != "Capgemini" && company != "Freelance"
  {
    if company == "Capgemini" {
      assert CompanyColor(company)[1] == '0';
    } else if company == "Freelance" {
      assert CompanyColor(company)[1] == '1';
    }
  }

  // ---------------------------------------------------------------------------
  // Date ranges
  // ---------------------------------------------------------------------------

  datatype Dates = Dates(start: string, end: string)

  /**
   * `parseDateRange`: the text before the first separator starts the range;
   * the piece after it ends the range unless it is missing or empty, in which
   * case the range is open. Pieces after a second separator are dropped.
   */
  function ParseDateRange(range: string): (d: Dates)
    ensures d.start <= range && !Contains(d.start, RangeSeparator)
    ensures d.end != ""
  {
    var parts := Split(range, RangeSeparator);
    SplitHeadIsPrefix(range, RangeSeparator);
    Dates(parts[0], if |parts| > 1 && parts[1] != "" then parts[1] else OpenEnd)
  }

  /** A range without a separator is all start, and open. */
  lemma NoSeparatorIsOpen(range: string)
    requires !Contains(range, RangeSeparator)
    ensures ParseDateRange(range) == Dates(range, OpenEnd)
  {
    SplitNoSeparator(range, RangeSeparator);
  }

  /** In text whose first part has no dash, the first separator is the one right after that part. */
  lemma SplitAfterDashFree(a: string, rest: string)
    requires '-' !in a
    ensures Split(a + RangeSeparator + rest, RangeSeparator) == [a] + Split(rest, RangeSeparator)
  {
    var s := a + RangeSeparator + rest;
    forall k | 0 <= k < |a|
      ensures !(RangeSeparator <= s[k..])
    {
      if k + 1 < |a| {
        assert s[k + 1] == a[k + 1];
      } else {
        assert s[k + 1] == RangeSeparator[0];
      }
    }
    assert RangeSeparator <= s[|a|..];
    assert IndexOf(s, RangeSeparator) == Some(|a|);
    assert s[..|a|] == a;
    assert s[|a| + |RangeSeparator|..] == rest;
    SplitStep(s, RangeSeparator);
  }

  /**
   * Writing a range from its two ends and parsing it gives the ends back,
   * an empty end coming back as the open end, whenever the start has no dash
   * and the end no separator.
   */
  lemma DateRangeRoundTrip(start: string, end: string)
    requires '-' !in start && !Contains(end, RangeSeparator)
    ensures ParseDateRange(start + RangeSeparator + end) == Dates(start, if end == "" then OpenEnd else end)
  {
    SplitAfterDashFree(start, end);
    SplitNoSeparator(end, RangeSeparator);
  }

  /** Text without a dash holds no separator. */
  lemma DashFreeHasNoSeparator(a: string)
    requires '-' !in a
    ensures !Contains(a, RangeSeparator)
  {
    forall i | 0 <= i <= |a|
      ensures !(RangeSeparator <= a[i..])
    {
      if i + 1 < |a| {
        assert a[i..][1] == a[i + 1];
      }
    }
  }

  /** A range is parsed from its first two pieces alone. */
  lemma ParseOfPieces(range: string, start: string, end: string)
    requires var parts := Split(range, RangeSeparator); |parts| > 1 && parts[0] == start && parts[1] == end
    ensures ParseDateRange(range) == Dates(start, if end == "" then OpenEnd else end)
  {
  }

  /** Whatever follows a second separator is ignored. */
  lemma ExtraPartsIgnored(start: string, end: string, more: string)
    requires '-' !in start && '-' !in end
    ensures ParseDateRange(start + RangeSeparator + end + RangeSeparator + more) == ParseDateRange(start + RangeSeparator + end)
  {
    var tail := end + RangeSeparator + more;
    var whole := start + RangeSeparator + end + RangeSeparator + more;
    assert whole == start + RangeSeparator + tail;
    SplitAfterDashFree(start, tail);
    SplitAfterDashFree(end, more);
    var parts := Split(whole, RangeSeparator);
    assert parts == [start] + ([end] + Split(more, RangeSeparator));
    assert parts[0] == start && parts[1] == end;
    ParseOfPieces(whole, start, end);
    DashFreeHasNoSeparator(end);
    DateRangeRoundTrip(start, end);
  }

  // ---------------------------------------------------------------------------
  // What the section shows
  // ---------------------------------------------------------------------------

  /** The first three experiences, in data order, and the "view all" count exactly when more exist. */
  function Timeline(entries: seq<Entry>): (o: Overflow<Entry>)
    ensures o.shown == Take(entries, MaxShown)
    ensures o.more.Some? <==> |entries| > MaxShown
    ensures o.more.Some? ==> o.more.value == |entries| - MaxShown
  {
    ShowFirst(entries, MaxShown)
  }

  /** The skill badges of a card: the first three skills, and a `+N` badge exactly when more exist. */
  function SkillBadges(e: Entry): (o: Overflow<string>)
    ensures o.shown == Take(e.skills, MaxBadges)
    ensures o.more.Some? <==> |e.skills| > MaxBadges
    ensures o.more.Some? ==> o.more.value == |e.skills| - MaxBadges
  {
    ShowFirst(e.skills, MaxBadges)
  }

  /** The page a card links to. */
  function CardLink(e: Entry): (path: string)
    ensures "/experience/" <= path && path[|"/experience/"|..] == e.id
  {
    PortfolioContext.ExperiencePath(e.id)
  }

  /** Every experience shown is one of the first three of the data, and the shown ones with the hidden count account for all of them. */
  lemma TimelineAccountsForAll(entries: seq<Entry>)
    ensures var o := Timeline(entries);
      && (forall i :: 0 <= i < |o.shown| ==> o.shown[i] == entries[i] && i < MaxShown)
      && |o.shown| + o.more.GetOr(0) == |entries|
  {
  }
}
