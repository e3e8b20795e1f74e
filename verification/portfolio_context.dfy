/**
 * The structural selection rules of `generatePortfolioContext` in
 * `lib/chat-service.ts`: which experiences enter the system prompt and in
 * what role, how many responsibilities and technologies each contributes,
 * how an education year is cut from its date, and which experience pages are
 * linked. The prompt's wording is not modelled.
 */
module PortfolioContext {
  import opened Wrappers
  import opened Text
  import opened Seqs

  /** An experience of the profile data; `employment` is its `type` field. */
  datatype Experience = Experience(
    id: string,
    company: string,
    employment: string,
    isCurrent: bool,
    startDate: string,
    endDate: Option<string>,
    responsibilities: Option<seq<string>>)

  const MaxExperiences: nat := 3
  const MaxHighlights: nat := 6
  const MaxProjectTechnologies: nat := 5

  const CurrentHeading: string := "EXPERIENCE ACTUELLE"
  const PreviousHeading: string := "EXPERIENCE PRECEDENTE"

  /** A full-time or current position qualifies for the prompt. */
  predicate Qualifies(e: Experience) {
    e.employment == "full-time" || e.isCurrent
  }

  /** The experiences described in the prompt: the first three qualifying ones, in data order. */
  function SelectedExperiences(exps: seq<Experience>): (sel: seq<Experience>)
    ensures |sel| <= MaxExperiences
    ensures forall i :: 0 <= i < |sel| ==> Qualifies(sel[i]) && sel[i] in exps
  {
    Take(Filter(exps, Qualifies), MaxExperiences)
  }

  /**
   * A qualifying experience preceded by fewer than three qualifying ones is
   * described, at the position given by how many qualifying ones precede it;
   * every described experience got there this way.
   */
  lemma SelectedExperiencesArePrefix(exps: seq<Experience>, j: nat)
    requires j < |exps| && Qualifies(exps[j])
    ensures var before := |Filter(exps[..j], Qualifies)|;
      before < MaxExperiences <==> before < |SelectedExperiences(exps)|
    ensures var before := |Filter(exps[..j], Qualifies)|;
      before < MaxExperiences ==> SelectedExperiences(exps)[before] == exps[j]
  {
    FilterPosition(exps, Qualifies, j);
  }

  /** As many experiences are described as qualify, up to three. */
  lemma SelectedExperiencesCount(exps: seq<Experience>)
    ensures |SelectedExperiences(exps)| == Min(|Filter(exps, Qualifies)|, MaxExperiences)
  {
  }

  /** The first described experience is labelled current and every later one previous. */
  function Heading(index: nat): (h: string)
    ensures h == CurrentHeading <==> index == 0
    ensures h == CurrentHeading || h == PreviousHeading
  {
    if index == 0 then CurrentHeading else PreviousHeading
  }

  /** `exp.endDate || 'Present'`: a missing or empty end date reads as ongoing. */
  function EndLabel(endDate: Option<string>): (text: string)
    ensures text != ""
    ensures endDate.Some? && endDate.value != "" ==> text == endDate.value
  {
    if endDate.Some? && endDate.value != "" then endDate.value else "Present"
  }

  /** One bullet line of the highlights. */
  function Bullet(r: string): string {
    "- " + r
  }

  /** The highlight lines of an experience: its first six responsibilities as bullets, or none. */
  function HighlightLines(responsibilities: Option<seq<string>>): (lines: seq<string>)
    ensures |lines| <= MaxHighlights
    ensures responsibilities.None? ==> lines == []
    ensures responsibilities.Some? ==>
      |lines| == Min(|responsibilities.value|, MaxHighlights)
      && forall i :: 0 <= i < |lines| ==> lines[i] == Bullet(responsibilities.value[i])
  {
    match responsibilities
    case None => []
    case Some(rs) =>
      var shown := Take(rs, MaxHighlights);
      seq(|shown|, i requires 0 <= i < |shown| => Bullet(shown[i]))
  }

  /** `exp.responsibilities?.slice(0, 6).map(...).join('\n') || ''`. */
  function Highlights(responsibilities: Option<seq<string>>): string {
    Join(HighlightLines(responsibilities), "\n")
  }

  /**
   * When no responsibility spans several lines, the highlights text holds
   * exactly one line per shown responsibility: cutting it at line breaks
   * gives the bullets back.
   */
  lemma HighlightsAreLines(rs: seq<string>)
    requires |rs| > 0
    requires forall i :: 0 <= i < |rs| ==> '\n' !in rs[i]
    ensures Split(Highlights(Some(rs)), "\n") == HighlightLines(Some(rs))
  {
    var lines := HighlightLines(Some(rs));
    forall i | 0 <= i < |lines|
      ensures !Contains(lines[i], ['\n'])
    {
      assert lines[i] == "- " + rs[i];
      ContainsCharIff(lines[i], '\n');
      assert '\n' !in "- ";
    }
    assert "\n" == ['\n'];
    SplitJoinChar(lines, '\n');
  }

  /** `date.split('-')[0]`: the year of an ISO-like education date. */
  function EducationYear(date: string): (year: string)
    ensures year <= date
    ensures '-' !in year
  {
    var parts := Split(date, "-");
    SplitHeadIsPrefix(date, "-");
    ContainsCharIff(parts[0], '-');
    parts[0]
  }

  /** The year of `y-m-d` is `y`, and a date without a dash is its own year. */
  lemma EducationYearOfDate(y: string, rest: string)
    requires '-' !in y
    ensures EducationYear(y + "-" + rest) == y
    ensures EducationYear(y) == y
  {
    assert "-" == ['-'];
    SplitHeadChar(y, '-', rest);
    ContainsCharIff(y, '-');
    SplitNoSeparator(y, "-");
  }

  /** The technologies named for a project: at most the first five, joined by commas. */
  function ProjectTechnologies(techs: seq<string>): (text: string)
    ensures text <= Join(techs, ", ")
    ensures |techs| <= MaxProjectTechnologies ==> text == Join(techs, ", ")
  {
    JoinPrefix(techs, ", ", |Take(techs, MaxProjectTechnologies)|);
    Join(Take(techs, MaxProjectTechnologies), ", ")
  }

  /**
   * When no technology name contains ", ", splitting the named technologies
   * at ", " gives back exactly the first five of them.
   */
  lemma TechnologiesAreFirstFive(techs: seq<string>)
    requires |techs| > 0
    requires forall i :: 0 <= i < |techs| ==> !Contains(techs[i], ", ")
    ensures Split(ProjectTechnologies(techs), ", ") == Take(techs, MaxProjectTechnologies)
  {
    var shown := Take(techs, MaxProjectTechnologies);
    assert forall i :: 0 <= i < |shown| ==> shown[i] == techs[i];
    assert ", " == [',', ' '];
    SplitJoinPair(shown, ',', ' ');
  }

  /** The portfolio page of an experience. */
  function ExperiencePath(id: string): (path: string)
    ensures "/experience/" <= path && path[|"/experience/"|..] == id
  {
    "/experience/" + id
  }

  /** The experience pages listed in the prompt: one per experience, qualifying or not, in data order. */
  function ExperienceLinks(exps: seq<Experience>): (links: seq<string>)
    ensures |links| == |exps|
    ensures forall i :: 0 <= i < |exps| ==> links[i] == ExperiencePath(exps[i].id)
  {
    seq(|exps|, i requires 0 <= i < |exps| => ExperiencePath(exps[i].id))
  }

  /** Distinct experience ids give distinct pages. */
  lemma ExperiencePathInjective(a: string, b: string)
    requires ExperiencePath(a) == ExperiencePath(b)
    ensures a == b
  {
    assert a == ExperiencePath(a)[|"/experience/"|..];
  }
}
