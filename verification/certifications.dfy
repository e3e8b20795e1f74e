/**
 * The logic of the certifications and languages section
 * (components/Certifications/Certifications.tsx): the number of dots a
 * language proficiency earns, the dots of each language card, and whether
 * the certifications column is rendered at all.
 */
module Certifications {
  import opened Wrappers
  import opened Text
  import opened Seqs

  datatype Certification = Certification(name: string, issuer: string)

  datatype Language = Language(name: string, proficiency: string)

  const LevelDots: nat := 5

  /** The dots of an unknown proficiency. */
  const DefaultDots: nat := 3

  /** The dots of each known proficiency, in English and French, keyed in lower case. */
  const Levels: map<string, nat> := map[
    "native" := 5,
    "natif" := 5,
    "fluent" := 5,
    "courant" := 5,
    "professional" := 4,
    "professionnel" := 4,
    "advanced" := 4,
    "avance" := 4,
    "intermediate" := 3,
    "intermediaire" := 3,
    "basic" := 2,
    "basique" := 2,
    "beginner" := 1,
    "debutant" := 1]

  /** `levels[proficiency.toLowerCase()] || 3`: the lower-cased proficiency's dots, else three. */
  function DotsFor(proficiency: string): (n: nat)
    ensures 1 <= n <= LevelDots
    ensures JsLower(proficiency) in Levels ==> n == Levels[JsLower(proficiency)]
    ensures JsLower(proficiency) !in Levels ==> n == DefaultDots
  {
    var key := JsLower(proficiency);
    if key in Levels && Levels[key] != 0 then Levels[key] else DefaultDots
  }

  /** The lookup ignores case: a proficiency and its lower-case form earn the same dots. */
  lemma DotsIgnoreCase(proficiency: string)
    ensures DotsFor(JsLower(proficiency)) == DotsFor(proficiency)
  {
    JsLowerIdempotent(proficiency);
  }

  /** A capitalised proficiency is found like its lower-case key. */
  lemma FluentIsFive()
    ensures DotsFor("Fluent") == 5
  {
    LowerCapitalized('F', "luent", "");
    assert "Fluent" == ['F'] + "luent" + "";
    assert JsLower("Fluent") == "fluent";
  }

  /**
   * The proficiencies by the dots they earn, named by their lower-case form:
   * five for native and fluent, four for professional and advanced, three
   * for intermediate and for anything the table does not know, two for
   * basic and one for beginner.
   */
  lemma DotsByLevel(proficiency: string)
    ensures var key := JsLower(proficiency);
      && (DotsFor(proficiency) == 5 <==> key in {"native", "natif", "fluent", "courant"})
      && (DotsFor(proficiency) == 4 <==> key in {"professional", "professionnel", "advanced", "avance"})
      && (DotsFor(proficiency) == 3 <==> key !in Levels || key in {"intermediate", "intermediaire"})
      && (DotsFor(proficiency) == 2 <==> key in {"basic", "basique"})
      && (DotsFor(proficiency) == 1 <==> key in {"beginner", "debutant"})
  {
  }

  /** The dots of a language card: exactly its proficiency's count of the five are filled. */
  function CardDots(l: Language): (dots: seq<bool>)
    ensures |dots| == LevelDots
    ensures CountTrue(dots) == DotsFor(l.proficiency)
  {
    DotsFilled(LevelDots, DotsFor(l.proficiency));
    Dots(LevelDots, DotsFor(l.proficiency))
  }

  /** `certifications && certifications.length > 0`: the column and its list, only when there is something to list. */
  function CertificationsColumn(certifications: Option<seq<Certification>>): (column: Option<seq<Certification>>)
    ensures column.Some? <==> certifications.Some? && |certifications.value| > 0
    ensures column.Some? ==> column == certifications
  {
    if certifications.Some? && |certifications.value| > 0 then certifications else None
  }
}
