/**
 * The logic of the skills grid (components/Skills/SkillsModern.tsx): which
 * skills a category tab selects, how each is formatted (icon slug and level
 * out of five), the dots of a level, and the total count of the stats bar.
 * Levels are integers here; the data's levels are whole numbers.
 */
module SkillsModern {
  import opened Wrappers
  import opened Text
  import opened Seqs

  datatype Skill = Skill(name: string, level: int)

  datatype Category = Category(category: string, items: seq<Skill>)

  /** A formatted skill: its name, the slug of its icon and its level out of five. */
  datatype Card = Card(name: string, icon: string, level: int)

  /** The tab that shows every category. */
  const AllCategories: string := "all"

  const LevelDots: nat := 5

  /** The explicit icon slugs, for names the generic rule would get wrong. */
  const SkillIcons: map<string, string> := map[
    "React.js" := "react",
    "Next.js" := "nextdotjs",
    "Node.js" := "nodedotjs",
    "Express.js" := "express",
    "Material UI" := "mui",
    "Three.js" := "threedotjs",
    "Socket.io" := "socketdotio",
    "GitHub Actions" := "githubactions",
    "VS Code" := "visualstudiocode",
    "API REST" := "fastapi",
    "CI/CD" := "githubactions",
    "Nx Monorepo" := "nx",
    "Adobe XD" := "adobexd",
    "SASS/SCSS" := "sass",
    "Styled Components" := "styledcomponents"]

  // ---------------------------------------------------------------------------
  // Selection
  // ---------------------------------------------------------------------------

  /** `categories.find(cat => cat.category === name)`, as the position of the first match. */
  function FindCategory(cats: seq<Category>, name: string): (r: Option<nat>)
    ensures r.Some? ==> r.value < |cats| && cats[r.value].category == name
    ensures r.Some? ==> forall i :: 0 <= i < r.value ==> cats[i].category != name
    ensures r.None? ==> forall i :: 0 <= i < |cats| ==> cats[i].category != name
    decreases |cats|
  {
    if |cats| == 0 then None
    else if cats[0].category == name then Some(0)
    else match FindCategory(cats[1..], name)
      case None => None
      case Some(i) => Some(i + 1)
  }

  /** The item lists of the categories, in order. */
  function ItemLists(cats: seq<Category>): (lists: seq<seq<Skill>>)
    ensures |lists| == |cats|
    ensures forall i :: 0 <= i < |cats| ==> lists[i] == cats[i].items
  {
    seq(|cats|, i requires 0 <= i < |cats| => cats[i].items)
  }

  /**
   * The skills of the selected tab: every category's items in order for
   * "all"; otherwise the items of the first category of that name (empty
   * items included, as an empty array is truthy), or nothing.
   */
  function Selected(cats: seq<Category>, selected: string): (items: seq<Skill>)
    ensures selected != AllCategories && (forall i :: 0 <= i < |cats| ==> cats[i].category != selected) ==> items == []
    ensures selected != AllCategories && |items| > 0 ==>
      exists i :: 0 <= i < |cats| && cats[i].category == selected && items == cats[i].items
  {
    if selected == AllCategories then Flatten(ItemLists(cats))
    else match FindCategory(cats, selected)
      case None => []
      case Some(i) => cats[i].items
  }

  /** A tab named after a category shows that category's items exactly when no earlier category has the same name. */
  lemma SelectedCategory(cats: seq<Category>, j: nat)
    requires j < |cats| && cats[j].category != AllCategories
    ensures (forall i :: 0 <= i < j ==> cats[i].category != cats[j].category) ==>
      Selected(cats, cats[j].category) == cats[j].items
  {
    var name := cats[j].category;
    if forall i :: 0 <= i < j ==> cats[i].category != name {
      assert FindCategory(cats, name) == Some(j);
    }
  }

  /** An element of one of the lists is an element of their concatenation. */
  lemma {:induction false} FlattenContains<T>(xss: seq<seq<T>>, i: nat, x: T)
    requires i < |xss| && x in xss[i]
    ensures x in Flatten(xss)
    decreases i
  {
    if i > 0 {
      FlattenContains(xss[1..], i - 1, x);
    }
  }

  /** The "all" tab shows every skill of every category. */
  lemma AllShowsEverySkill(cats: seq<Category>, i: nat, s: Skill)
    requires i < |cats| && s in cats[i].items
    ensures s in Selected(cats, AllCategories)
  {
    FlattenContains(ItemLists(cats), i, s);
  }

  /** `flatMap(cat => cat.items).length`: the number of skills of the stats bar. */
  function TotalSkills(cats: seq<Category>): nat {
    |Selected(cats, AllCategories)|
  }

  /** The stats bar's count is the sum of the categories' sizes: what the "all" tab shows. */
  lemma TotalIsSumOfCategories(cats: seq<Category>)
    ensures TotalSkills(cats) == TotalLength(ItemLists(cats))
  {
    FlattenLength(ItemLists(cats));
  }

  // ---------------------------------------------------------------------------
  // Formatting
  // ---------------------------------------------------------------------------

  /** `Math.ceil(level / 20)`: the least whole number of twenties that reaches the level. */
  function DisplayLevel(level: int): (d: int)
    ensures 20 * (d - 1) < level <= 20 * d
  {
    -((-level) / 20)
  }

  /** A level in 0..100 shows 0..5 dots, and none only at level 0. */
  lemma DisplayLevelRange(level: int)
    requires 0 <= level <= 100
    ensures 0 <= DisplayLevel(level) <= LevelDots
    ensures DisplayLevel(level) == 0 <==> level == 0
  {
  }

  /** The characters an icon slug may hold: `[a-z0-9]`. */
  predicate IsSlugChar(c: char) {
    'a' <= c <= 'z' || '0' <= c <= '9'
  }

  /** `name.toLowerCase().replace(/[^a-z0-9]/g, '')`. */
  function FallbackSlug(name: string): (slug: string)
    ensures forall i :: 0 <= i < |slug| ==> IsSlugChar(slug[i])
  {
    Filter(JsLower(name), IsSlugChar)
  }

  /** The generic slug of a slug is itself. */
  lemma FallbackSlugIdempotent(name: string)
    ensures FallbackSlug(FallbackSlug(name)) == FallbackSlug(name)
  {
    var slug := FallbackSlug(name);
    JsLowerOfLower(slug);
    FilterAll(slug, IsSlugChar);
  }

  /** `skillIcons[name] || generic slug`: the explicit slug when the name has one, the generic one otherwise. */
  function IconSlug(name: string): (slug: string)
    ensures name in SkillIcons ==> slug == SkillIcons[name]
    ensures name !in SkillIcons ==> slug == FallbackSlug(name)
  {
    if name in SkillIcons && SkillIcons[name] != "" then SkillIcons[name] else FallbackSlug(name)
  }

  /** Lower-casing the example name. */
  lemma VueLower()
    ensures JsLower("Vue.js") == "vue.js"
  {
    LowerCapitalized('V', "ue.js", "");
    assert "Vue.js" == ['V'] + "ue.js" + "";
  }

  /** Filtering drops the one failing element between two runs of passing ones. */
  lemma FilterDropsOne<T>(a: seq<T>, c: T, b: seq<T>, f: T -> bool)
    requires forall i :: 0 <= i < |a| ==> f(a[i])
    requires forall i :: 0 <= i < |b| ==> f(b[i])
    requires !f(c)
    ensures Filter(a + [c] + b, f) == a + b
  {
    assert [c][1..] == [];
    assert Filter([c], f) == [];
    FilterAppend(a, [c], f);
    FilterAll(a, f);
    assert Filter(a + [c], f) == a;
    FilterAppend(a + [c], b, f);
    FilterAll(b, f);
  }

  /** Dropping the punctuation of the example name. */
  lemma VueFilter()
    ensures Filter("vue.js", IsSlugChar) == "vuejs"
  {
    assert "vue.js" == "vue" + ['.'] + "js";
    FilterDropsOne("vue", '.', "js", IsSlugChar);
  }

  /** The example name has no explicit slug. */
  lemma VueNotMapped()
    ensures "Vue.js" !in SkillIcons
  {
    assert "Vue.js"[0] == 'V';
  }

  /** The generic rule on a capitalised name: lower-cased, punctuation dropped. */
  lemma VueSlug()
    ensures IconSlug("Vue.js") == "vuejs"
  {
    VueNotMapped();
    VueLower();
    VueFilter();
  }

  /** A skill as the grid shows it. */
  function Format(s: Skill): (c: Card)
    ensures c.name == s.name
    ensures 20 * (c.level - 1) < s.level <= 20 * c.level
    ensures s.name !in SkillIcons ==> forall i :: 0 <= i < |c.icon| ==> IsSlugChar(c.icon[i])
  {
    Card(s.name, IconSlug(s.name), DisplayLevel(s.level))
  }

  /** The cards of a tab: one per selected skill, in order, with its name unchanged. */
  function Cards(cats: seq<Category>, selected: string): (cards: seq<Card>)
    ensures |cards| == |Selected(cats, selected)|
    ensures forall i :: 0 <= i < |cards| ==> cards[i] == Format(Selected(cats, selected)[i])
  {
    var items := Selected(cats, selected);
    seq(|items|, i requires 0 <= i < |items| => Format(items[i]))
  }

  /** The dots of a card: exactly its level of the five are filled, the filled ones first. */
  lemma CardDots(c: Card)
    requires 0 <= c.level <= LevelDots
    ensures CountTrue(Dots(LevelDots, c.level)) == c.level
  {
    DotsFilled(LevelDots, c.level);
  }
}
