/**
 * The logic inside the project grid (components/Projects/ProjectsBento.tsx):
 * the screenshot carousel's index arithmetic and auto-advance rule, the image
 * list of the project modal, the featured-first selection of the displayed
 * projects, the technology pills and the choice of the live link. Timers
 * are not modelled: an auto-advance is one event.
 */
module ProjectsBento {
  import opened Wrappers
  import opened Seqs

  /** A project of the data file; an empty `image`, `live` or `demo` string is as good as absent. */
  datatype Project = Project(
    title: string,
    featured: bool,
    image: Option<string>,
    screenshots: Option<seq<string>>,
    technologies: seq<string>,
    live: Option<string>,
    demo: Option<string>)

  const MaxDisplayed: nat := 5
  const MaxPills: nat := 4

  /** A JavaScript truthiness test on an optional string. */
  predicate Truthy(s: Option<string>) {
    s.Some? && s.value != ""
  }

  // ---------------------------------------------------------------------------
  // The carousel
  // ---------------------------------------------------------------------------

  /** `goToNext` on `n` images: `(i + 1) % n`. */
  function Next(i: nat, n: nat): (j: nat)
    requires n > 0
    ensures j < n
  {
    (i + 1) % n
  }

  /** `goToPrev` on `n` images: `(i - 1 + n) % n`, whose dividend is never negative for an index `i >= 0`. */
  function Prev(i: nat, n: nat): (j: nat)
    requires n > 0
    ensures j < n
  {
    (i - 1 + n) % n
  }

  /** Below the modulus, `%` changes nothing. */
  lemma ModBelow(a: nat, n: nat)
    requires a < n
    ensures a % n == a
  {
  }

  /** Between the modulus and its double, `%` subtracts it once. */
  lemma ModWrap(a: nat, n: nat)
    requires n <= a < 2 * n
    ensures a % n == a - n
  {
    assert (a - n) % n == a % n;
  }

  /** From an index in range, going forward moves one place on, and from the last image back to the first. */
  lemma NextStep(i: nat, n: nat)
    requires i < n
    ensures Next(i, n) == if i + 1 < n then i + 1 else 0
  {
    if i + 1 < n {
      ModBelow(i + 1, n);
    } else {
      ModWrap(i + 1, n);
    }
  }

  /** From an index in range, going back moves one place back, and from the first image to the last. */
  lemma PrevStep(i: nat, n: nat)
    requires i < n
    ensures Prev(i, n) == if i > 0 then i - 1 else n - 1
  {
    if i > 0 {
      ModWrap(i - 1 + n, n);
    } else {
      ModBelow(n - 1, n);
    }
  }

  /** On an index in range, going back undoes going forward and going forward undoes going back. */
  lemma PrevNextInverse(i: nat, n: nat)
    requires i < n
    ensures Prev(Next(i, n), n) == i
    ensures Next(Prev(i, n), n) == i
  {
    NextStep(i, n);
    PrevStep(i, n);
    PrevStep(Next(i, n), n);
    NextStep(Prev(i, n), n);
  }

  /** The carousel state: the image shown and whether the mouse is over it. */
  datatype Carousel = Carousel(index: nat, paused: bool)

  /** What can happen to the carousel: the 4 s interval firing, a click on an arrow or a dot, the mouse entering or leaving. */
  datatype CarouselEvent = AutoAdvance | ClickNext | ClickPrev | ClickDot(k: nat) | MouseEnter | MouseLeave

  /** The interval runs only for more than one image and while the carousel is not paused. */
  predicate AutoAdvances(n: nat, c: Carousel) {
    n > 1 && !c.paused
  }

  /** Arrows and dots are rendered only for more than one image. */
  predicate ShowsControls(n: nat) {
    n > 1
  }

  /**
   * One event on a carousel of `n > 0` images (with no image nothing is
   * rendered, so no event can reach it). Events on controls that are not
   * rendered, and interval firings while the interval does not run, change
   * nothing.
   */
  function CarouselStep(n: nat, c: Carousel, e: CarouselEvent): (r: Carousel)
    requires n > 0 && c.index < n
    ensures r.index < n
    ensures !ShowsControls(n) ==> r.index == c.index
    ensures e.AutoAdvance? ==> r == if AutoAdvances(n, c) then c.(index := Next(c.index, n)) else c
  {
    match e
    case AutoAdvance => if AutoAdvances(n, c) then c.(index := Next(c.index, n)) else c
    case ClickNext => if ShowsControls(n) then c.(index := Next(c.index, n)) else c
    case ClickPrev => if ShowsControls(n) then c.(index := Prev(c.index, n)) else c
    case ClickDot(k) => if ShowsControls(n) && k < n then c.(index := k) else c
    case MouseEnter => c.(paused := true)
    case MouseLeave => c.(paused := false)
  }

  /** The carousel after the events, in order. */
  function CarouselRun(n: nat, c: Carousel, events: seq<CarouselEvent>): (r: Carousel)
    requires n > 0 && c.index < n
    ensures r.index < n
    decreases |events|
  {
    if |events| == 0 then c else CarouselRun(n, CarouselStep(n, c, events[0]), events[1..])
  }

  /** Whatever happens, a single image stays the one shown. */
  lemma {:induction false} SingleImageNeverMoves(c: Carousel, events: seq<CarouselEvent>)
    requires c.index == 0
    ensures CarouselRun(1, c, events).index == 0
    decreases |events|
  {
    if |events| > 0 {
      SingleImageNeverMoves(CarouselStep(1, c, events[0]), events[1..]);
    }
  }

  /**
   * `k` firings of the interval in a row move an unpaused carousel `k`
   * places on, wrapping past the last image; after `n` of them it is back
   * where it started.
   */
  lemma {:induction false} AutoAdvanceCycles(n: nat, c: Carousel, k: nat)
    requires n > 1 && c.index < n && !c.paused && k <= n
    ensures CarouselRun(n, c, seq(k, _ => AutoAdvance)).index ==
      if c.index + k < n then c.index + k else c.index + k - n
    decreases k
  {
    if k > 0 {
      var step := CarouselStep(n, c, AutoAdvance);
      NextStep(c.index, n);
      assert seq(k, _ => AutoAdvance)[0] == AutoAdvance;
      assert seq(k, _ => AutoAdvance)[1..] == seq(k - 1, _ => AutoAdvance);
      AutoAdvanceCycles(n, step, k - 1);
    }
  }

  // ---------------------------------------------------------------------------
  // The project modal
  // ---------------------------------------------------------------------------

  /** `allImages`: the cover image when it is truthy, then the screenshots (none when absent). */
  function AllImages(p: Project): (images: seq<string>)
    ensures |images| == (if Truthy(p.image) then 1 else 0) + |p.screenshots.GetOr([])|
    ensures Truthy(p.image) ==> images[0] == p.image.value && images[1..] == p.screenshots.GetOr([])
    ensures !Truthy(p.image) ==> images == p.screenshots.GetOr([])
  {
    (if Truthy(p.image) then [p.image.value] else []) + p.screenshots.GetOr([])
  }

  /** The slideshow appears exactly when the project has a truthy cover image or at least one screenshot. */
  lemma SlideshowShownIff(p: Project)
    ensures |AllImages(p)| > 0 <==> Truthy(p.image) || |p.screenshots.GetOr([])| > 0
  {
  }

  /** `links.live || links.demo`: the live link when truthy, else the demo link when truthy; no globe icon otherwise. */
  function LiveLink(p: Project): (link: Option<string>)
    ensures link.Some? <==> Truthy(p.live) || Truthy(p.demo)
    ensures link.Some? ==> link.value != "" && (link == p.live || link == p.demo)
    ensures Truthy(p.live) ==> link == p.live
  {
    if Truthy(p.live) then p.live else if Truthy(p.demo) then p.demo else None
  }

  /** The technology pills of a card: the first four, and a `+N` pill exactly when there are more. */
  function TechPills(p: Project): (o: Overflow<string>)
    ensures o.shown == Take(p.technologies, MaxPills)
    ensures o.more.Some? <==> |p.technologies| > MaxPills
    ensures o.more.Some? ==> o.more.value == |p.technologies| - MaxPills
  {
    ShowFirst(p.technologies, MaxPills)
  }

  // ---------------------------------------------------------------------------
  // Featured first
  // ---------------------------------------------------------------------------

  predicate Featured(p: Project) {
    p.featured
  }

  predicate NotFeatured(p: Project) {
    !p.featured
  }

  /** The sort comparator of lines 603-607: featured before non-featured, every other pair tied. */
  function Compare(a: Project, b: Project): int {
    if a.featured && !b.featured then -1
    else if !a.featured && b.featured then 1
    else 0
  }

  /** Inserts `x` after every element of `sorted` that does not compare greater than it: one step of a stable sort. */
  function Insert(sorted: seq<Project>, x: Project): (r: seq<Project>)
    ensures |r| == |sorted| + 1
    decreases |sorted|
  {
    if |sorted| == 0 then [x]
    else if Compare(sorted[|sorted| - 1], x) > 0 then Insert(sorted[..|sorted| - 1], x) + [sorted[|sorted| - 1]]
    else sorted + [x]
  }

  /** A stable sort under `Compare` (JavaScript's `Array.prototype.sort` is stable), written as an insertion sort. */
  function StableSort(xs: seq<Project>): (r: seq<Project>)
    ensures |r| == |xs|
    decreases |xs|
  {
    if |xs| == 0 then [] else Insert(StableSort(xs[..|xs| - 1]), xs[|xs| - 1])
  }

  predicate AllFeatured(ps: seq<Project>) {
    forall i :: 0 <= i < |ps| ==> ps[i].featured
  }

  predicate NoneFeatured(ps: seq<Project>) {
    forall i :: 0 <= i < |ps| ==> !ps[i].featured
  }

  /** The featured projects in data order, then the others in data order. */
  function FeaturedFirst(xs: seq<Project>): (r: seq<Project>)
    ensures |r| == |xs|
    ensures forall i, j :: 0 <= i < j < |r| && r[j].featured ==> r[i].featured
  {
    FilterSplitsCount(xs, Featured, NotFeatured);
    var fs := Filter(xs, Featured);
    var ns := Filter(xs, NotFeatured);
    assert AllFeatured(fs) && NoneFeatured(ns);
    fs + ns
  }

  /** Inserting a project into featured-then-other blocks puts it at the end of its own block. */
  lemma {:induction false} InsertIntoBlocks(fs: seq<Project>, ns: seq<Project>, x: Project)
    requires AllFeatured(fs) && NoneFeatured(ns)
    ensures Insert(fs + ns, x) == if x.featured then fs + [x] + ns else fs + ns + [x]
    decreases |ns|
  {
    var all := fs + ns;
    if |ns| > 0 {
      var last := ns[|ns| - 1];
      assert all[|all| - 1] == last;
      if x.featured {
        assert Compare(last, x) > 0;
        var init := ns[..|ns| - 1];
        assert all[..|all| - 1] == fs + init;
        InsertIntoBlocks(fs, init, x);
        assert Insert(all, x) == Insert(fs + init, x) + [last];
        assert fs + [x] + init + [last] == fs + [x] + ns;
      } else {
        assert Compare(last, x) == 0;
      }
    } else {
      assert all == fs;
      if |fs| > 0 {
        assert fs[|fs| - 1].featured;
        assert Compare(fs[|fs| - 1], x) <= 0;
      }
    }
  }

  /** Filtering keeps the last project exactly when it passes, after the filtered rest. */
  lemma {:induction false} FilterSnoc(xs: seq<Project>, f: Project -> bool)
    requires |xs| > 0
    ensures f(xs[|xs| - 1]) ==> Filter(xs, f) == Filter(xs[..|xs| - 1], f) + [xs[|xs| - 1]]
    ensures !f(xs[|xs| - 1]) ==> Filter(xs, f) == Filter(xs[..|xs| - 1], f)
    decreases |xs|
  {
    var n := |xs|;
    var last := xs[n - 1];
    if n == 1 {
      assert xs[1..] == [] && xs[..0] == [];
      assert Filter(xs, f) == if f(last) then [last] + [] else [];
    } else {
      var init := xs[..n - 1];
      var tail := xs[1..];
      FilterSnoc(tail, f);
      assert tail[..n - 2] == init[1..];
      assert tail[n - 2] == last;
      assert init[0] == xs[0];
      var rest := Filter(init[1..], f);
      var h: seq<Project> := if f(xs[0]) then [xs[0]] else [];
      assert Filter(init, f) == h + rest;
      assert Filter(xs, f) == h + Filter(tail, f);
      if f(last) {
        assert h + (rest + [last]) == (h + rest) + [last];
      }
    }
  }

  /** Sorting in the last project, when the rest sorted into blocks, extends its own block. */
  lemma SortSnoc(xs: seq<Project>, fs: seq<Project>, ns: seq<Project>)
    requires |xs| > 0
    requires StableSort(xs[..|xs| - 1]) == fs + ns
    requires AllFeatured(fs) && NoneFeatured(ns)
    ensures var x := xs[|xs| - 1];
      StableSort(xs) == if x.featured then fs + [x] + ns else fs + ns + [x]
  {
    InsertIntoBlocks(fs, ns, xs[|xs| - 1]);
  }

  /** The stable sort is the featured projects, then the others, each block in data order. */
  lemma {:induction false} StableSortPartitions(xs: seq<Project>)
    ensures StableSort(xs) == Filter(xs, Featured) + Filter(xs, NotFeatured)
    decreases |xs|
  {
    if |xs| > 0 {
      var init := xs[..|xs| - 1];
      StableSortPartitions(init);
      var fs := Filter(init, Featured);
      var ns := Filter(init, NotFeatured);
      assert AllFeatured(fs) && NoneFeatured(ns);
      SortSnoc(xs, fs, ns);
      FilterSnoc(xs, Featured);
      FilterSnoc(xs, NotFeatured);
      if !xs[|xs| - 1].featured {
        assert fs + ns + [xs[|xs| - 1]] == fs + (ns + [xs[|xs| - 1]]);
      }
    }
  }

  /** The stable sort under the comparator is the featured-first partition: the data order survives inside each block. */
  lemma StableSortIsFeaturedFirst(xs: seq<Project>)
    ensures StableSort(xs) == FeaturedFirst(xs)
  {
    StableSortPartitions(xs);
  }

  /** `displayProjects`: the sorted projects, cut to five. */
  function DisplayProjects(projects: seq<Project>): (shown: seq<Project>)
    ensures |shown| == Min(|projects|, MaxDisplayed)
    ensures forall i, j :: 0 <= i < j < |shown| && shown[j].featured ==> shown[i].featured
    ensures forall i :: 0 <= i < |shown| ==> shown[i] in projects
  {
    var sorted := StableSort(projects);
    StableSortIsFeaturedFirst(projects);
    forall i | 0 <= i < |sorted|
      ensures sorted[i] in projects
    {
      if i < |Filter(projects, Featured)| {
        assert sorted[i] == Filter(projects, Featured)[i];
      } else {
        assert sorted[i] == Filter(projects, NotFeatured)[i - |Filter(projects, Featured)|];
      }
    }
    Take(sorted, MaxDisplayed)
  }

  /** The displayed projects keep every project as many times as the data holds it, up to the cut: the sort loses and invents nothing. */
  lemma SortIsPermutation(projects: seq<Project>)
    ensures multiset(StableSort(projects)) == multiset(projects)
  {
    StableSortIsFeaturedFirst(projects);
    FilterMultiset(projects);
  }

  lemma {:induction false} FilterMultiset(xs: seq<Project>)
    ensures multiset(Filter(xs, Featured) + Filter(xs, NotFeatured)) == multiset(xs)
    decreases |xs|
  {
    if |xs| > 0 {
      var h := xs[0];
      var t := xs[1..];
      FilterMultiset(t);
      var fs := Filter(t, Featured);
      var ns := Filter(t, NotFeatured);
      assert multiset(xs) == multiset{h} + multiset(t) by {
        assert xs == [h] + t;
      }
      if h.featured {
        assert Filter(xs, Featured) == [h] + fs;
        assert Filter(xs, NotFeatured) == ns;
        assert multiset([h] + fs + ns) == multiset{h} + multiset(fs + ns);
      } else {
        assert Filter(xs, Featured) == fs;
        assert Filter(xs, NotFeatured) == [h] + ns;
        assert multiset(fs + ([h] + ns)) == multiset{h} + multiset(fs + ns);
      }
    }
  }

  /** When at least five projects are featured, only featured projects are displayed: the first five of them. */
  lemma FeaturedFillTheGrid(projects: seq<Project>)
    requires |Filter(projects, Featured)| >= MaxDisplayed
    ensures DisplayProjects(projects) == Filter(projects, Featured)[..MaxDisplayed]
  {
    StableSortIsFeaturedFirst(projects);
  }
}
