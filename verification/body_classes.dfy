/** The `body_class` filter `twentyseventeen_body_classes`: a decision table
    that appends class names to the list WordPress passes in. */
module BodyClasses {
  import opened Php
  import opened Environment

  const ColorsPrefix := "colors-"
  const DefaultColorscheme := "light"
  const OneColumnLayout := "one-column"

  /** The front page shows a static page (`show_on_front` is not 'posts'). */
  predicate StaticFrontPage(q: Request) {
    q.isFrontPage && q.showOnFront != Str("posts")
  }

  /** The `page_layout` theme mod is exactly 'one-column' (a strict comparison,
      with `false` when the mod is unset). */
  predicate OneColumn(q: Request) {
    ThemeMod(q.themeMods, "page_layout", Bool(false)) == Str(OneColumnLayout)
  }

  /** The sanitised `colorscheme` theme mod, 'light' when unset. */
  function Colorscheme(q: Request, sanitize: Mixed -> string): string {
    sanitize(ThemeMod(q.themeMods, "colorscheme", Str(DefaultColorscheme)))
  }

  /** One row of the decision table: a class name and whether it is appended. */
  datatype Rule = Rule(name: string, applies: bool)

  /** The decision table, one row per `$classes[] = …` of the filter, in the
      order the filter tests them. The one-or-two-column choice is split into
      its two outcomes. */
  function Rules(q: Request, sanitize: Mixed -> string): seq<Rule> {
    [ Rule("group-blog", q.isMultiAuthor),
      Rule("hfeed", !q.isSingular),
      Rule("twentyseventeen-customizer", q.isCustomizePreview),
      Rule("twentyseventeen-front-page", StaticFrontPage(q)),
      Rule("has-header-image", q.hasHeaderImage),
      Rule("has-sidebar", q.sidebarActive && !q.isPage),
      Rule("page-one-column", (q.isPage || q.isArchive) && OneColumn(q)),
      Rule("page-two-column", (q.isPage || q.isArchive) && !OneColumn(q)),
      Rule("title-tagline-hidden", q.headerTextColor == "blank"),
      Rule(ColorsPrefix + Colorscheme(q, sanitize), true),
      Rule("has-header-video", IsAmp(q) && q.hasHeaderVideo),
      Rule("is-front-page-layout", StaticFrontPage(q) || (q.isHome && q.isFrontPage)) ]
  }

  /** The names of the rows that apply, in table order. */
  function Selected(rules: seq<Rule>): seq<string>
    decreases |rules|
  {
    if |rules| == 0 then []
    else (if rules[0].applies then [rules[0].name] else []) + Selected(rules[1..])
  }

  /** A row whose name no other row carries contributes that name exactly
      when it applies. */
  lemma {:induction false} SelectedRow(rules: seq<Rule>, k: nat)
    requires k < |rules|
    requires forall j :: 0 <= j < |rules| && j != k ==> rules[j].name != rules[k].name
    ensures rules[k].name in Selected(rules) <==> rules[k].applies
    decreases |rules|
  {
    var head := if rules[0].applies then [rules[0].name] else [];
    assert Selected(rules) == head + Selected(rules[1..]);
    if k == 0 {
      SelectedAbsent(rules[1..], rules[0].name);
    } else {
      assert rules[1..][k - 1] == rules[k];
      SelectedRow(rules[1..], k - 1);
    }
  }

  /** A name no applying row carries is not selected. */
  lemma {:induction false} SelectedAbsent(rules: seq<Rule>, x: string)
    requires forall j :: 0 <= j < |rules| && rules[j].applies ==> rules[j].name != x
    ensures x !in Selected(rules)
    decreases |rules|
  {
    if |rules| > 0 {
      SelectedAbsent(rules[1..], x);
    }
  }

  /** Every selected name is the name of a row that applies. */
  lemma {:induction false} SelectedFrom(rules: seq<Rule>, x: string)
    requires x in Selected(rules)
    ensures exists k :: 0 <= k < |rules| && rules[k].applies && rules[k].name == x
    decreases |rules|
  {
    var head := if rules[0].applies then [rules[0].name] else [];
    assert Selected(rules) == head + Selected(rules[1..]);
    if x !in head {
      SelectedFrom(rules[1..], x);
      var k :| 0 <= k < |rules[1..]| && rules[1..][k].applies && rules[1..][k].name == x;
      assert rules[k + 1] == rules[1..][k];
    }
  }

  /** Rows with pairwise different names select each name at most once. */
  lemma {:induction false} SelectedDistinct(rules: seq<Rule>)
    requires forall i, j :: 0 <= i < j < |rules| ==> rules[i].name != rules[j].name
    ensures var sel := Selected(rules);
      forall i, j :: 0 <= i < j < |sel| ==> sel[i] != sel[j]
    decreases |rules|
  {
    if |rules| > 0 {
      var head := if rules[0].applies then [rules[0].name] else [];
      var tail := Selected(rules[1..]);
      assert Selected(rules) == head + tail;
      SelectedDistinct(rules[1..]);
      SelectedAbsent(rules[1..], rules[0].name);
    }
  }

  /** Number of names in `xs` that start with `prefix`. */
  function CountPrefixed(xs: seq<string>, prefix: string): nat
    decreases |xs|
  {
    if |xs| == 0 then 0
    else (if prefix <= xs[0] then 1 else 0) + CountPrefixed(xs[1..], prefix)
  }

  lemma {:induction false} CountPrefixedAppend(a: seq<string>, b: seq<string>, prefix: string)
    ensures CountPrefixed(a + b, prefix) == CountPrefixed(a, prefix) + CountPrefixed(b, prefix)
    decreases |a|
  {
    if |a| > 0 {
      assert (a + b)[0] == a[0];
      assert (a + b)[1..] == a[1..] + b;
      CountPrefixedAppend(a[1..], b, prefix);
    } else {
      assert a + b == b;
    }
  }

  /** When exactly one applying row has a name starting with `prefix`, exactly
      one selected name starts with it. */
  lemma {:induction false} CountPrefixedUnique(rules: seq<Rule>, prefix: string, k: nat)
    requires k < |rules| && rules[k].applies && prefix <= rules[k].name
    requires forall i :: 0 <= i < |rules| && i != k && rules[i].applies ==> !(prefix <= rules[i].name)
    ensures CountPrefixed(Selected(rules), prefix) == 1
    decreases |rules|
  {
    var head := if rules[0].applies then [rules[0].name] else [];
    assert Selected(rules) == head + Selected(rules[1..]);
    CountPrefixedAppend(head, Selected(rules[1..]), prefix);
    if k == 0 {
      CountPrefixedNone(rules[1..], prefix);
    } else {
      assert rules[1..][k - 1] == rules[k];
      CountPrefixedUnique(rules[1..], prefix, k - 1);
    }
  }

  lemma {:induction false} CountPrefixedNone(rules: seq<Rule>, prefix: string)
    requires forall i :: 0 <= i < |rules| && rules[i].applies ==> !(prefix <= rules[i].name)
    ensures CountPrefixed(Selected(rules), prefix) == 0
    decreases |rules|
  {
    if |rules| > 0 {
      var head := if rules[0].applies then [rules[0].name] else [];
      assert Selected(rules) == head + Selected(rules[1..]);
      CountPrefixedAppend(head, Selected(rules[1..]), prefix);
      CountPrefixedNone(rules[1..], prefix);
    }
  }

  /** Each row's name is appended exactly when the row applies, and exactly
      one appended name starts with 'colors-'. */
  lemma RulesSelected(q: Request, sanitize: Mixed -> string)
    ensures var rules := Rules(q, sanitize);
      forall k :: 0 <= k < |rules| ==> (rules[k].name in Selected(rules) <==> rules[k].applies)
    ensures CountPrefixed(Selected(Rules(q, sanitize)), ColorsPrefix) == 1
  {
    var rules := Rules(q, sanitize);
    NamesDistinct(q, sanitize);
    forall k | 0 <= k < |rules|
      ensures rules[k].name in Selected(rules) <==> rules[k].applies
    {
      SelectedRow(rules, k);
    }
    CountPrefixedUnique(rules, ColorsPrefix, 9);
  }

  /** The appended names: each literal class exactly when its condition holds,
      and exactly one 'colors-' class. The rows are taken three at a time,
      which keeps each proof small. */
  lemma AppendedClasses(q: Request, sanitize: Mixed -> string)
    ensures var added := Selected(Rules(q, sanitize));
      && ("group-blog" in added <==> q.isMultiAuthor)
      && ("hfeed" in added <==> !q.isSingular)
      && ("twentyseventeen-customizer" in added <==> q.isCustomizePreview)
      && ("twentyseventeen-front-page" in added <==> StaticFrontPage(q))
      && ("has-header-image" in added <==> q.hasHeaderImage)
      && ("has-sidebar" in added <==> q.sidebarActive && !q.isPage)
      && ("page-one-column" in added <==> (q.isPage || q.isArchive) && OneColumn(q))
      && ("page-two-column" in added <==> (q.isPage || q.isArchive) && !OneColumn(q))
      && ("title-tagline-hidden" in added <==> q.headerTextColor == "blank")
      && ColorsPrefix + Colorscheme(q, sanitize) in added
      && ("has-header-video" in added <==> IsAmp(q) && q.hasHeaderVideo)
      && ("is-front-page-layout" in added <==> StaticFrontPage(q) || (q.isHome && q.isFrontPage))
      && CountPrefixed(added, ColorsPrefix) == 1
  {
    AppendedAudienceClasses(q, sanitize);
    AppendedHeaderClasses(q, sanitize);
    AppendedLayoutClasses(q, sanitize);
    AppendedStyleClasses(q, sanitize);
    RulesSelected(q, sanitize);
  }

  /** The rows for a multi-author blog, a listing (`hfeed`) and the
      Customizer preview. */
  lemma AppendedAudienceClasses(q: Request, sanitize: Mixed -> string)
    ensures var added := Selected(Rules(q, sanitize));
      ("group-blog" in added <==> q.isMultiAuthor)
      && ("hfeed" in added <==> !q.isSingular)
      && ("twentyseventeen-customizer" in added <==> q.isCustomizePreview)
  {
    var rules := Rules(q, sanitize);
    RulesSelected(q, sanitize);
    assert rules[0] == Rule("group-blog", q.isMultiAuthor);
    assert rules[1] == Rule("hfeed", !q.isSingular);
    assert rules[2] == Rule("twentyseventeen-customizer", q.isCustomizePreview);
  }

  /** The rows for the static front page, the header image and the
      sidebar. */
  lemma AppendedHeaderClasses(q: Request, sanitize: Mixed -> string)
    ensures var added := Selected(Rules(q, sanitize));
      ("twentyseventeen-front-page" in added <==> StaticFrontPage(q))
      && ("has-header-image" in added <==> q.hasHeaderImage)
      && ("has-sidebar" in added <==> q.sidebarActive && !q.isPage)
  {
    var rules := Rules(q, sanitize);
    RulesSelected(q, sanitize);
    assert rules[3] == Rule("twentyseventeen-front-page", StaticFrontPage(q));
    assert rules[4] == Rule("has-header-image", q.hasHeaderImage);
    assert rules[5] == Rule("has-sidebar", q.sidebarActive && !q.isPage);
  }

  /** The rows for the page layout and the hidden site title. */
  lemma AppendedLayoutClasses(q: Request, sanitize: Mixed -> string)
    ensures var added := Selected(Rules(q, sanitize));
      ("page-one-column" in added <==> (q.isPage || q.isArchive) && OneColumn(q))
      && ("page-two-column" in added <==> (q.isPage || q.isArchive) && !OneColumn(q))
      && ("title-tagline-hidden" in added <==> q.headerTextColor == "blank")
  {
    var rules := Rules(q, sanitize);
    RulesSelected(q, sanitize);
    assert rules[6] == Rule("page-one-column", (q.isPage || q.isArchive) && OneColumn(q));
    assert rules[7] == Rule("page-two-column", (q.isPage || q.isArchive) && !OneColumn(q));
    assert rules[8] == Rule("title-tagline-hidden", q.headerTextColor == "blank");
  }

  /** The rows for the colour scheme, the AMP header video and the
      front-page layout. */
  lemma AppendedStyleClasses(q: Request, sanitize: Mixed -> string)
    ensures var added := Selected(Rules(q, sanitize));
      ColorsPrefix + Colorscheme(q, sanitize) in added
      && ("has-header-video" in added <==> IsAmp(q) && q.hasHeaderVideo)
      && ("is-front-page-layout" in added <==> StaticFrontPage(q) || (q.isHome && q.isFrontPage))
  {
    var rules := Rules(q, sanitize);
    RulesSelected(q, sanitize);
    assert rules[9] == Rule(ColorsPrefix + Colorscheme(q, sanitize), true);
    assert rules[10] == Rule("has-header-video", IsAmp(q) && q.hasHeaderVideo);
    assert rules[11] == Rule("is-front-page-layout", StaticFrontPage(q) || (q.isHome && q.isFrontPage));
  }

  /** The rows carry pairwise different names, and only the colour-scheme row
      (row 9) has a name starting with 'colors-'. */
  lemma NamesDistinct(q: Request, sanitize: Mixed -> string)
    ensures var rules := Rules(q, sanitize);
      forall i, j :: 0 <= i < |rules| && 0 <= j < |rules| && i != j ==> rules[i].name != rules[j].name
    ensures var rules := Rules(q, sanitize);
      forall i :: 0 <= i < |rules| && i != 9 ==> !(ColorsPrefix <= rules[i].name)
  {
    var rules := Rules(q, sanitize);
    forall i | 0 <= i < |rules|
      ensures forall j :: 0 <= j < |rules| && i != j ==> rules[i].name != rules[j].name
      ensures i != 9 ==> !(ColorsPrefix <= rules[i].name)
    {
      NameUnique(q, sanitize, i);
    }
  }

  /** Row i's name differs from every other row's: the colour-scheme row
      is the only one starting with 'c', and literal names differ in length
      or in one of the characters compared. */
  lemma NameUnique(q: Request, sanitize: Mixed -> string, i: nat)
    requires i < 12
    ensures var rules := Rules(q, sanitize);
      forall j :: 0 <= j < |rules| && i != j ==> rules[i].name != rules[j].name
    ensures i != 9 ==> !(ColorsPrefix <= Rules(q, sanitize)[i].name)
  {
    var rules := Rules(q, sanitize);
    assert rules[9].name[0] == 'c';
    forall j | 0 <= j < |rules| && i != j
      ensures rules[i].name != rules[j].name
    {
      var a, b := rules[i].name, rules[j].name;
      if i != 9 && j != 9 && |a| == |b| {
        assert a[0] != b[0] || a[5] != b[5] || a[11] != b[11] || a[16] != b[16];
      }
    }
  }

  /** No appended name is appended twice: the table's names are distinct. */
  lemma AppendedOnce(q: Request, sanitize: Mixed -> string)
    ensures var added := Selected(Rules(q, sanitize));
      forall i, j :: 0 <= i < j < |added| ==> added[i] != added[j]
  {
    NamesDistinct(q, sanitize);
    SelectedDistinct(Rules(q, sanitize));
  }

  /** `twentyseventeen_body_classes( $classes )`. The input list is kept as it
      is and each class name is appended exactly when its condition holds,
      once; the colour-scheme class is the only appended name that starts
      with 'colors-'. */
  function FilterBodyClasses(classes: seq<string>, q: Request, sanitize: Mixed -> string): (r: seq<string>)
    ensures |classes| <= |r| && r[..|classes|] == classes
    ensures var added := r[|classes|..];
      && ("group-blog" in added <==> q.isMultiAuthor)
      && ("hfeed" in added <==> !q.isSingular)
      && ("twentyseventeen-customizer" in added <==> q.isCustomizePreview)
      && ("twentyseventeen-front-page" in added <==> StaticFrontPage(q))
      && ("has-header-image" in added <==> q.hasHeaderImage)
      && ("has-sidebar" in added <==> q.sidebarActive && !q.isPage)
      && ("page-one-column" in added <==> (q.isPage || q.isArchive) && OneColumn(q))
      && ("page-two-column" in added <==> (q.isPage || q.isArchive) && !OneColumn(q))
      && ("title-tagline-hidden" in added <==> q.headerTextColor == "blank")
      && ("has-header-video" in added <==> IsAmp(q) && q.hasHeaderVideo)
      && ("is-front-page-layout" in added <==> StaticFrontPage(q) || (q.isHome && q.isFrontPage))
      && ColorsPrefix + Colorscheme(q, sanitize) in added
      && CountPrefixed(added, ColorsPrefix) == 1
    ensures forall i, j :: |classes| <= i < j < |r| ==> r[i] != r[j]
  {
    var added := Selected(Rules(q, sanitize));
    AppendedClasses(q, sanitize);
    AppendedOnce(q, sanitize);
    assert (classes + added)[|classes|..] == added;
    classes + added
  }

  /** On a page or an archive exactly one of the two layout classes is
      appended, 'page-one-column' exactly when the layout mod says so; elsewhere
      neither is. */
  lemma PageLayoutExclusive(classes: seq<string>, q: Request, sanitize: Mixed -> string)
    ensures var added := FilterBodyClasses(classes, q, sanitize)[|classes|..];
      && (q.isPage || q.isArchive <==> "page-one-column" in added || "page-two-column" in added)
      && !("page-one-column" in added && "page-two-column" in added)
  {
  }

  /** Nothing but the table's class names is appended: every name after the
      input list belongs to a row whose condition holds. */
  lemma AppendedFromTable(classes: seq<string>, q: Request, sanitize: Mixed -> string, x: string)
    requires x in FilterBodyClasses(classes, q, sanitize)[|classes|..]
    ensures var rules := Rules(q, sanitize);
      exists k :: 0 <= k < |rules| && rules[k].applies && rules[k].name == x
  {
    var added := Selected(Rules(q, sanitize));
    assert (classes + added)[|classes|..] == added;
    SelectedFrom(Rules(q, sanitize), x);
  }
}
