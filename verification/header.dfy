/** The decisions `header.php` makes before printing markup: the class list
    of the `<html>` element, which navigation blocks the masthead holds, and
    whether the featured image header is shown. */
module Header {
  import opened Php
  import opened Environment
  import opened TopMenuFixed

  const NoJsClass := "no-js"
  const BackgroundFixedClass := "background-fixed"
  const SvgClass := "svg"
  const NoSvgClass := "no-svg"

  /** `viewport-margins` of the position observer when the admin bar is
      showing: it leaves room for the bar. */
  const AdminBarMargins := "32px 0"

  datatype Option<T> = None | Some(value: T)

  /** The classes of the `<html>` element: `no-js` first, `background-fixed`
      on AMP responses, then `svg` on AMP responses and `no-svg` elsewhere. */
  function HtmlClasses(q: Request): (cs: seq<string>)
    ensures |cs| == if IsAmp(q) then 3 else 2
    ensures cs[0] == NoJsClass
    ensures BackgroundFixedClass in cs <==> IsAmp(q)
    ensures SvgClass in cs <==> IsAmp(q)
    ensures NoSvgClass in cs <==> !IsAmp(q)
    ensures cs[|cs| - 1] == if IsAmp(q) then SvgClass else NoSvgClass
    ensures forall i :: 0 <= i < |cs| ==>
      cs[i] in {NoJsClass, BackgroundFixedClass, SvgClass, NoSvgClass}
  {
    [NoJsClass]
    + (if IsAmp(q) then [BackgroundFixedClass] else [])
    + [if IsAmp(q) then SvgClass else NoSvgClass]
  }

  /** The `class` attribute value: the classes joined by single spaces,
      attribute-escaped. */
  function HtmlClassAttribute(q: Request, h: Helpers): string {
    h.escAttr(Join(HtmlClasses(q), ' '))
  }

  /** No class name holds a space, so splitting the joined list on spaces
      yields the class list again: the attribute names each class once, in
      order. */
  lemma HtmlClassesRecoverable(q: Request)
    ensures Split(Join(HtmlClasses(q), ' '), ' ') == HtmlClasses(q)
  {
    var cs := HtmlClasses(q);
    forall i | 0 <= i < |cs|
      ensures ' ' !in cs[i]
    {
      assert cs[i] in {NoJsClass, BackgroundFixedClass, SvgClass, NoSvgClass};
    }
    SplitJoin(cs, ' ');
  }

  /** The `amp-position-observer` that starts the fixed menu's show and hide
      animations; `viewportMargins` is the optional attribute. */
  datatype Observer = Observer(viewportMargins: Option<string>)

  /** What the masthead holds: the top navigation menu, the observer, the
      fixed copy of the top menu, and whether the featured image header
      follows. A menu is given by the `wp_nav_menu()` arguments it is
      printed with. */
  datatype Layout = Layout(
    topNavigation: Option<NavMenuArgs>,
    positionObserver: Option<Observer>,
    fixedNavigation: Option<NavMenuArgs>,
    featuredImage: bool
  )

  /** The top menu printed by `template-parts/navigation/navigation-top.php`. */
  const TopNavArgs := NavMenuArgs("top", "top-menu")

  /** The fixed copy printed on AMP responses. */
  const FixedNavArgs := NavMenuArgs("top", FixedMenuId)

  /** The featured image header shows on a single post, or on a page that is
      not the static front page, when the queried object has a thumbnail. */
  predicate ShowsFeaturedImage(q: Request) {
    (q.isSingle || (q.isPage && !IsFrontpage(q))) && q.hasPostThumbnail
  }

  /** The masthead of `header.php`. Everything navigational sits under
      `has_nav_menu( 'top' )`; the observer and the fixed copy also need an
      AMP response, and the observer gets margins only under the admin bar. */
  function HeaderLayout(q: Request): (l: Layout)
    ensures l.topNavigation.Some? <==> q.hasTopMenu
    ensures l.fixedNavigation.Some? <==> q.hasTopMenu && IsAmp(q)
    ensures l.fixedNavigation.Some? ==> l.topNavigation.Some?
    ensures l.positionObserver.Some? <==> l.fixedNavigation.Some?
    ensures l.positionObserver.Some? ==>
      (l.positionObserver.value.viewportMargins == Some(AdminBarMargins) <==> q.adminBarShowing)
      && (l.positionObserver.value.viewportMargins == None <==> !q.adminBarShowing)
    ensures l.featuredImage <==> ShowsFeaturedImage(q)
    ensures IsFrontpage(q) && !q.isSingle ==> !l.featuredImage
  {
    var amp := q.hasTopMenu && IsAmp(q);
    Layout(
      if q.hasTopMenu then Some(TopNavArgs) else None,
      if amp then Some(Observer(if q.adminBarShowing then Some(AdminBarMargins) else None))
      else None,
      if amp then Some(FixedNavArgs) else None,
      ShowsFeaturedImage(q))
  }

  /** `twentyseventeen_filter_top_menu_fixed` leaves the ordinary top menu
      as it is and rewrites only the fixed copy, and the rewrite inserts
      attributes without losing any of the menu's markup. */
  lemma MenusUnderFilter(q: Request, menu: string)
    ensures var l := HeaderLayout(q);
      l.topNavigation.Some? ==> FilterTopMenuFixed(menu, l.topNavigation.value) == menu
    ensures var l := HeaderLayout(q);
      l.fixedNavigation.Some? ==>
        var a := l.fixedNavigation.value;
        a.menuId == FixedMenuId
        && UnfilterTopMenuFixed(FilterTopMenuFixed(menu, a), a) == menu
  {
    FilterTopMenuFixedReversible(menu, FixedNavArgs);
  }
}
