/** The `walker_nav_menu_start_el` filter
    `twentyseventeen_add_nav_sub_menu_buttons`. On AMP responses it appends,
    after the markup of each parent menu item, an `amp-state` holding whether
    the sub-menu is expanded and a dropdown toggle button bound to that state.
    The function's `static` item counter is threaded through as explicit
    state: each call takes the counter and returns it with the output. */
module NavSubMenu {
  import opened Php
  import opened Environment

  const ParentClass := "menu-item-has-children"
  const AncestorClass := "current-menu-ancestor"
  const DropdownClass := "dropdown-toggle"
  const ToggledClass := "toggled-on"
  const StatePrefix := "navMenuItemExpanded"
  const CollapseText := "collapse child menu"
  const ExpandText := "expand child menu"

  /** The value of `static $nav_menu_item_number` before the first call. */
  const InitialCounter: nat := 0

  /** The part of a nav menu item the filter reads: its CSS classes. */
  datatype MenuItem = MenuItem(classes: seq<string>)

  /** The dropdown toggle the filter builds, before it is printed: the
      `amp-state` id, the initial expanded state, the initial class list, the
      initial `aria-expanded` value and the untranslated screen-reader text. */
  datatype Toggle = Toggle(
    stateId: string,
    expanded: bool,
    classes: seq<string>,
    ariaExpanded: string,
    screenReaderText: string
  )

  /** The initial rendering agrees with the initial state everywhere: the
      class list, `aria-expanded` and the screen-reader text all say
      "expanded" or all say "collapsed". */
  predicate Consistent(t: Toggle) {
    && (ToggledClass in t.classes <==> t.expanded)
    && (t.ariaExpanded == "true" <==> t.expanded)
    && (t.ariaExpanded == "false" <==> !t.expanded)
    && (t.screenReaderText == CollapseText <==> t.expanded)
    && (t.screenReaderText == ExpandText <==> !t.expanded)
  }

  /** `'navMenuItemExpanded' . $nav_menu_item_number`. */
  function StateId(n: nat): string {
    StatePrefix + NatToString(n)
  }

  /** Different counter values give different state ids. */
  lemma StateIdInjective(a: nat, b: nat)
    ensures StateId(a) == StateId(b) <==> a == b
  {
    if StateId(a) == StateId(b) {
      assert NatToString(a) == StateId(a)[|StatePrefix|..];
      assert NatToString(b) == StateId(b)[|StatePrefix|..];
      NatToStringInjective(a, b);
    }
  }

  /** The toggle for the item numbered `n`. */
  function MakeToggle(n: nat, item: MenuItem): (t: Toggle)
    ensures t.stateId == StateId(n)
    ensures t.expanded <==> AncestorClass in item.classes
    ensures Consistent(t)
    ensures |t.classes| >= 1 && t.classes[0] == DropdownClass
  {
    var expanded := AncestorClass in item.classes;
    Toggle(
      StateId(n),
      expanded,
      [DropdownClass] + (if expanded then [ToggledClass] else []),
      JsonBool(expanded),
      if expanded then CollapseText else ExpandText)
  }

  /** The start of the `amp-state` element, up to where its JSON value goes. */
  function StateOpen(id: string, h: Helpers): string {
    "<amp-state id=\"" + h.escAttr(id) + "\"><script type=\"application/json\">"
  }

  /** The button bound to the state, attribute by attribute as the filter's
      `sprintf` calls build it. */
  function ButtonMarkup(t: Toggle, h: Helpers): string {
    var id := t.stateId;
    "<button"
    + " class=\"" + h.escAttr(Join(t.classes, ' ')) + "\" [class]=\""
      + h.escAttr(h.jsonString(DropdownClass) + " + ( " + id + " ? "
                  + h.jsonString(" " + ToggledClass) + " : '' )") + "\""
    + " aria-expanded=\"" + h.escAttr(t.ariaExpanded) + "\" [aria-expanded]=\""
      + h.escAttr(id + " ? 'true' : 'false'") + "\""
    + " on=\"" + h.escAttr("tap:AMP.setState( { " + id + ": ! " + id + " } )") + "\""
    + ">"
    + h.svg(SvgArgs("angle-down", true))
    + "<span class=\"screen-reader-text\" [text]=\""
      + h.escAttr(id + " ? " + h.jsonString(h.translate(CollapseText)) + " : "
                  + h.jsonString(h.translate(ExpandText))) + "\">"
      + h.escHtml(h.translate(t.screenReaderText)) + "</span>"
    + "</button>"
  }

  /** Matching `a + w` against `a + rest` comes down to matching `w` against
      `rest`. */
  lemma PrefixAfter(a: string, w: string, rest: string)
    ensures a + w <= a + rest <==> w <= rest
  {
    var x, y := a + w, a + rest;
    if w <= rest {
      assert forall k :: 0 <= k < |x| ==> x[k] == y[k];
    }
    if x <= y {
      assert forall k :: 0 <= k < |w| ==> w[k] == x[|a| + k] == y[|a| + k] == rest[k];
    }
  }

  /** Text that starts with a JSON boolean starts with `true` exactly when
      the boolean holds, and with `false` exactly when it does not. */
  lemma JsonBoolLeads(b: bool, tail: string)
    ensures "true" <= JsonBool(b) + tail <==> b
    ensures "false" <= JsonBool(b) + tail <==> !b
  {
    var x := JsonBool(b) + tail;
    if b {
      assert x[..4] == "true";
      assert !("false" <= x) by { assert x[0] == 't'; }
    } else {
      assert x[..5] == "false";
      assert !("true" <= x) by { assert x[0] == 'f'; }
    }
  }

  /** Closes the `amp-state` element after its JSON value. */
  const StateClose := "</script></amp-state>"

  /** The facts `RenderToggle` promises, over any state opening and button. */
  lemma StateThenButton(head: string, expanded: bool, button: string)
    ensures var r := head + (JsonBool(expanded) + StateClose + button);
      && head <= r
      && (head + "true" <= r <==> expanded)
      && (head + "false" <= r <==> !expanded)
      && |button| <= |r| && r[|r| - |button|..] == button
  {
    var rest := JsonBool(expanded) + StateClose + button;
    var r := head + rest;
    PrefixAfter(head, "true", rest);
    PrefixAfter(head, "false", rest);
    PrefixAfter(head, [], rest);
    assert head + [] == head;
    JsonBoolLeads(expanded, StateClose + button);
    assert rest == JsonBool(expanded) + (StateClose + button);
    assert r[|r| - |button|..] == button;
  }

  /** The markup printed for a toggle: the `amp-state` holding the initial
      expanded state as JSON, then the button. The state element comes first,
      its JSON reads `true` exactly when the toggle starts expanded, and the
      markup ends with the button. */
  function RenderToggle(t: Toggle, h: Helpers): (r: string)
    ensures StateOpen(t.stateId, h) <= r
    ensures StateOpen(t.stateId, h) + "true" <= r <==> t.expanded
    ensures StateOpen(t.stateId, h) + "false" <= r <==> !t.expanded
    ensures |ButtonMarkup(t, h)| <= |r| && r[|r| - |ButtonMarkup(t, h)|..] == ButtonMarkup(t, h)
  {
    StateThenButton(StateOpen(t.stateId, h), t.expanded, ButtonMarkup(t, h));
    StateOpen(t.stateId, h) + (JsonBool(t.expanded) + StateClose + ButtonMarkup(t, h))
  }

  /** The printed toggle of item number `n` opens the `amp-state` named
      `navMenuItemExpandedN`, whose JSON reads `true` exactly when the item has
      `current-menu-ancestor` and `false` otherwise. */
  lemma RenderedState(n: nat, item: MenuItem, h: Helpers)
    ensures var r := RenderToggle(MakeToggle(n, item), h);
      && StateOpen(StateId(n), h) <= r
      && (StateOpen(StateId(n), h) + "true" <= r <==> AncestorClass in item.classes)
      && (StateOpen(StateId(n), h) + "false" <= r <==> AncestorClass !in item.classes)
  {
  }

  /** The filter's result: the item markup and the counter after the call. */
  datatype Filtered = Filtered(output: string, counter: nat)

  /** Whether the filter adds a toggle: an AMP response, a menu with a theme
      location, and an item with children. */
  predicate AddsToggle(item: MenuItem, args: NavMenuArgs, q: Request) {
    IsAmp(q) && !EmptyString(args.themeLocation) && ParentClass in item.classes
  }

  /** The static counter after one call: incremented only when a toggle is
      added. */
  function NextCounter(item: MenuItem, args: NavMenuArgs, q: Request, counter: nat): nat {
    if AddsToggle(item, args, q) then counter + 1 else counter
  }

  /** `twentyseventeen_add_nav_sub_menu_buttons( $item_output, $item, $depth,
      $nav_menu_args )` with the static counter passed in and returned. */
  function AddNavSubMenuButtons(itemOutput: string, item: MenuItem, args: NavMenuArgs,
                                q: Request, h: Helpers, counter: nat): (r: Filtered)
    ensures r.counter == NextCounter(item, args, q, counter)
    ensures !AddsToggle(item, args, q) ==> r == Filtered(itemOutput, counter)
    ensures AddsToggle(item, args, q) ==>
      && r.counter == counter + 1
      && r.output == itemOutput + RenderToggle(MakeToggle(r.counter, item), h)
  {
    if !IsAmp(q) then Filtered(itemOutput, counter)
    else if EmptyString(args.themeLocation) then Filtered(itemOutput, counter)
    else if ParentClass !in item.classes then Filtered(itemOutput, counter)
    else
      var n := counter + 1;
      Filtered(itemOutput + RenderToggle(MakeToggle(n, item), h), n)
  }

  /** One call of the filter by the menu walker. */
  datatype Call = Call(itemOutput: string, item: MenuItem, args: NavMenuArgs)

  /** The counter left behind by each call of a run, without the markup. */
  function Counters(calls: seq<Call>, q: Request, counter: nat): (cs: seq<nat>)
    ensures |cs| == |calls|
    decreases |calls|
  {
    if |calls| == 0 then []
    else
      var n := NextCounter(calls[0].item, calls[0].args, q, counter);
      [n] + Counters(calls[1..], q, n)
  }

  /** The filter applied to the walker's calls in order during one request,
      the counter carried from each call to the next. */
  function Run(calls: seq<Call>, q: Request, h: Helpers, counter: nat): (rs: seq<Filtered>)
    ensures |rs| == |calls|
    decreases |calls|
  {
    if |calls| == 0 then []
    else
      var c := calls[0];
      var f := AddNavSubMenuButtons(c.itemOutput, c.item, c.args, q, h, counter);
      [f] + Run(calls[1..], q, h, f.counter)
  }

  /** Each result of a run holds the counter that `Counters` threads. */
  lemma {:induction false} RunCounters(calls: seq<Call>, q: Request, h: Helpers, counter: nat, i: nat)
    requires i < |calls|
    ensures Run(calls, q, h, counter)[i].counter == Counters(calls, q, counter)[i]
    decreases i
  {
    var c := calls[0];
    var f := AddNavSubMenuButtons(c.itemOutput, c.item, c.args, q, h, counter);
    var n := NextCounter(c.item, c.args, q, counter);
    assert f.counter == n;
    var rest := Run(calls[1..], q, h, n);
    assert Run(calls, q, h, counter) == [f] + rest;
    assert Counters(calls, q, counter) == [n] + Counters(calls[1..], q, n);
    if i > 0 {
      RunCounters(calls[1..], q, h, n, i - 1);
    }
  }

  /** How many of these calls add a toggle. */
  function ToggleCount(calls: seq<Call>, q: Request): nat
    decreases |calls|
  {
    if |calls| == 0 then 0
    else
      var c := calls[|calls| - 1];
      ToggleCount(calls[..|calls| - 1], q) + if AddsToggle(c.item, c.args, q) then 1 else 0
  }

  lemma {:induction false} ToggleCountCons(c: Call, cs: seq<Call>, q: Request)
    ensures ToggleCount([c] + cs, q) ==
      (if AddsToggle(c.item, c.args, q) then 1 else 0) + ToggleCount(cs, q)
    decreases |cs|
  {
    if |cs| > 0 {
      var front := cs[..|cs| - 1];
      assert ([c] + cs)[..|cs|] == [c] + front;
      ToggleCountCons(c, front, q);
    } else {
      assert [c] + cs == [c];
      assert [c][..0] == [];
    }
  }

  /** A longer prefix of the calls has added at least as many toggles. */
  lemma {:induction false} ToggleCountMonotone(calls: seq<Call>, q: Request, i: nat, j: nat)
    requires i <= j <= |calls|
    ensures ToggleCount(calls[..i], q) <= ToggleCount(calls[..j], q)
    decreases j - i
  {
    if i < j {
      assert calls[..j][..j - 1] == calls[..j - 1];
      ToggleCountMonotone(calls, q, i, j - 1);
    }
  }

  /** The counter after the i-th call is the starting counter plus the
      number of toggles added by calls 0 … i. */
  lemma {:induction false} CountersClosedForm(calls: seq<Call>, q: Request, counter: nat, i: nat)
    requires i < |calls|
    ensures Counters(calls, q, counter)[i] == counter + ToggleCount(calls[..i + 1], q)
    decreases i
  {
    var c := calls[0];
    var n := NextCounter(c.item, c.args, q, counter);
    assert Counters(calls, q, counter) == [n] + Counters(calls[1..], q, n);
    if i == 0 {
      assert calls[..1] == [c] + [];
      ToggleCountCons(c, [], q);
    } else {
      CountersClosedForm(calls[1..], q, n, i - 1);
      assert calls[..i + 1] == [c] + calls[1..][..i];
      ToggleCountCons(c, calls[1..][..i], q);
    }
  }

  /** In a run, the counter after the i-th call is the starting counter plus
      the number of toggles added by calls 0 … i, so the N of
      `navMenuItemExpandedN` numbers the parent items in the order they are
      printed. */
  lemma RunCounter(calls: seq<Call>, q: Request, h: Helpers, counter: nat, i: nat)
    requires i < |calls|
    ensures Run(calls, q, h, counter)[i].counter == counter + ToggleCount(calls[..i + 1], q)
  {
    RunCounters(calls, q, h, counter, i);
    CountersClosedForm(calls, q, counter, i);
  }

  /** Within a run, a later call that adds a toggle has seen more toggles
      added than any earlier call. */
  lemma ToggleCountIncreases(calls: seq<Call>, q: Request, i: nat, j: nat)
    requires i < j < |calls| && AddsToggle(calls[j].item, calls[j].args, q)
    ensures ToggleCount(calls[..i + 1], q) < ToggleCount(calls[..j + 1], q)
  {
    ToggleCountMonotone(calls, q, i + 1, j);
    assert calls[..j + 1][..j] == calls[..j];
  }

  /** A call that adds a toggle takes a counter above every earlier call's,
      so its `navMenuItemExpandedN` state id is different from the ids of
      all toggles added before it in the request. */
  lemma StateIdsDistinct(calls: seq<Call>, q: Request, h: Helpers, counter: nat, i: nat, j: nat)
    requires i < j < |calls| && AddsToggle(calls[j].item, calls[j].args, q)
    ensures var rs := Run(calls, q, h, counter);
      rs[i].counter < rs[j].counter
      && StateId(rs[i].counter) != StateId(rs[j].counter)
  {
    var rs := Run(calls, q, h, counter);
    RunCounter(calls, q, h, counter, i);
    RunCounter(calls, q, h, counter, j);
    ToggleCountIncreases(calls, q, i, j);
    StateIdInjective(rs[i].counter, rs[j].counter);
  }
}
