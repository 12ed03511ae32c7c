/** `twentyseventeen_panel_count()`: how many of the front-page section
    panels (`panel_1` … `panel_N` theme mods) are set. N is the value of the
    `twentyseventeen_front_page_sections` filter, 4 unless a plugin changes it. */
module PanelCount {
  import opened Php
  import opened Environment

  /** The value passed to the `twentyseventeen_front_page_sections` filter. */
  const DefaultFrontPageSections := 4

  /** The theme mod `panel_i`, as named by `'panel_' . $i`. */
  function PanelKey(i: nat): string {
    "panel_" + NatToString(i)
  }

  /** Panel `i` counts when its theme mod is truthy; an unset mod reads as
      `false`, the default of `get_theme_mod`. */
  predicate PanelActive(mods: map<string, Mixed>, i: nat) {
    Truthy(ThemeMod(mods, PanelKey(i), Bool(false)))
  }

  /** The reference definition: the panel numbers 1 … n whose mod is set. */
  ghost function ActivePanels(mods: map<string, Mixed>, n: int): set<nat> {
    set i: nat | 1 <= i <= n && PanelActive(mods, i)
  }

  /** Going from n - 1 to n adds panel n when it is active, and nothing
      else. */
  lemma ActivePanelsStep(mods: map<string, Mixed>, n: nat)
    requires n >= 1
    ensures n !in ActivePanels(mods, n - 1)
    ensures |ActivePanels(mods, n)| ==
      |ActivePanels(mods, n - 1)| + (if PanelActive(mods, n) then 1 else 0)
  {
    var before := ActivePanels(mods, n - 1);
    if PanelActive(mods, n) {
      assert ActivePanels(mods, n) == before + {n};
    } else {
      assert ActivePanels(mods, n) == before;
    }
  }

  /** No more panels are active than there are sections. */
  lemma {:induction false} ActivePanelsBound(mods: map<string, Mixed>, n: int)
    ensures |ActivePanels(mods, n)| <= if n < 0 then 0 else n
    decreases if n < 0 then 0 else n
  {
    if n <= 0 {
      assert ActivePanels(mods, n) == {};
    } else {
      ActivePanelsBound(mods, n - 1);
      ActivePanelsStep(mods, n);
    }
  }

  /** The loop `for ( $i = 1; $i < ( 1 + $num_sections ); $i++ )` over the
      section numbers, counting the panels whose mod is set. A filter value
      of zero or below runs the loop no times. */
  method PanelCount(mods: map<string, Mixed>, numSections: int) returns (count: nat)
    ensures count == |ActivePanels(mods, numSections)|
    ensures count <= if numSections < 0 then 0 else numSections
    ensures count == 0 <==> forall i: nat :: 1 <= i <= numSections ==> !PanelActive(mods, i)
  {
    count := 0;
    var i: nat := 1;
    assert ActivePanels(mods, 0) == {};
    while i < 1 + numSections
      invariant 1 <= i <= if numSections < 0 then 1 else numSections + 1
      invariant count == |ActivePanels(mods, i - 1)|
      decreases numSections - i
    {
      ActivePanelsStep(mods, i);
      if PanelActive(mods, i) {
        count := count + 1;
      }
      i := i + 1;
    }
    if numSections < 0 {
      assert ActivePanels(mods, numSections) == {} == ActivePanels(mods, i - 1);
    } else {
      assert i - 1 == numSections;
    }
    ActivePanelsBound(mods, numSections);
    if count != 0 {
      ghost var k :| k in ActivePanels(mods, numSections);
      assert 1 <= k <= numSections && PanelActive(mods, k);
    } else {
      forall j: nat | 1 <= j <= numSections
        ensures !PanelActive(mods, j)
      {
        assert j !in ActivePanels(mods, numSections);
      }
    }
  }

  /** `twentyseventeen_panel_count()` when no plugin filters the number of
      sections: at most four panels count. */
  method DefaultPanelCount(mods: map<string, Mixed>) returns (count: nat)
    ensures count == |ActivePanels(mods, DefaultFrontPageSections)|
    ensures count <= DefaultFrontPageSections
  {
    count := PanelCount(mods, DefaultFrontPageSections);
  }
}
