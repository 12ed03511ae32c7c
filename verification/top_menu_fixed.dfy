/** The `wp_nav_menu` filter `twentyseventeen_filter_top_menu_fixed`. For the
    fixed copy of the top menu it makes two zero-width regular-expression
    replacements: `(?=\sid="top-menu-fixed")` → ` aria-hidden="true" ` and then
    `(?=\shref=)` → ` tabindex="-1" `. Each is modelled directly as a string
    function: the replacement is inserted before every position that holds a
    `\s` character followed by the pattern text. */
module TopMenuFixed {
  import opened Php
  import opened Environment

  const FixedMenuId := "top-menu-fixed"

  /** One lookahead insertion: before each `\s` followed by `pat`, insert
      `" " + word + " "`. */
  datatype Insertion = Insertion(pat: string, word: string)

  /** The replacement text of an insertion. */
  function Rep(ins: Insertion): string {
    " " + ins.word + " "
  }

  const HideMenu := Insertion("id=\"top-menu-fixed\"", "aria-hidden=\"true\"")
  const UnfocusLinks := Insertion("href=", "tabindex=\"-1\"")

  /** The lookahead `(?=\s<pat>)` succeeds at the start of `s`. */
  predicate MatchAt(s: string, pat: string) {
    |s| > 0 && IsSpace(s[0]) && pat <= s[1..]
  }

  /** Number of positions of `s` at which the lookahead succeeds. */
  function CountMatches(s: string, pat: string): nat
    decreases |s|
  {
    if |s| == 0 then 0
    else (if MatchAt(s, pat) then 1 else 0) + CountMatches(s[1..], pat)
  }

  /** `preg_replace( '/(?=\s<pat>)/', <rep>, s )`: an empty match is tried at
      every position of the subject, left to right, and the replacement is put
      in front of each position where it succeeds; inserted text is never
      rescanned. The result grows by the replacement's length per match. */
  function InsertBefore(s: string, ins: Insertion): (r: string)
    ensures |r| == |s| + |Rep(ins)| * CountMatches(s, ins.pat)
    decreases |s|
  {
    if |s| == 0 then ""
    else (if MatchAt(s, ins.pat) then Rep(ins) else "") + [s[0]] + InsertBefore(s[1..], ins)
  }

  /** The inverse of `InsertBefore`: drops each copy of the replacement that
      stands right before a `\s` followed by the pattern. */
  function StripBefore(r: string, ins: Insertion): string
    decreases |r|
  {
    if |r| == 0 then ""
    else if Rep(ins) <= r && MatchAt(r[|Rep(ins)|..], ins.pat) then
      [r[|Rep(ins)|]] + StripBefore(r[|Rep(ins)| + 1..], ins)
    else [r[0]] + StripBefore(r[1..], ins)
  }

  /** What makes an insertion undoable: the pattern and the word between the
      replacement's two spaces contain no `\s`, and they start differently. */
  predicate WellFormed(ins: Insertion) {
    && |ins.pat| > 0 && Plain(ins.pat)
    && |ins.word| > 0 && Plain(ins.word)
    && ins.word[0] != ins.pat[0]
  }

  /** Insertion passes a leading run of non-`\s` characters through unchanged. */
  lemma {:induction false} InsertKeepsPlainPrefix(x: string, w: string, ins: Insertion)
    requires Plain(w) && w <= x
    ensures InsertBefore(x, ins) == w + InsertBefore(x[|w|..], ins)
    decreases |w|
  {
    if |w| > 0 {
      assert InsertBefore(x, ins) == [x[0]] + InsertBefore(x[1..], ins);
      assert w[1..] <= x[1..];
      InsertKeepsPlainPrefix(x[1..], w[1..], ins);
      assert x[1..][|w| - 1..] == x[|w|..];
      assert [w[0]] + w[1..] == w;
    } else {
      assert x[0..] == x;
    }
  }

  /** A non-`\s` run at the front of the output was at the front of the input. */
  lemma {:induction false} PlainPrefixOfInsert(x: string, p: string, ins: Insertion)
    requires Plain(p)
    ensures p <= InsertBefore(x, ins) ==> p <= x
    decreases |x|
  {
    if |p| > 0 && |x| > 0 {
      if MatchAt(x, ins.pat) {
        assert InsertBefore(x, ins)[0] == ' ';
      } else {
        assert InsertBefore(x, ins) == [x[0]] + InsertBefore(x[1..], ins);
        PlainPrefixOfInsert(x[1..], p[1..], ins);
      }
    }
  }

  /** The output never starts with a match of its own: the replacement puts a
      non-`\s` word after its leading space, and a match copied from the input
      would have been a match there. */
  lemma {:induction false} InsertNoLeadingMatch(v: string, ins: Insertion)
    requires WellFormed(ins)
    ensures !MatchAt(InsertBefore(v, ins), ins.pat)
  {
    if |v| > 0 {
      if MatchAt(v, ins.pat) {
        assert InsertBefore(v, ins)[1] == ins.word[0];
      } else {
        assert InsertBefore(v, ins) == [v[0]] + InsertBefore(v[1..], ins);
        PlainPrefixOfInsert(v[1..], ins.pat, ins);
      }
    }
  }

  /** Nor is there a match right after the output's first character. */
  lemma InsertNoMatchAfterFirst(u: string, ins: Insertion)
    requires WellFormed(ins) && |u| > 0
    ensures !MatchAt(InsertBefore(u, ins)[1..], ins.pat)
  {
    if MatchAt(u, ins.pat) {
      assert InsertBefore(u, ins)[1] == ins.word[0];
    } else {
      assert InsertBefore(u, ins)[1..] == InsertBefore(u[1..], ins);
      InsertNoLeadingMatch(u[1..], ins);
    }
  }

  /** Where the input character is copied without a replacement in front, the
      output there does not look like a replacement followed by a match, so
      `StripBefore` leaves it alone. */
  lemma NoSpuriousMatch(t: string, ins: Insertion)
    requires WellFormed(ins) && |t| > 0
    ensures var o := [t[0]] + InsertBefore(t[1..], ins);
      !(Rep(ins) <= o && MatchAt(o[|Rep(ins)|..], ins.pat))
  {
    var w := ins.word;
    var y := InsertBefore(t[1..], ins);
    var o := [t[0]] + y;
    PlainPrefixOfInsert(t[1..], w, ins);
    if Rep(ins) <= o {
      assert o[1..|w| + 1] == w;
      assert w <= y;
      InsertKeepsPlainPrefix(t[1..], w, ins);
      var u := t[1..][|w|..];
      assert y == w + InsertBefore(u, ins);
      assert |u| > 0;
      InsertNoMatchAfterFirst(u, ins);
      assert o[|Rep(ins)|..] == InsertBefore(u, ins)[1..];
    }
  }

  /** At a match, `StripBefore` drops the replacement and keeps the input
      character that followed it. */
  lemma StripAtMatch(s: string, ins: Insertion)
    requires WellFormed(ins) && MatchAt(s, ins.pat)
    ensures StripBefore(InsertBefore(s, ins), ins)
         == [s[0]] + StripBefore(InsertBefore(s[1..], ins), ins)
  {
    var rest := InsertBefore(s[1..], ins);
    var rep := Rep(ins);
    var r := rep + ([s[0]] + rest);
    assert InsertBefore(s, ins) == r;
    assert r[|rep|..] == [s[0]] + rest;
    InsertKeepsPlainPrefix(s[1..], ins.pat, ins);
    assert MatchAt(r[|rep|..], ins.pat);
    assert r[|rep|] == s[0];
    assert r[|rep| + 1..] == rest;
  }

  /** Elsewhere `StripBefore` keeps the copied character. */
  lemma StripAtCopy(s: string, ins: Insertion)
    requires WellFormed(ins) && |s| > 0 && !MatchAt(s, ins.pat)
    ensures StripBefore(InsertBefore(s, ins), ins)
         == [s[0]] + StripBefore(InsertBefore(s[1..], ins), ins)
  {
    var r := [s[0]] + InsertBefore(s[1..], ins);
    assert InsertBefore(s, ins) == r;
    NoSpuriousMatch(s, ins);
    assert r[1..] == InsertBefore(s[1..], ins);
  }

  /** Stripping the inserted copies gives the original menu back, so the
      insertion adds text and changes nothing else. */
  lemma {:induction false} StripInsert(s: string, ins: Insertion)
    requires WellFormed(ins)
    ensures StripBefore(InsertBefore(s, ins), ins) == s
    decreases |s|
  {
    if |s| > 0 {
      if MatchAt(s, ins.pat) {
        StripAtMatch(s, ins);
      } else {
        StripAtCopy(s, ins);
      }
      StripInsert(s[1..], ins);
    }
  }

  /** A leading run of non-`\s` characters holds no match. */
  lemma {:induction false} CountAfterPlain(a: string, y: string, pat: string)
    requires Plain(a)
    ensures CountMatches(a + y, pat) == CountMatches(y, pat)
    decreases |a|
  {
    if |a| > 0 {
      assert (a + y)[1..] == a[1..] + y;
      CountAfterPlain(a[1..], y, pat);
    } else {
      assert a + y == y;
    }
  }

  /** A space put in front of a `\s` character adds no match: the pattern
      does not start with `\s`. */
  lemma CountAfterSpace(y: string, pat: string)
    requires |pat| > 0 && Plain(pat)
    requires |y| > 0 && IsSpace(y[0])
    ensures CountMatches([' '] + y, pat) == CountMatches(y, pat)
  {
    var sy := [' '] + y;
    assert CountMatches(sy, pat) == (if MatchAt(sy, pat) then 1 else 0) + CountMatches(sy[1..], pat);
    assert sy[1..] == y;
    assert !(pat <= y) by { assert !IsSpace(pat[0]); }
  }

  /** A replacement put in front of a `\s` character adds no match of a
      second pattern that starts differently from the replacement's word. */
  lemma CountAfterRep(y: string, ins: Insertion, pat: string)
    requires WellFormed(ins) && |pat| > 0 && Plain(pat) && ins.word[0] != pat[0]
    requires |y| > 0 && IsSpace(y[0])
    ensures CountMatches(Rep(ins) + y, pat) == CountMatches(y, pat)
  {
    var sy := [' '] + y;
    var wy := ins.word + sy;
    var z := [' '] + wy;
    assert Rep(ins) + y == z;
    assert CountMatches(z, pat) == (if MatchAt(z, pat) then 1 else 0) + CountMatches(z[1..], pat);
    assert z[1..] == wy;
    assert !(pat <= wy) by { assert wy[0] == ins.word[0]; }
    CountAfterPlain(ins.word, sy, pat);
    CountAfterSpace(y, pat);
  }

  /** Copying one input character keeps the matches of a second pattern: the
      character is a match in the output exactly when it was in the input. */
  lemma CountAfterCopy(s: string, ins: Insertion, pat: string)
    requires |s| > 0 && |pat| > 0 && Plain(pat)
    ensures CountMatches([s[0]] + InsertBefore(s[1..], ins), pat)
         == (if MatchAt(s, pat) then 1 else 0) + CountMatches(InsertBefore(s[1..], ins), pat)
  {
    var rest := InsertBefore(s[1..], ins);
    var tail := [s[0]] + rest;
    assert CountMatches(tail, pat) == (if MatchAt(tail, pat) then 1 else 0) + CountMatches(tail[1..], pat);
    assert tail[1..] == rest;
    PlainPrefixOfInsert(s[1..], pat, ins);
    if pat <= s[1..] {
      InsertKeepsPlainPrefix(s[1..], pat, ins);
    }
  }

  /** The first insertion leaves the matches of a second pattern where they
      were: the second pass sees exactly the input's matches. */
  lemma {:induction false} CountMatchesAfterInsert(s: string, ins: Insertion, pat: string)
    requires WellFormed(ins) && |pat| > 0 && Plain(pat) && ins.word[0] != pat[0]
    ensures CountMatches(InsertBefore(s, ins), pat) == CountMatches(s, pat)
    decreases |s|
  {
    if |s| > 0 {
      CountMatchesAfterInsert(s[1..], ins, pat);
      CountStep(s, ins, pat);
    }
  }

  /** Unfolds `InsertBefore` once where the lookahead fails. Stated apart so
      that `CountStep` sees the unfolding without the function's body, which
      otherwise sends the solver into the count's recursion. */
  lemma InsertCopy(x: string, ins: Insertion)
    requires |x| > 0 && !MatchAt(x, ins.pat)
    ensures InsertBefore(x, ins) == [x[0]] + InsertBefore(x[1..], ins)
  {
  }

  /** Unfolds `InsertBefore` once where the lookahead succeeds, for the same
      reason. */
  lemma InsertAtMatch(x: string, ins: Insertion)
    requires MatchAt(x, ins.pat)
    ensures InsertBefore(x, ins) == Rep(ins) + ([x[0]] + InsertBefore(x[1..], ins))
  {
    var y := InsertBefore(x[1..], ins);
    assert (Rep(ins) + [x[0]]) + y == Rep(ins) + ([x[0]] + y);
  }

  /** One step of `CountMatchesAfterInsert`, given the count after the first
      character. */
  lemma CountStep(s: string, ins: Insertion, pat: string)
    requires WellFormed(ins) && |pat| > 0 && Plain(pat) && ins.word[0] != pat[0]
    requires |s| > 0
    requires CountMatches(InsertBefore(s[1..], ins), pat) == CountMatches(s[1..], pat)
    ensures CountMatches(InsertBefore(s, ins), pat) == CountMatches(s, pat)
  {
    var tail := [s[0]] + InsertBefore(s[1..], ins);
    assert CountMatches(tail, pat) == CountMatches(s, pat) by {
      CountAfterCopy(s, ins, pat);
      assert CountMatches(s, pat) == (if MatchAt(s, pat) then 1 else 0) + CountMatches(s[1..], pat);
    }
    if MatchAt(s, ins.pat) {
      InsertAtMatch(s, ins);
      CountAfterRep(tail, ins, pat);
    } else {
      InsertCopy(s, ins);
    }
  }

  /** `twentyseventeen_filter_top_menu_fixed( $nav_menu, $args )`. */
  function FilterTopMenuFixed(navMenu: string, args: NavMenuArgs): (r: string)
    ensures args.menuId != FixedMenuId ==> r == navMenu
    ensures args.menuId == FixedMenuId ==>
      |r| == |navMenu| + 20 * CountMatches(navMenu, HideMenu.pat)
                       + 15 * CountMatches(navMenu, UnfocusLinks.pat)
  {
    if args.menuId == FixedMenuId then
      var hidden := InsertBefore(navMenu, HideMenu);
      assert WellFormed(HideMenu) && WellFormed(UnfocusLinks);
      CountMatchesAfterInsert(navMenu, HideMenu, UnfocusLinks.pat);
      InsertBefore(hidden, UnfocusLinks)
    else navMenu
  }

  /** Undoes the filter for the fixed menu: strips the `tabindex` copies, then
      the `aria-hidden` copies. */
  function UnfilterTopMenuFixed(r: string, args: NavMenuArgs): string {
    if args.menuId == FixedMenuId then
      StripBefore(StripBefore(r, UnfocusLinks), HideMenu)
    else r
  }

  /** The filter only inserts: undoing it yields the menu markup it was given. */
  lemma FilterTopMenuFixedReversible(navMenu: string, args: NavMenuArgs)
    ensures UnfilterTopMenuFixed(FilterTopMenuFixed(navMenu, args), args) == navMenu
  {
    assert WellFormed(HideMenu) && WellFormed(UnfocusLinks);
    if args.menuId == FixedMenuId {
      StripInsert(InsertBefore(navMenu, HideMenu), UnfocusLinks);
      StripInsert(navMenu, HideMenu);
    }
  }
}
