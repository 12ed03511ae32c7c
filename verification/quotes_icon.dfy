/** The `the_content` filter `twentyseventeen_set_quotes_icon`. For posts in
    the 'quote' format it runs `preg_replace( '#(<blockquote.*?>)#s',
    '$1' . $icon, $content )`: each `<blockquote` opening tag, taken lazily up
    to the first `>` after it (newlines included), is followed by the icon. */
module QuotesIcon {
  import opened Php
  import opened Environment

  const QuoteFormat := "quote"
  const TagOpen := "<blockquote"

  /** The pattern matches at the start of `s`: it begins with `<blockquote`
      and a `>` follows somewhere after that. */
  predicate OpensTag(s: string) {
    TagOpen <= s && '>' in s[|TagOpen|..]
  }

  /** Length of the lazily matched tag: up to and including the first `>`
      after `<blockquote`. */
  function TagEnd(s: string): (j: nat)
    requires OpensTag(s)
    ensures |TagOpen| < j <= |s| && s[j - 1] == '>' && '>' !in s[|TagOpen|..j - 1]
  {
    var k := IndexOf(s[|TagOpen|..], '>');
    assert s[|TagOpen|..][..k] == s[|TagOpen|..|TagOpen| + k];
    |TagOpen| + k + 1
  }

  /** The first `c` of `a + b` is the first `c` of `a` when `a` has one. */
  lemma {:induction false} IndexOfPrefix(a: string, b: string, c: char)
    requires c in a
    ensures IndexOf(a + b, c) == IndexOf(a, c)
    decreases |a|
  {
    if a[0] != c {
      assert (a + b)[1..] == a[1..] + b;
      assert c in a[1..] by { var i := IndexOf(a, c); assert a[1..][i - 1] == c; }
      IndexOfPrefix(a[1..], b, c);
    }
  }

  /** Number of tags the pattern matches, scanning left to right without
      overlap. */
  function CountTags(s: string): nat
    decreases |s|
  {
    if |s| == 0 then 0
    else if OpensTag(s) then 1 + CountTags(s[TagEnd(s)..])
    else CountTags(s[1..])
  }

  /** The replacement: the icon right after each matched tag, nothing else
      touched. A failed match at one position moves the scan on by one
      character, as the regular-expression engine does. The output is never
      shorter, and content with no matched tag comes back as it is. */
  function InsertIcon(s: string, icon: string): (r: string)
    ensures |s| <= |r|
    ensures CountTags(s) == 0 ==> r == s
    decreases |s|
  {
    if |s| == 0 then ""
    else if OpensTag(s) then
      var j := TagEnd(s);
      s[..j] + icon + InsertIcon(s[j..], icon)
    else [s[0]] + InsertIcon(s[1..], icon)
  }

  /** The content grows by the icon's length once per matched tag. */
  lemma {:induction false} InsertIconLength(s: string, icon: string)
    ensures |InsertIcon(s, icon)| == |s| + |icon| * CountTags(s)
    decreases |s|
  {
    if |s| > 0 && OpensTag(s) {
      var j := TagEnd(s);
      InsertIconLength(s[j..], icon);
      LengthAtTag(s, icon);
    } else if |s| > 0 {
      InsertIconLength(s[1..], icon);
    }
  }

  /** One step of `InsertIcon` at a matched tag, as a separate lemma so that
      the round-trip proofs see the unfolding without the function's body. */
  lemma InsertAtTag(s: string, icon: string)
    requires OpensTag(s)
    ensures InsertIcon(s, icon) == s[..TagEnd(s)] + icon + InsertIcon(s[TagEnd(s)..], icon)
  {
  }

  /** Isolates the one nonlinear step of `LengthAtTag`, which the solver
      handles cheaply only on its own. */
  lemma LengthArith(total: int, j: int, n: int, rest: int, restLen: int, c: int)
    requires total == j + n + rest && rest == restLen + n * c
    ensures total == j + restLen + n * (1 + c)
  {
    assert n * (1 + c) == n + n * c;
  }

  lemma LengthAtTag(s: string, icon: string)
    requires OpensTag(s)
    requires var j := TagEnd(s);
      |InsertIcon(s[j..], icon)| == |s[j..]| + |icon| * CountTags(s[j..])
    ensures |InsertIcon(s, icon)| == |s| + |icon| * CountTags(s)
  {
    var j := TagEnd(s);
    assert InsertIcon(s, icon) == s[..j] + icon + InsertIcon(s[j..], icon);
    assert CountTags(s) == 1 + CountTags(s[j..]);
    LengthArith(|InsertIcon(s, icon)|, j, |icon|, |InsertIcon(s[j..], icon)|,
                |s[j..]|, CountTags(s[j..]));
  }

  /** The inverse: drops the icon where it stands right after a matched tag. */
  function RemoveIcon(r: string, icon: string): string
    decreases |r|
  {
    if |r| == 0 then ""
    else if OpensTag(r) then
      var j := TagEnd(r);
      if icon <= r[j..] then r[..j] + RemoveIcon(r[j + |icon|..], icon)
      else r[..j] + RemoveIcon(r[j..], icon)
    else [r[0]] + RemoveIcon(r[1..], icon)
  }

  /** Content without a `>` has nothing to match. */
  lemma {:induction false} InsertIconNoClose(x: string, icon: string)
    requires '>' !in x
    ensures InsertIcon(x, icon) == x
    decreases |x|
  {
    if |x| > 0 {
      assert !OpensTag(x) by {
        if |TagOpen| <= |x| {
          assert forall k :: 0 <= k < |x[|TagOpen|..]| ==> x[|TagOpen|..][k] == x[|TagOpen| + k];
        }
      }
      assert '>' !in x[1..] by {
        assert forall k :: 0 <= k < |x[1..]| ==> x[1..][k] == x[1 + k];
      }
      InsertIconNoClose(x[1..], icon);
    }
  }

  /** A prefix without `>` is left alone: the icon only ever follows a `>`. */
  lemma {:induction false} InsertIconKeepsPrefix(x: string, t: string, icon: string)
    requires '>' !in t
    ensures t <= InsertIcon(x, icon) <==> t <= x
    decreases |x|
  {
    if |x| > 0 && |t| > 0 {
      if OpensTag(x) {
        KeepsPrefixAtTag(x, t, icon);
      } else {
        assert InsertIcon(x, icon) == [x[0]] + InsertIcon(x[1..], icon);
        InsertIconKeepsPrefix(x[1..], t[1..], icon);
      }
    }
  }

  /** At a matched tag a prefix without `>` ends inside the tag, which the
      icon insertion leaves as it is. */
  lemma KeepsPrefixAtTag(x: string, t: string, icon: string)
    requires '>' !in t && OpensTag(x)
    ensures t <= InsertIcon(x, icon) <==> t <= x
  {
    var j := TagEnd(x);
    var r := InsertIcon(x, icon);
    assert r == x[..j] + icon + InsertIcon(x[j..], icon);
    assert r[..j] == x[..j];
    if |t| >= j {
      assert t[j - 1] != '>';
      assert !(t <= r) by { assert r[j - 1] == '>'; }
      assert !(t <= x);
    } else {
      assert t <= r <==> t <= r[..j];
      assert t <= x <==> t <= x[..j];
    }
  }

  /** Where the pattern does not match, the output does not match either. */
  lemma NoSpuriousTag(s: string, icon: string)
    requires |s| > 0 && !OpensTag(s)
    ensures !OpensTag([s[0]] + InsertIcon(s[1..], icon))
  {
    var r := [s[0]] + InsertIcon(s[1..], icon);
    if TagOpen <= s {
      // then no '>' follows the opening text, so there is no '>' at all
      assert s == TagOpen + s[|TagOpen|..];
      assert '>' !in s;
      InsertIconNoClose(s[1..], icon);
      assert r == s;
    } else {
      InsertIconKeepsPrefix(s[1..], TagOpen[1..], icon);
      assert TagOpen <= r <==> TagOpen[1..] <= InsertIcon(s[1..], icon) && s[0] == '<';
    }
  }

  /** After the icon is put behind a matched tag, the pattern still matches
      there and ends at the same place. */
  lemma TagEndAfterInsert(s: string, icon: string, rest: string)
    requires OpensTag(s)
    ensures var j := TagEnd(s); var r := s[..j] + icon + rest;
      OpensTag(r) && TagEnd(r) == j
  {
    var j := TagEnd(s);
    var r := s[..j] + icon + rest;
    var tag := s[|TagOpen|..j];
    assert r[..j] == s[..j];
    assert TagOpen <= r;
    assert tag[j - 1 - |TagOpen|] == '>';
    assert s[|TagOpen|..] == tag + s[j..];
    assert r[|TagOpen|..] == tag + (icon + rest);
    IndexOfPrefix(tag, s[j..], '>');
    IndexOfPrefix(tag, icon + rest, '>');
  }

  /** At a matched tag, `RemoveIcon` finds the same tag end and drops the
      icon put there. */
  lemma RemoveAtTag(s: string, icon: string)
    requires OpensTag(s)
    ensures var j := TagEnd(s);
      RemoveIcon(InsertIcon(s, icon), icon) == s[..j] + RemoveIcon(InsertIcon(s[j..], icon), icon)
  {
    var j := TagEnd(s);
    var rest := InsertIcon(s[j..], icon);
    var r := s[..j] + icon + rest;
    InsertAtTag(s, icon);
    TagEndAfterInsert(s, icon, rest);
    assert r[..j] == s[..j];
    assert r[j..] == icon + rest;
    assert r[j + |icon|..] == rest;
  }

  /** Where no tag opens, `RemoveIcon` copies the character that
      `InsertIcon` copied. */
  lemma RemoveAtCopy(s: string, icon: string)
    requires |s| > 0 && !OpensTag(s)
    ensures RemoveIcon(InsertIcon(s, icon), icon) == [s[0]] + RemoveIcon(InsertIcon(s[1..], icon), icon)
  {
    var r := [s[0]] + InsertIcon(s[1..], icon);
    assert InsertIcon(s, icon) == r;
    NoSpuriousTag(s, icon);
    assert r[1..] == InsertIcon(s[1..], icon);
  }

  /** The round trip at a matched tag, given the round trip after it. */
  lemma RoundTripAtTag(s: string, icon: string)
    requires OpensTag(s)
    requires var j := TagEnd(s); RemoveIcon(InsertIcon(s[j..], icon), icon) == s[j..]
    ensures RemoveIcon(InsertIcon(s, icon), icon) == s
  {
    RemoveAtTag(s, icon);
    SplitAt(s, TagEnd(s));
  }

  /** Splitting at `j` and joining again, kept apart from the round-trip
      proof so that its sequence reasoning stays small. */
  lemma SplitAt(s: string, j: nat)
    requires j <= |s|
    ensures s[..j] + s[j..] == s
  {
  }

  /** The round trip at a copied character, given the round trip after it. */
  lemma RoundTripAtCopy(s: string, icon: string)
    requires |s| > 0 && !OpensTag(s)
    requires RemoveIcon(InsertIcon(s[1..], icon), icon) == s[1..]
    ensures RemoveIcon(InsertIcon(s, icon), icon) == s
  {
    RemoveAtCopy(s, icon);
    assert [s[0]] + s[1..] == s;
  }

  /** Removing the icons gives back the content that went in, so the filter
      adds the icon after each matched tag and changes nothing else. */
  lemma {:induction false} RemoveInsertIcon(s: string, icon: string)
    ensures RemoveIcon(InsertIcon(s, icon), icon) == s
    decreases |s|
  {
    if |s| == 0 {
      assert InsertIcon(s, icon) == "";
    } else if OpensTag(s) {
      RemoveInsertIcon(s[TagEnd(s)..], icon);
      RoundTripAtTag(s, icon);
    } else {
      RemoveInsertIcon(s[1..], icon);
      RoundTripAtCopy(s, icon);
    }
  }

  /** The icon `twentyseventeen_get_svg` returns for 'quote-right'. */
  function QuoteIcon(h: Helpers): string {
    h.svg(SvgArgs("quote-right", false))
  }

  /** `twentyseventeen_set_quotes_icon( $content )`: content is returned as
      it is unless the post format is 'quote'; then the 'quote-right' icon
      follows each matched tag, and removing it gives the content back. */
  function SetQuotesIcon(content: string, q: Request, h: Helpers): (r: string)
    ensures q.postFormat != Str(QuoteFormat) ==> r == content
    ensures q.postFormat == Str(QuoteFormat) ==> RemoveIcon(r, QuoteIcon(h)) == content
  {
    if q.postFormat == Str(QuoteFormat) then
      var icon := QuoteIcon(h);
      RemoveInsertIcon(content, icon);
      InsertIcon(content, icon)
    else content
  }
}
