# Twenty Seventeen: the theme's decisions and rewrites

Twenty Seventeen is a WordPress theme. Most of it prints markup. A few of
its functions make decisions or rewrite strings, and this project models
them in Dafny:

- the `body_class` filter, which appends class names to the `<body>` class list;
- the `wp_nav_menu` filter, which marks the fixed copy of the top menu `aria-hidden` and takes its links out of the tab order;
- the `the_content` filter, which puts a quote icon after each `<blockquote>` opening tag in quote-format posts;
- the `walker_nav_menu_start_el` filter, which adds an AMP dropdown toggle after each parent menu item, numbered by a static counter;
- `twentyseventeen_panel_count()`, which counts the front-page section panels that are set;
- in `header.php`, the `<html>` class list and the conditions for the navigation blocks and the featured image header.

Everything the theme asks WordPress about the request is a field of one
record: `is_page()`, `get_option()`, the stored theme mods,
`twentyseventeen_is_amp()`'s two inputs, and so on (`Environment.Request`).
Helpers whose code is not part of this model are opaque string functions.
These are `esc_attr`, `esc_html`, `wp_json_encode` on strings, `__`,
`twentyseventeen_get_svg` and `twentyseventeen_sanitize_colorscheme`.

Three one-line definitions are stated directly:
- `twentyseventeen_is_amp()` is the predicate `Environment.IsAmp`: the AMP plugin's `is_amp_endpoint` exists and says this is an AMP endpoint.
- `twentyseventeen_is_frontpage()` is `Environment.IsFrontpage`: the front page, and not the blog posts index.
- `get_theme_mod( name, default )` is `Environment.ThemeMod`: the stored mod when it is set and not null, else the default.

What each means for the theme is stated in the contracts of the filters and of the header layout that use them.

Modules, one file each:

- `Php` (`php.dfy`): PHP value truthiness, `empty()` on strings, the `\s` class, integer-to-decimal conversion with its inverse, and `implode`/`explode` on one character with their round trip.
- `Environment` (`environment.dfy`): the request record, `get_theme_mod`, and the opaque helpers.
- `BodyClasses` (`body_classes.dfy`): the body-class decision table.
- `TopMenuFixed` (`top_menu_fixed.dfy`): the two lookahead insertions, with an inverse that removes them.
- `QuotesIcon` (`quotes_icon.dfy`): the lazy `<blockquote…>` match and the icon insertion, with an inverse.
- `NavSubMenu` (`nav_sub_menu.dfy`): the dropdown toggle, the filter, and runs of calls threading the static counter.
- `PanelCount` (`panel_count.dfy`): the counting loop against a set-cardinality reference.
- `Header` (`header.php`'s decisions, `header.dfy`).

## Model

| member | source | states |
|---|---|---|
| BodyClasses.FilterBodyClasses | src/wp-content/themes/twentyseventeen/inc/template-functions.php:16-82 | The input class list is kept unchanged as the prefix of the result. Each of the eleven literal classes is appended exactly when its condition holds. `colors-` plus the sanitised colour scheme is always appended, and it is the only appended name starting with `colors-`. No appended class repeats another: each is added once. |
| BodyClasses.AppendedFromTable | src/wp-content/themes/twentyseventeen/inc/template-functions.php:16-82 | Every appended name belongs to a decision row whose condition holds, so nothing else is appended. |
| BodyClasses.RulesSelected | src/wp-content/themes/twentyseventeen/inc/template-functions.php:17-79 | In the decision table, each row's class is selected exactly when the row applies. Exactly one selected name starts with `colors-`. |
| TopMenuFixed.InsertBefore | src/wp-content/themes/twentyseventeen/inc/template-functions.php:195-196 | One zero-width `preg_replace` grows the subject by the replacement's length once per position where `\s` followed by the pattern matches. `StripInsert` proves that it changes nothing else. |
| TopMenuFixed.FilterTopMenuFixed | src/wp-content/themes/twentyseventeen/inc/template-functions.php:193-199 | A menu whose `menu_id` is not `top-menu-fixed` is returned unchanged. For the fixed copy, the markup grows by 20 characters per `\s` followed by `id="top-menu-fixed"` and by 15 per `\s` followed by `href=` in the input. |
| TopMenuFixed.FilterTopMenuFixedReversible | src/wp-content/themes/twentyseventeen/inc/template-functions.php:193-199 | Removing what the filter inserted gives back the menu markup it was given, so the filter only inserts the two attribute strings. |
| TopMenuFixed.StripInsert | src/wp-content/themes/twentyseventeen/inc/template-functions.php:195-196 | For a replacement whose word and pattern hold no `\s` and start differently, one lookahead insertion is undone exactly by `StripBefore`. |
| TopMenuFixed.CountMatchesAfterInsert | src/wp-content/themes/twentyseventeen/inc/template-functions.php:195-196 | The `aria-hidden` insertion neither creates nor removes `\s href=` positions, so the second replacement sees the input's link positions. |
| QuotesIcon.SetQuotesIcon | src/wp-content/themes/twentyseventeen/inc/template-functions.php:170-176 | Content is returned unchanged unless the post format is 'quote'. For a quote, removing the 'quote-right' icons after the matched tags gives the content back. |
| QuotesIcon.InsertIcon | src/wp-content/themes/twentyseventeen/inc/template-functions.php:173 | The replacement never shortens the content, and content without a matched `<blockquote…>` tag comes back unchanged. |
| QuotesIcon.RemoveInsertIcon | src/wp-content/themes/twentyseventeen/inc/template-functions.php:173 | Putting the icon after each lazily matched tag and then removing it gives back the original content: no other edits happen. |
| QuotesIcon.InsertIconLength | src/wp-content/themes/twentyseventeen/inc/template-functions.php:173 | For a quote, the replacement makes the content longer by the icon's length once per matched tag, and by nothing else. |
| QuotesIcon.TagEnd | src/wp-content/themes/twentyseventeen/inc/template-functions.php:173 | The lazy `.*?>` match ends at the first `>` after `<blockquote`, newlines included. |
| NavSubMenu.AddNavSubMenuButtons | src/wp-content/themes/twentyseventeen/inc/template-functions.php:96-159 | The item markup and the counter come back unchanged when the response is not AMP, the theme location is empty, or the item lacks `menu-item-has-children`. Otherwise the counter rises by exactly one, and the output is the input followed by the toggle numbered by the new counter. |
| NavSubMenu.MakeToggle | src/wp-content/themes/twentyseventeen/inc/template-functions.php:114-152 | The toggle is expanded exactly when the item has `current-menu-ancestor`. `toggled-on`, the `aria-expanded` value and the collapse/expand screen-reader text all agree with that state. The class list starts with `dropdown-toggle`. |
| NavSubMenu.RenderToggle | src/wp-content/themes/twentyseventeen/inc/template-functions.php:119-155 | The printed toggle opens with the `amp-state` named after the state id, whose JSON is `true` exactly when the toggle starts expanded and `false` otherwise. It ends with the button markup. |
| NavSubMenu.RenderedState | src/wp-content/themes/twentyseventeen/inc/template-functions.php:114-123 | For item number N, the printed `amp-state` is `navMenuItemExpandedN`, and its initial JSON is `true` exactly when the item has `current-menu-ancestor`. |
| NavSubMenu.StateIdInjective | src/wp-content/themes/twentyseventeen/inc/template-functions.php:116 | `navMenuItemExpandedN` ids are equal exactly when their numbers are equal. |
| NavSubMenu.RunCounters | src/wp-content/themes/twentyseventeen/inc/template-functions.php:111-112 | Along the walker's calls, each result carries the counter threaded from the previous call. |
| NavSubMenu.CountersClosedForm | src/wp-content/themes/twentyseventeen/inc/template-functions.php:111-112 | After the i-th call, the counter is the starting value plus the number of toggles added by calls 0 to i. |
| NavSubMenu.RunCounter | src/wp-content/themes/twentyseventeen/inc/template-functions.php:111-116 | In a run, the N of `navMenuItemExpandedN` counts the parent items in the order they are printed. |
| NavSubMenu.StateIdsDistinct | src/wp-content/themes/twentyseventeen/inc/template-functions.php:111-116 | A call that adds a toggle gets a counter above every earlier call's, so its state id differs from every earlier toggle's id in the request. |
| Environment.ThemeModReadBack | src/wp-content/themes/twentyseventeen/inc/template-functions.php:62 | A mod stored with a value other than null reads back as that value whatever the default. Storing null or removing the mod makes the default read again. Storing one mod leaves every other mod's reading unchanged. |
| PanelCount.PanelCount | src/wp-content/themes/twentyseventeen/inc/template-functions.php:253-274 | The count is the number of `i` in 1..`num_sections` whose `panel_i` mod is truthy. It is at most `max(num_sections, 0)`. It is zero exactly when no such panel is set. |
| PanelCount.DefaultPanelCount | src/wp-content/themes/twentyseventeen/inc/template-functions.php:264-273 | With the unfiltered four sections, at most four panels count. |
| PanelCount.ActivePanelsBound | src/wp-content/themes/twentyseventeen/inc/template-functions.php:267-271 | There are never more set panels than sections. |
| Php.NatToStringInjective | src/wp-content/themes/twentyseventeen/inc/template-functions.php:116 | PHP's decimal rendering of a counter is injective: two numbers give the same digits only when they are equal. |
| Php.ParseNatToString | src/wp-content/themes/twentyseventeen/inc/template-functions.php:116 | Reading back the decimal digits of a number gives the number. |
| Php.SplitJoin | src/wp-content/themes/twentyseventeen/header.php:35 | Splitting an `implode( ' ', … )` of space-free names on spaces gives back the list. |
| Header.HtmlClasses | src/wp-content/themes/twentyseventeen/header.php:15-32 | The list is exactly `no-js`, `background-fixed`, `svg` on AMP responses and `no-js`, `no-svg` elsewhere. It has three classes under AMP and two otherwise, starts with `no-js`, ends with `svg` or `no-svg`, and holds no other class. |
| Header.HtmlClassesRecoverable | src/wp-content/themes/twentyseventeen/header.php:35 | The space-joined class list, before escaping, names each class once and in order: splitting it on spaces gives the class list back. |
| Header.HeaderLayout | src/wp-content/themes/twentyseventeen/header.php:52-100 | The top navigation is present exactly when a top menu exists. The fixed copy and the position observer are present exactly when a top menu exists on an AMP response. The observer gets `32px 0` margins exactly under the admin bar. The featured image shows exactly on a single post, or on a page that is not the static front page, when there is a thumbnail. |
| Header.MenusUnderFilter | src/wp-content/themes/twentyseventeen/header.php:70-79 | The fixed copy is printed with `menu_id` `top-menu-fixed`, which the menu filter rewrites reversibly, while the ordinary top menu passes through the filter unchanged. |

## Left out

- `twentyseventeen_add_fixed_nav_menu_amp_animation`: on AMP responses it prints a fixed block of animation JSON, including floating-point opacities. Elsewhere it prints nothing. Its only decision is `Environment.IsAmp`.
- Hook registration (`add_filter`, `add_action`) and the template loader: the model calls each filter directly.
- The WordPress queries are inputs, not behaviour. `Environment.ThemeMod` follows the `isset` test of WordPress's `get_theme_mod`, whose code is not part of this model. `get_theme_mod`'s `theme_mod_{name}` filter and its `sprintf` of the default are not modelled.
- The opaque helpers: escaping, translation, JSON encoding of strings, SVG markup and the colour-scheme sanitiser are parameters with no properties assumed.
- Markup other than the dropdown toggle is left out: the rest of `header.php` and the navigation template.
- The `navigation-top.php` template is represented only by the `wp_nav_menu()` arguments it passes (`Header.TopNavArgs`).
- `functions.php`'s replacement of `no-js` by `js` in non-AMP responses is not part of this model.
- QuotesIcon.SetQuotesIcon: the icon markup is inserted literally. A `$n` or `\n` inside the icon would be read by `preg_replace` as a back-reference, and that is not modelled.
- QuotesIcon.SetQuotesIcon: its contract gives the round trip but not the exact growth. The growth by one icon per matched tag is stated of the replacement itself by QuotesIcon.InsertIconLength.
- TopMenuFixed.FilterTopMenuFixed and QuotesIcon.SetQuotesIcon: `preg_replace` returning `null` on a PCRE error (such as the backtrack limit) is not modelled.
- Strings are sequences of characters rather than bytes. `\s` is the non-Unicode PCRE class: space, tab, newline, vertical tab, form feed and carriage return.
- PanelCount.PanelCount: the filtered `num_sections` is taken as an integer. A filter that returns a string or a float, compared loosely by PHP, is not modelled.
- NavSubMenu.Run: the calls the menu walker makes during one request are an input sequence. The static counter starts at 0 once per PHP request (`NavSubMenu.InitialCounter`).
- The `$depth` argument of the sub-menu filter is unused by the source and is not modelled.
