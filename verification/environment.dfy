/** The WordPress request as the theme sees it. Every query the theme's
    callbacks make of WordPress (`is_page()`, `get_option()`, `get_theme_mod()`,
    `has_nav_menu()`, …) is a field of one immutable record, and every helper
    whose code is not part of this model (escaping, translation, JSON
    encoding of strings, the SVG icon markup, the colour-scheme sanitiser)
    is an opaque string function. */
module Environment {
  import opened Php

  /** The answers WordPress gives for the current request. */
  datatype Request = Request(
    isMultiAuthor: bool,          // is_multi_author()
    isSingular: bool,             // is_singular()
    isSingle: bool,               // is_single()
    isPage: bool,                 // is_page()
    isArchive: bool,              // is_archive()
    isFrontPage: bool,            // is_front_page()
    isHome: bool,                 // is_home()
    isCustomizePreview: bool,     // is_customize_preview()
    showOnFront: Mixed,           // get_option( 'show_on_front' )
    hasHeaderImage: bool,         // has_header_image()
    hasHeaderVideo: bool,         // has_header_video()
    sidebarActive: bool,          // is_active_sidebar( 'sidebar-1' )
    headerTextColor: string,      // get_header_textcolor()
    themeMods: map<string, Mixed>,// the stored theme mods
    ampPluginLoaded: bool,        // function_exists( 'is_amp_endpoint' )
    ampEndpoint: bool,            // is_amp_endpoint()
    postFormat: Mixed,            // get_post_format(): a slug, or false
    hasTopMenu: bool,             // has_nav_menu( 'top' )
    adminBarShowing: bool,        // is_admin_bar_showing()
    hasPostThumbnail: bool        // has_post_thumbnail( get_queried_object_id() )
  )

  /** `get_theme_mod( name, default )`: the stored value when it is set, else
      the default. A mod stored as null is not set under PHP's `isset`, so
      it reads as the default too. */
  function ThemeMod(mods: map<string, Mixed>, name: string, default: Mixed): Mixed {
    if name in mods && mods[name] != Null then mods[name] else default
  }

  /** Reading a mod back after `set_theme_mod`: a value that is not null is
      read as stored, whatever the default; storing null, or removing the
      mod, makes the default read again; and other mods are unaffected. */
  lemma ThemeModReadBack(mods: map<string, Mixed>, name: string, v: Mixed, default: Mixed, other: string)
    requires other != name
    ensures v != Null ==> ThemeMod(mods[name := v], name, default) == v
    ensures ThemeMod(mods[name := Null], name, default) == default
    ensures ThemeMod(mods - {name}, name, default) == default
    ensures ThemeMod(mods[name := v], other, default) == ThemeMod(mods, other, default)
  {
  }

  /** `twentyseventeen_is_amp()`: the AMP plugin is loaded and this is an AMP
      endpoint. */
  predicate IsAmp(q: Request) {
    q.ampPluginLoaded && q.ampEndpoint
  }

  /** `twentyseventeen_is_frontpage()`: the front page is a static page, not
      the blog posts index. */
  predicate IsFrontpage(q: Request) {
    q.isFrontPage && !q.isHome
  }

  /** The arguments of one `wp_nav_menu()` call that the theme's filters read. */
  datatype NavMenuArgs = NavMenuArgs(themeLocation: string, menuId: string)

  /** The arguments of `twentyseventeen_get_svg()`. */
  datatype SvgArgs = SvgArgs(icon: string, fallback: bool)

  /** Helpers whose code is not part of this model, as opaque string
      functions. */
  datatype Helpers = Helpers(
    escAttr: string -> string,    // esc_attr()
    escHtml: string -> string,    // esc_html()
    jsonString: string -> string, // wp_json_encode() of a string
    translate: string -> string,  // __( text, 'twentyseventeen' )
    svg: SvgArgs -> string        // twentyseventeen_get_svg()
  )
}
