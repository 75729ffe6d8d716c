/**
 * The client layout decides whether the intro portal plays: only on the
 * homepage, which is "/" or "/{locale}".
 */
module LayoutClient {
  import opened Text
  import opened Wrappers
  import Middleware

  /**
   * The text a template literal gives the optional locale property: an
   * absent locale is rendered as "undefined".
   */
  function LocaleText(locale: Option<string>): string
  {
    if locale.Some? then locale.value else "undefined"
  }

  /** `pathname === "/" || pathname === "/" + locale`. */
  predicate IsHomepage(pathname: string, locale: Option<string>)
  {
    pathname == "/" || pathname == "/" + LocaleText(locale)
  }

  datatype PortalProps = PortalProps(showPortal: bool)

  /** The properties handed to the portal for a path. */
  function Portal(pathname: string, locale: Option<string>): (p: PortalProps)
    ensures p.showPortal <==> IsHomepage(pathname, locale)
    ensures p.showPortal ==> StartsWith(pathname, "/") && |pathname| <= |LocaleText(locale)| + 1
  {
    PortalProps(IsHomepage(pathname, locale))
  }

  /** "/" and "/{locale}" are homepages, for every locale. */
  lemma HomepagePaths(locale: string)
    ensures IsHomepage("/", Some(locale)) && IsHomepage("/" + locale, Some(locale))
    ensures IsHomepage("/", None) && IsHomepage("/undefined", None)
  {
  }

  /**
   * A path with a '/' after its first segment is never a homepage: neither
   * "/fr/" nor "/fr/blog" is.
   */
  lemma {:induction false} NestedPathNotHomepage(first: string, rest: string, locale: Option<string>)
    requires Free(LocaleText(locale), '/')
    ensures !IsHomepage("/" + first + "/" + rest, locale)
  {
    var p := "/" + first + "/" + rest;
    assert p[|first| + 1] == '/';
  }

  /**
   * With a locale, a homepage other than "/" is exactly a path the
   * middleware sees as having that locale and that has no second segment.
   */
  lemma HomepageHasLocale(pathname: string, locale: string)
    requires locale != [] && Free(locale, '/')
    ensures IsHomepage(pathname, Some(locale)) && pathname != "/" <==>
      Middleware.HasLocaleFor(pathname, locale) && |pathname| == |locale| + 1
  {
  }
}
