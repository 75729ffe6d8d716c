/**
 * The request middleware: a path that already names a locale, or that
 * belongs to the framework, the API, the blog or a static file, passes
 * through; every other path is redirected under the default locale.
 *
 * The configured locales and the default locale are parameters; the
 * configuration promises non-empty locale codes without a '/'.
 */
module Middleware {
  import opened Text

  /** Locale codes are non-empty and hold no '/'. */
  predicate ValidLocales(locales: seq<string>)
  {
    forall i :: 0 <= i < |locales| ==> locales[i] != [] && Free(locales[i], '/')
  }

  /** `path === "/" + locale` or `path.startsWith("/" + locale + "/")`. */
  predicate HasLocaleFor(path: string, locale: string)
  {
    StartsWith(path, "/" + locale + "/") || path == "/" + locale
  }

  /** Some configured locale heads the path. */
  predicate HasLocale(locales: seq<string>, path: string)
  {
    exists i :: 0 <= i < |locales| && HasLocaleFor(path, locales[i])
  }

  predicate IsAsciiAlphanumeric(c: char)
  {
    'a' <= c <= 'z' || 'A' <= c <= 'Z' || '0' <= c <= '9'
  }

  /** The path ends in '.' followed by one or more ASCII letters or digits. */
  predicate HasExtension(path: string)
  {
    exists k :: 0 <= k < |path| - 1 && path[k] == '.'
      && forall j :: k < j < |path| ==> IsAsciiAlphanumeric(path[j])
  }

  /** Framework assets, API routes, the blog and files are never localised. */
  predicate IsSkipped(path: string)
  {
    StartsWith(path, "/_next") || StartsWith(path, "/api") || StartsWith(path, "/blog")
    || HasExtension(path)
  }

  datatype Decision = Next | Redirect(target: string)

  /** The middleware's answer for a request path. */
  function Decide(locales: seq<string>, defaultLocale: string, path: string): (d: Decision)
    ensures d == Next <==> HasLocale(locales, path) || IsSkipped(path)
    ensures d.Redirect? ==>
      StartsWith(d.target, "/" + defaultLocale) && EndsWith(d.target, path)
      && |d.target| == |path| + |defaultLocale| + 1
  {
    if HasLocale(locales, path) then Next
    else if IsSkipped(path) then Next
    else Redirect("/" + defaultLocale + path)
  }

  /**
   * The redirect target is itself accepted: the path names the default
   * locale, so a second request is passed through.
   */
  lemma RedirectTargetHasLocale(locales: seq<string>, defaultLocale: string, path: string)
    requires defaultLocale in locales
    requires path == [] || path[0] == '/'
    ensures Decide(locales, defaultLocale, path).Redirect? ==>
      var target := Decide(locales, defaultLocale, path).target;
      HasLocale(locales, target) && Decide(locales, defaultLocale, target) == Next
  {
    var target := "/" + defaultLocale + path;
    var i :| 0 <= i < |locales| && locales[i] == defaultLocale;
    if path == [] {
      assert target == "/" + defaultLocale;
    } else {
      assert target[..|"/" + defaultLocale + "/"|] == "/" + defaultLocale + "/";
    }
    assert HasLocaleFor(target, locales[i]);
  }

  /** A locale must be followed by '/' or end the path: "/frog" is not French. */
  lemma {:induction false} LocaleEndsAtSlash(path: string, locale: string)
    requires HasLocaleFor(path, locale)
    ensures path == "/" + locale || (|path| > |locale| + 1 && path[|locale| + 1] == '/')
  {
    if path != "/" + locale {
      assert path[..|locale| + 2][|locale| + 1] == ("/" + locale + "/")[|locale| + 1];
    }
  }

  lemma FrogIsNotFrench()
    ensures !HasLocaleFor("/frog", "fr")
  {
    if HasLocaleFor("/frog", "fr") {
      LocaleEndsAtSlash("/frog", "fr");
    }
  }

  /** The root path is sent to the default locale's home, "/{default}/". */
  lemma RootRedirects(locales: seq<string>, defaultLocale: string)
    requires ValidLocales(locales)
    ensures Decide(locales, defaultLocale, "/") == Redirect("/" + defaultLocale + "/")
  {
    forall i | 0 <= i < |locales| ensures !HasLocaleFor("/", locales[i]) {
    }
    assert !HasExtension("/");
  }

  /**
   * Having a locale, stated on path segments: the path starts with '/' and
   * its first segment is one of the locales.
   */
  lemma {:induction false} HasLocaleForBySegments(path: string, locale: string)
    requires locale != [] && Free(locale, '/')
    ensures HasLocaleFor(path, locale) <==>
      var parts := Split(path, '/');
      |parts| >= 2 && parts[0] == [] && parts[1] == locale
  {
    var parts := Split(path, '/');
    if HasLocaleFor(path, locale) {
      SegmentsOfLocalePath(path, locale);
    }
    if |parts| >= 2 && parts[0] == [] && parts[1] == locale {
      LocalePathOfSegments(path, locale);
    }
  }

  /** A path with a locale splits into an empty piece followed by the locale. */
  lemma SegmentsOfLocalePath(path: string, locale: string)
    requires Free(locale, '/') && HasLocaleFor(path, locale)
    ensures var parts := Split(path, '/');
      |parts| >= 2 && parts[0] == [] && parts[1] == locale
  {
    if path == "/" + locale {
      SplitPrefix([], '/', locale);
      SplitFree(locale, '/');
      assert [] + ['/'] + locale == path;
    } else {
      var t := path[|locale| + 2..];
      assert path == [] + ['/'] + (locale + ['/'] + t);
      SplitPrefix([], '/', locale + ['/'] + t);
      SplitPrefix(locale, '/', t);
    }
  }

  /** A path whose pieces start with an empty one and the locale has that locale. */
  lemma LocalePathOfSegments(path: string, locale: string)
    requires var parts := Split(path, '/');
      |parts| >= 2 && parts[0] == [] && parts[1] == locale
    ensures HasLocaleFor(path, locale)
  {
    var parts := Split(path, '/');
    JoinSplit(path, '/');
    if |parts| == 2 {
      assert Join(parts, '/') == [] + ['/'] + locale;
    } else {
      var rest := Join(parts[2..], '/');
      assert parts[1..][1..] == parts[2..];
      assert Join(parts, '/') == [] + ['/'] + (locale + ['/'] + rest);
      assert path == ("/" + locale + "/") + rest;
      assert path[..|locale| + 2] == "/" + locale + "/";
    }
  }
}
