/**
 * The language switcher of the navigation bar: a drop-down that is opened
 * and closed, and a rewrite of the current path that puts the chosen locale
 * in its first segment.
 */
module LanguageSwitcher {
  import opened Text
  import Middleware

  /**
   * The segments after switching: segment 1 is replaced when it is a
   * locale, otherwise the new locale is inserted at index 1.
   */
  function SwitchedSegments(locales: seq<string>, segments: seq<string>, newLocale: string): (r: seq<string>)
    requires |segments| >= 1
    ensures |r| >= 2 && r[0] == segments[0] && r[1] == newLocale
  {
    if |segments| > 1 && segments[1] in locales then segments[1 := newLocale]
    else segments[..1] + [newLocale] + segments[1..]
  }

  /** The path the switcher navigates to. */
  function SwitchedPath(locales: seq<string>, pathname: string, newLocale: string): string
  {
    var joined := Join(SwitchedSegments(locales, Split(pathname, '/'), newLocale), '/');
    if joined == [] then "/" + newLocale else joined
  }

  class Switcher {
    const locales: seq<string>
    var isOpen: bool

    constructor(locales: seq<string>)
      ensures this.locales == locales && !isOpen
    {
      this.locales := locales;
      isOpen := false;
    }

    /** The button flips the drop-down. */
    method Toggle()
      modifies this
      ensures isOpen == !old(isOpen)
    {
      isOpen := !isOpen;
    }

    /** A mouse press outside the switcher closes the drop-down. */
    method MouseDown(inside: bool)
      modifies this
      ensures isOpen == (old(isOpen) && inside)
    {
      if !inside {
        isOpen := false;
      }
    }

    /**
     * Choosing a locale: the path is split on '/', segment 1 is replaced or
     * the locale inserted before it, the segments are joined again, and the
     * drop-down is closed.
     */
    method SwitchLocale(pathname: string, newLocale: string) returns (newPath: string)
      modifies this
      ensures newPath == SwitchedPath(locales, pathname, newLocale)
      ensures !isOpen
    {
      var segments := Split(pathname, '/');
      if |segments| > 1 && segments[1] in locales {
        segments := segments[1 := newLocale];
      } else {
        segments := segments[..1] + [newLocale] + segments[1..];
      }
      newPath := Join(segments, '/');
      if newPath == [] {
        newPath := "/" + newLocale;
      }
      isOpen := false;
    }
  }

  /** Two or more segments always join to a non-empty string. */
  lemma JoinOfTwoNotEmpty(parts: seq<string>, sep: char)
    requires |parts| >= 2
    ensures sep in Join(parts, sep)
  {
    assert Join(parts, sep)[|parts[0]|] == sep;
  }

  /** The fallback path is never taken: the result is the joined segments. */
  lemma FallbackNeverTaken(locales: seq<string>, pathname: string, newLocale: string)
    ensures SwitchedPath(locales, pathname, newLocale)
      == Join(SwitchedSegments(locales, Split(pathname, '/'), newLocale), '/')
  {
    JoinOfTwoNotEmpty(SwitchedSegments(locales, Split(pathname, '/'), newLocale), '/');
  }

  /** Splitting the new path gives back exactly the rewritten segments. */
  lemma SplitSwitched(locales: seq<string>, pathname: string, newLocale: string)
    requires Free(newLocale, '/')
    ensures Split(SwitchedPath(locales, pathname, newLocale), '/')
      == SwitchedSegments(locales, Split(pathname, '/'), newLocale)
  {
    var segments := Split(pathname, '/');
    var r := SwitchedSegments(locales, segments, newLocale);
    FallbackNeverTaken(locales, pathname, newLocale);
    SplitPiecesFree(pathname, '/');
    forall k | 0 <= k < |r| ensures Free(r[k], '/') {
      if !(|segments| > 1 && segments[1] in locales) && k >= 2 {
        assert r[k] == segments[k - 1];
      }
    }
    SplitJoin(r, '/');
  }

  /** What the rewrite does to a list of segments, case by case. */
  predicate SwitchShape(locales: seq<string>, before: seq<string>, after: seq<string>, newLocale: string)
    requires |before| >= 1
  {
    (|before| > 1 && before[1] in locales ==>
      |after| == |before| && after[1] == newLocale
      && forall k :: 0 <= k < |before| && k != 1 ==> after[k] == before[k])
    && (!(|before| > 1 && before[1] in locales) ==>
      |after| == |before| + 1 && after[0] == before[0] && after[1] == newLocale
      && forall k :: 1 <= k < |before| ==> after[k + 1] == before[k])
  }

  lemma SwitchedSegmentsShape(locales: seq<string>, segments: seq<string>, newLocale: string)
    requires |segments| >= 1
    ensures SwitchShape(locales, segments, SwitchedSegments(locales, segments, newLocale), newLocale)
  {
  }

  /**
   * When segment 1 is a locale it is replaced and every other segment is
   * kept; otherwise the locale is inserted and there is one segment more.
   */
  lemma SegmentsAfterSwitch(locales: seq<string>, pathname: string, newLocale: string)
    requires Free(newLocale, '/')
    ensures SwitchShape(locales, Split(pathname, '/'), Split(SwitchedPath(locales, pathname, newLocale), '/'), newLocale)
  {
    SplitSwitched(locales, pathname, newLocale);
    SwitchedSegmentsShape(locales, Split(pathname, '/'), newLocale);
  }

  /**
   * For a path beginning with '/', the new path begins with the new locale:
   * it is "/{newLocale}" or starts with "/{newLocale}/", so the middleware
   * passes it through.
   */
  lemma SwitchedPathHasLocale(locales: seq<string>, pathname: string, newLocale: string)
    requires newLocale != [] && Free(newLocale, '/')
    requires pathname == [] || pathname[0] == '/'
    ensures Middleware.HasLocaleFor(SwitchedPath(locales, pathname, newLocale), newLocale)
    ensures StartsWith(SwitchedPath(locales, pathname, newLocale), "/" + newLocale)
  {
    var p := SwitchedPath(locales, pathname, newLocale);
    SplitSwitched(locales, pathname, newLocale);
    if pathname != [] {
      assert pathname == [] + ['/'] + pathname[1..];
      SplitPrefix([], '/', pathname[1..]);
    }
    Middleware.HasLocaleForBySegments(p, newLocale);
    if p != "/" + newLocale {
      assert p[..|"/" + newLocale + "/"|] == "/" + newLocale + "/";
      assert p[..|"/" + newLocale|] == "/" + newLocale;
    }
  }

  /** The switched path is accepted by the middleware without a redirect. */
  lemma SwitchedPathNotRedirected(locales: seq<string>, defaultLocale: string, pathname: string, newLocale: string)
    requires newLocale in locales && newLocale != [] && Free(newLocale, '/')
    requires pathname == [] || pathname[0] == '/'
    ensures Middleware.Decide(locales, defaultLocale, SwitchedPath(locales, pathname, newLocale)) == Middleware.Next
  {
    SwitchedPathHasLocale(locales, pathname, newLocale);
    var i :| 0 <= i < |locales| && locales[i] == newLocale;
    assert Middleware.HasLocaleFor(SwitchedPath(locales, pathname, newLocale), locales[i]);
  }
}
