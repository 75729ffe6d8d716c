/**
 * The sitemap: one record per static page and per blog article, each with
 * its absolute address, change frequency and priority.
 *
 * Priorities are written in tenths (1 is 10, 0.8 is 8, 0.7 is 7); the time
 * stamped on every record is a parameter.
 */
module Sitemap {
  import opened Text

  datatype Frequency = Weekly | Monthly

  datatype Route = Route(url: string, lastModified: int, changeFrequency: Frequency, priority: nat)

  const BaseUrl: string := "https://www.maghrib.digital"

  const StaticPages: seq<string> := [
    "",
    "/en",
    "/fr",
    "/ar",
    "/en/services/llc-formation",
    "/fr/services/llc-formation",
    "/ar/services/llc-formation",
    "/en/services/web-development",
    "/fr/services/web-development",
    "/ar/services/web-development",
    "/en/services/social-media",
    "/fr/services/social-media",
    "/ar/services/social-media",
    "/en/tools/faq",
    "/fr/tools/faq",
    "/ar/tools/faq",
    "/en/tools/name-checker",
    "/fr/tools/name-checker",
    "/ar/tools/name-checker",
    "/en/privacy",
    "/fr/privacy",
    "/ar/privacy",
    "/en/terms",
    "/fr/terms",
    "/ar/terms",
    "/blog"
  ]

  const BlogPostsFr: seq<string> := [
    "compte-stripe-maroc-guide",
    "creer-llc-usa-depuis-maroc",
    "creer-llc-wyoming-maroc-guide-complet",
    "erreurs-entrepreneurs-marocains",
    "importance-reseaux-sociaux-entreprise",
    "pourquoi-votre-entreprise-a-besoin-site-web",
    "securite-web-proteger-site-clients",
    "stripe-maroc-paiements-internationaux"
  ]

  const BlogPostsEn: seq<string> := [
    "stripe-account-morocco-guide",
    "wyoming-llc-morocco-complete-guide",
    "complete-guide-us-llc-formation-morocco",
    "business-mistakes-moroccan-entrepreneurs-avoid",
    "how-to-choose-web-development-agency",
    "how-to-scale-your-ecommerce",
    "website-security-2025-protecting-business",
    "why-social-media-management-matters"
  ]

  const BlogPostsAr: seq<string> := [
    "انشاء-شركة-llc-في-الولايات-المتحدة"
  ]

  /** The site root and the three locale home pages. */
  predicate IsHomeRoute(route: string)
  {
    route == "" || route == "/en" || route == "/fr" || route == "/ar"
  }

  /** A static page: weekly, priority 1 for a home page and 0.8 otherwise. */
  function StaticRoute(route: string, now: int): (r: Route)
    ensures StartsWith(r.url, BaseUrl) && r.url[|BaseUrl|..] == route
    ensures r.changeFrequency == Weekly && r.lastModified == now
    ensures r.priority == 10 <==> IsHomeRoute(route)
    ensures r.priority == 8 <==> !IsHomeRoute(route)
  {
    Route(BaseUrl + route, now, Weekly, if IsHomeRoute(route) then 10 else 8)
  }

  /** A blog article: "/blog/{slug}", monthly, priority 0.7. */
  function BlogRoute(slug: string, now: int): (r: Route)
    ensures StartsWith(r.url, BaseUrl + "/blog/") && r.url[|BaseUrl + "/blog/"|..] == slug
    ensures r.changeFrequency == Monthly && r.priority == 7 && r.lastModified == now
  {
    Route(BaseUrl + "/blog/" + slug, now, Monthly, 7)
  }

  function StaticRoutes(pages: seq<string>, now: int): seq<Route>
  {
    seq(|pages|, i requires 0 <= i < |pages| => StaticRoute(pages[i], now))
  }

  function BlogRoutes(slugs: seq<string>, now: int): seq<Route>
  {
    seq(|slugs|, i requires 0 <= i < |slugs| => BlogRoute(slugs[i], now))
  }

  /** Static routes, then the French, English and Arabic articles. */
  function Build(pages: seq<string>, fr: seq<string>, en: seq<string>, ar: seq<string>, now: int): seq<Route>
  {
    StaticRoutes(pages, now) + BlogRoutes(fr, now) + BlogRoutes(en, now) + BlogRoutes(ar, now)
  }

  /** `sitemap()`. */
  function Sitemap(now: int): seq<Route>
  {
    Build(StaticPages, BlogPostsFr, BlogPostsEn, BlogPostsAr, now)
  }

  /**
   * Each list keeps its order and lands in its own block: the static pages
   * first, then the French, English and Arabic articles.
   */
  lemma BuildLayout(pages: seq<string>, fr: seq<string>, en: seq<string>, ar: seq<string>, now: int)
    ensures var r := Build(pages, fr, en, ar, now);
      |r| == |pages| + |fr| + |en| + |ar|
      && (forall i :: 0 <= i < |pages| ==> r[i] == StaticRoute(pages[i], now))
      && (forall i :: 0 <= i < |fr| ==> r[|pages| + i] == BlogRoute(fr[i], now))
      && (forall i :: 0 <= i < |en| ==> r[|pages| + |fr| + i] == BlogRoute(en[i], now))
      && (forall i :: 0 <= i < |ar| ==> r[|pages| + |fr| + |en| + i] == BlogRoute(ar[i], now))
  {
  }

  /** Every address is absolute, on the site's base address. */
  lemma AllUrlsOnBase(pages: seq<string>, fr: seq<string>, en: seq<string>, ar: seq<string>, now: int)
    ensures forall r :: r in Build(pages, fr, en, ar, now) ==> StartsWith(r.url, BaseUrl)
  {
    var b := Build(pages, fr, en, ar, now);
    BuildLayout(pages, fr, en, ar, now);
    forall r | r in b ensures StartsWith(r.url, BaseUrl) {
      var i :| 0 <= i < |b| && b[i] == r;
      if i >= |pages| {
        assert StartsWith(r.url, BaseUrl + "/blog/");
        assert (BaseUrl + "/blog/")[..|BaseUrl|] == BaseUrl;
      }
    }
  }

  /**
   * Priority 1 goes to the home routes only, 0.8 to every other static
   * page and 0.7 to every article.
   */
  lemma PriorityRule(pages: seq<string>, fr: seq<string>, en: seq<string>, ar: seq<string>, now: int)
    ensures var r := Build(pages, fr, en, ar, now);
      forall i :: 0 <= i < |r| ==>
        (i < |pages| ==> (r[i].priority == 10 <==> IsHomeRoute(pages[i])) && r[i].priority >= 8)
        && (i >= |pages| ==> r[i].priority == 7 && r[i].changeFrequency == Monthly)
  {
    BuildLayout(pages, fr, en, ar, now);
  }

  /** The site has 26 static pages and 8 + 8 + 1 articles: 43 records. */
  lemma SitemapSize(now: int)
    ensures |Sitemap(now)| == 43
  {
    BuildLayout(StaticPages, BlogPostsFr, BlogPostsEn, BlogPostsAr, now);
  }

  /** Only the first four records, the home routes, have priority 1. */
  lemma SitemapTopPriority(now: int)
    ensures forall i :: 0 <= i < |Sitemap(now)| ==> (Sitemap(now)[i].priority == 10 <==> i < 4)
  {
    var s := Sitemap(now);
    BuildLayout(StaticPages, BlogPostsFr, BlogPostsEn, BlogPostsAr, now);
    forall i | 4 <= i < |StaticPages| ensures !IsHomeRoute(StaticPages[i]) {
      assert |StaticPages[i]| >= 5;
    }
  }
}
