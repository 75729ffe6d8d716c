/**
 * The blog index: Markdown files in one directory per language, each with a
 * front-matter record, are listed newest first, looked up by slug and
 * filtered by language.
 *
 * The content directory is a map from language to the files its
 * directory lists, in listing order; a language without a directory has no
 * key. Dates are timestamps, and the current time is a parameter.
 */
module Blog {
  import opened Text
  import opened Wrappers

  datatype Lang = En | Fr

  /** The directories visited, in order. */
  const Languages: seq<Lang> := [En, Fr]

  /** Front matter: a missing field is `None`. */
  datatype FrontMatter = FrontMatter(
    title: Option<string>,
    excerpt: Option<string>,
    date: Option<int>,
    author: Option<string>,
    category: Option<string>,
    image: Option<string>)

  datatype FileEntry = FileEntry(name: string, data: FrontMatter, content: string)

  datatype Store = Store(dirs: map<Lang, seq<FileEntry>>)

  datatype PostMeta = PostMeta(
    slug: string,
    title: string,
    excerpt: string,
    date: int,
    author: string,
    category: string,
    image: string,
    lang: Lang)

  datatype Post = Post(meta: PostMeta, content: string)

  /** Only ".mdx" and ".md" files are posts. */
  predicate IsMarkdown(name: string)
  {
    EndsWith(name, ".mdx") || EndsWith(name, ".md")
  }

  /** The file name with one trailing ".mdx" or ".md" removed. */
  function SlugOf(name: string): (slug: string)
    ensures EndsWith(name, ".mdx") ==> slug + ".mdx" == name
    ensures !EndsWith(name, ".mdx") && EndsWith(name, ".md") ==> slug + ".md" == name
    ensures !IsMarkdown(name) ==> slug == name
  {
    if EndsWith(name, ".mdx") then name[..|name| - 4]
    else if EndsWith(name, ".md") then name[..|name| - 3]
    else name
  }

  /** `value || fallback`: a missing or empty string takes the fallback. */
  function Or(value: Option<string>, fallback: string): (r: string)
    ensures value.Some? && value.value != [] ==> r == value.value
    ensures value.None? || value.value == [] ==> r == fallback
  {
    if value.Some? && value.value != [] then value.value else fallback
  }

  /** The post record a front matter gives, each missing field defaulted. */
  function WithDefaults(slug: string, data: FrontMatter, lang: Lang, now: int): (m: PostMeta)
    ensures m.slug == slug && m.lang == lang
    ensures m.title == Or(data.title, "Untitled")
    ensures m.excerpt == Or(data.excerpt, "")
    ensures m.author == Or(data.author, "Maghrib.Digital")
    ensures m.category == Or(data.category, "General")
    ensures m.image == Or(data.image, "/blog/default.jpg")
    ensures data.date.Some? ==> m.date == data.date.value
    ensures data.date.None? ==> m.date == now
    ensures m.title != [] && m.author != [] && m.category != [] && m.image != []
  {
    PostMeta(
      slug,
      Or(data.title, "Untitled"),
      Or(data.excerpt, ""),
      if data.date.Some? then data.date.value else now,
      Or(data.author, "Maghrib.Digital"),
      Or(data.category, "General"),
      Or(data.image, "/blog/default.jpg"),
      lang)
  }

  function MetaOf(file: FileEntry, lang: Lang, now: int): PostMeta
  {
    WithDefaults(SlugOf(file.name), file.data, lang, now)
  }

  /** The posts of one directory's files, in listing order. */
  function PostsOf(files: seq<FileEntry>, lang: Lang, now: int): (r: seq<PostMeta>)
    ensures |r| <= |files|
  {
    if files == [] then []
    else
      var last := files[|files| - 1];
      PostsOf(files[..|files| - 1], lang, now)
      + (if IsMarkdown(last.name) then [MetaOf(last, lang, now)] else [])
  }

  /** The Markdown files of a directory, in listing order. */
  function MarkdownFiles(files: seq<FileEntry>): seq<FileEntry>
  {
    if files == [] then []
    else
      var last := files[|files| - 1];
      MarkdownFiles(files[..|files| - 1]) + (if IsMarkdown(last.name) then [last] else [])
  }

  /** A file is kept exactly when it is one of the directory's Markdown files. */
  lemma {:induction false} MarkdownFilesMembers(files: seq<FileEntry>, f: FileEntry)
    ensures f in MarkdownFiles(files) <==> f in files && IsMarkdown(f.name)
  {
    if files != [] {
      var init := files[..|files| - 1];
      var last := files[|files| - 1];
      MarkdownFilesMembers(init, f);
      assert files == init + [last];
    }
  }

  /** `posts` holds, position by position, the record of each file in `md`. */
  predicate RecordsOf(md: seq<FileEntry>, posts: seq<PostMeta>, lang: Lang, now: int)
  {
    |posts| == |md| && forall k :: 0 <= k < |md| ==> posts[k] == MetaOf(md[k], lang, now)
  }

  lemma RecordsOfAppend(md: seq<FileEntry>, posts: seq<PostMeta>, f: FileEntry, lang: Lang, now: int)
    requires RecordsOf(md, posts, lang, now)
    ensures RecordsOf(md + [f], posts + [MetaOf(f, lang, now)], lang, now)
  {
  }

  /**
   * A directory yields exactly one post per Markdown file, in file order:
   * the posts are the records of the Markdown files.
   */
  lemma {:induction false} PostsOfMarkdownFiles(files: seq<FileEntry>, lang: Lang, now: int)
    ensures RecordsOf(MarkdownFiles(files), PostsOf(files, lang, now), lang, now)
  {
    if files != [] {
      var init := files[..|files| - 1];
      var last := files[|files| - 1];
      PostsOfMarkdownFiles(init, lang, now);
      if IsMarkdown(last.name) {
        RecordsOfAppend(MarkdownFiles(init), PostsOf(init, lang, now), last, lang, now);
      } else {
        assert MarkdownFiles(files) == MarkdownFiles(init);
        assert PostsOf(files, lang, now) == PostsOf(init, lang, now);
      }
    }
  }

  /** A missing directory contributes no posts. */
  function DirPosts(store: Store, lang: Lang, now: int): seq<PostMeta>
  {
    if lang in store.dirs then PostsOf(store.dirs[lang], lang, now) else []
  }

  function CollectFrom(store: Store, langs: seq<Lang>, now: int): seq<PostMeta>
  {
    if langs == [] then []
    else CollectFrom(store, langs[..|langs| - 1], now) + DirPosts(store, langs[|langs| - 1], now)
  }

  /** Every post, before sorting: the English directory, then the French one. */
  function Collected(store: Store, now: int): seq<PostMeta>
  {
    CollectFrom(store, Languages, now)
  }

  predicate NewestFirst(posts: seq<PostMeta>)
  {
    forall i, j :: 0 <= i < j < |posts| ==> posts[i].date >= posts[j].date
  }

  /** Places `p` after every post at least as new, before the first older one. */
  function InsertByDate(p: PostMeta, posts: seq<PostMeta>): (r: seq<PostMeta>)
    ensures multiset(r) == multiset(posts) + multiset{p}
    ensures forall q :: q in r ==> q in posts || q == p
  {
    if posts == [] then [p]
    else if posts[0].date >= p.date then
      assert posts == [posts[0]] + posts[1..];
      [posts[0]] + InsertByDate(p, posts[1..])
    else [p] + posts
  }

  /** No post of `posts` is newer than `date`. */
  predicate NoNewerThan(posts: seq<PostMeta>, date: int)
  {
    forall q :: q in posts ==> q.date <= date
  }

  /** A post put in front of a newest-first list no newer than it keeps the order. */
  lemma ConsNewestFirst(x: PostMeta, posts: seq<PostMeta>)
    requires NewestFirst(posts) && NoNewerThan(posts, x.date)
    ensures NewestFirst([x] + posts)
  {
    var r := [x] + posts;
    forall i, j | 0 <= i < j < |r| ensures r[i].date >= r[j].date {
      assert r[j] == posts[j - 1];
      if i > 0 {
        assert r[i] == posts[i - 1];
      }
    }
  }

  /** The head of a newest-first list is the newest of its posts. */
  lemma HeadIsNewest(posts: seq<PostMeta>)
    requires posts != [] && NewestFirst(posts)
    ensures NoNewerThan(posts[1..], posts[0].date)
  {
    forall q | q in posts[1..] ensures q.date <= posts[0].date {
      var k :| 0 <= k < |posts[1..]| && posts[1..][k] == q;
      assert posts[k + 1] == q;
    }
  }

  /** Inserting into a newest-first list keeps it newest first. */
  lemma {:induction false} InsertKeepsOrder(p: PostMeta, posts: seq<PostMeta>)
    requires NewestFirst(posts)
    ensures NewestFirst(InsertByDate(p, posts))
  {
    if posts != [] {
      HeadIsNewest(posts);
      var tail := posts[1..];
      if posts[0].date >= p.date {
        assert NewestFirst(tail);
        InsertKeepsOrder(p, tail);
        var t := InsertByDate(p, tail);
        assert NoNewerThan(t, posts[0].date);
        ConsNewestFirst(posts[0], t);
      } else {
        assert posts == [posts[0]] + tail;
        assert NoNewerThan(posts, p.date);
        ConsNewestFirst(p, posts);
      }
    }
  }

  /** The listing's stable sort on dates, newest first. */
  function SortNewestFirst(posts: seq<PostMeta>): (r: seq<PostMeta>)
    ensures NewestFirst(r)
    ensures multiset(r) == multiset(posts)
  {
    if posts == [] then []
    else
      var init := posts[..|posts| - 1];
      assert posts == init + [posts[|posts| - 1]];
      InsertKeepsOrder(posts[|posts| - 1], SortNewestFirst(init));
      InsertByDate(posts[|posts| - 1], SortNewestFirst(init))
  }

  function AllPosts(store: Store, now: int): seq<PostMeta>
  {
    SortNewestFirst(Collected(store, now))
  }

  /**
   * `getAllPosts`: visits the language directories in order, keeps the
   * Markdown files, builds each record and sorts the result.
   */
  method GetAllPosts(store: Store, now: int) returns (posts: seq<PostMeta>)
    ensures posts == AllPosts(store, now)
  {
    var collected: seq<PostMeta> := [];
    for li := 0 to |Languages|
      invariant collected == CollectFrom(store, Languages[..li], now)
    {
      var lang := Languages[li];
      assert Languages[..li + 1][..li] == Languages[..li];
      if lang in store.dirs {
        var dirPosts := ScanDirectory(store.dirs[lang], lang, now);
        collected := collected + dirPosts;
      }
    }
    assert Languages[..|Languages|] == Languages;
    posts := SortNewestFirst(collected);
  }

  /** The inner loop of `getAllPosts` over one directory's files. */
  method ScanDirectory(files: seq<FileEntry>, lang: Lang, now: int) returns (posts: seq<PostMeta>)
    ensures posts == PostsOf(files, lang, now)
  {
    posts := [];
    for fi := 0 to |files|
      invariant posts == PostsOf(files[..fi], lang, now)
    {
      var file := files[fi];
      assert files[..fi + 1][..fi] == files[..fi];
      if IsMarkdown(file.name) {
        posts := posts + [MetaOf(file, lang, now)];
      }
    }
    assert files[..|files|] == files;
  }

  /** Some Markdown file among `files` gives the post `p`. */
  predicate FromFile(files: seq<FileEntry>, lang: Lang, now: int, p: PostMeta)
  {
    exists f :: f in files && IsMarkdown(f.name) && p == MetaOf(f, lang, now)
  }

  /** A post is listed exactly when some Markdown file of the directory gives it. */
  lemma PostOfFile(files: seq<FileEntry>, lang: Lang, now: int, p: PostMeta)
    ensures p in PostsOf(files, lang, now) <==> FromFile(files, lang, now, p)
  {
    var md := MarkdownFiles(files);
    var r := PostsOf(files, lang, now);
    if p in r {
      var k :| 0 <= k < |r| && r[k] == p;
      PostsOfMarkdownFiles(files, lang, now);
      MarkdownFilesMembers(files, md[k]);
      assert md[k] in md;
    }
    if FromFile(files, lang, now, p) {
      var f :| f in files && IsMarkdown(f.name) && p == MetaOf(f, lang, now);
      MarkdownFilesMembers(files, f);
      var k :| 0 <= k < |md| && md[k] == f;
      PostsOfMarkdownFiles(files, lang, now);
      assert r[k] == p;
    }
  }

  /** Exactly the Markdown files of a directory become posts. */
  lemma PostsOfMembership(files: seq<FileEntry>, lang: Lang, now: int)
    ensures forall p :: p in PostsOf(files, lang, now) <==>
      exists f :: f in files && IsMarkdown(f.name) && p == MetaOf(f, lang, now)
  {
    forall p ensures p in PostsOf(files, lang, now) <==>
      exists f :: f in files && IsMarkdown(f.name) && p == MetaOf(f, lang, now)
    {
      PostOfFile(files, lang, now, p);
    }
  }

  /** When every file is Markdown, each one gives exactly one post. */
  lemma {:induction false} PostsOfAllMarkdown(files: seq<FileEntry>, lang: Lang, now: int)
    requires forall f :: f in files ==> IsMarkdown(f.name)
    ensures |PostsOf(files, lang, now)| == |files|
  {
    if files != [] {
      var init := files[..|files| - 1];
      assert forall f :: f in init ==> f in files;
      PostsOfAllMarkdown(init, lang, now);
    }
  }

  /** The English directory is read first, then the French one. */
  lemma CollectedInOrder(store: Store, now: int)
    ensures Collected(store, now) == DirPosts(store, En, now) + DirPosts(store, Fr, now)
  {
    assert Languages[..|Languages| - 1] == [En];
    assert [En][..0] == [];
    assert CollectFrom(store, [En], now) == DirPosts(store, En, now);
  }

  /** The listing holds each Markdown file of each existing directory. */
  lemma CollectedMembership(store: Store, now: int, p: PostMeta)
    ensures p in Collected(store, now) <==>
      exists lang, f :: lang in store.dirs && f in store.dirs[lang]
        && IsMarkdown(f.name) && p == MetaOf(f, lang, now)
  {
    CollectedInOrder(store, now);
    if En in store.dirs { PostsOfMembership(store.dirs[En], En, now); }
    if Fr in store.dirs { PostsOfMembership(store.dirs[Fr], Fr, now); }
  }

  /** The English directory comes first: all its posts precede the French ones. */
  lemma EnglishCollectedFirst(store: Store, now: int)
    ensures var c := Collected(store, now);
      forall i, j :: 0 <= i < |c| && 0 <= j < |c| && c[i].lang == Fr && c[j].lang == En ==> j < i
  {
    CollectedInOrder(store, now);
    var e := DirPosts(store, En, now);
    var f := DirPosts(store, Fr, now);
    DirPostsLang(store, En, now);
    DirPostsLang(store, Fr, now);
    var c := e + f;
    forall i, j | 0 <= i < |c| && 0 <= j < |c| && c[i].lang == Fr && c[j].lang == En ensures j < i {
      if i < |e| { assert false; }
      if j >= |e| { assert false; }
    }
  }

  lemma DirPostsLang(store: Store, lang: Lang, now: int)
    ensures forall p :: p in DirPosts(store, lang, now) ==> p.lang == lang
  {
    if lang in store.dirs {
      PostsOfMembership(store.dirs[lang], lang, now);
    }
  }

  /** The listing is sorted newest first and holds exactly the collected posts. */
  lemma AllPostsSortedPermutation(store: Store, now: int)
    ensures NewestFirst(AllPosts(store, now))
    ensures multiset(AllPosts(store, now)) == multiset(Collected(store, now))
  {
  }

  // Lookup by slug

  /** The first file of a list with the given name. */
  function Find(files: seq<FileEntry>, name: string): (r: Option<FileEntry>)
    ensures r.Some? ==> r.value in files && r.value.name == name
    ensures r.None? <==> forall f :: f in files ==> f.name != name
  {
    if files == [] then None
    else if files[0].name == name then Some(files[0])
    else Find(files[1..], name)
  }

  /** The file at `content/blog/{lang}/{name}`, if it exists. */
  function FileIn(store: Store, lang: Lang, name: string): Option<FileEntry>
  {
    if lang in store.dirs then Find(store.dirs[lang], name) else None
  }

  predicate HasFile(store: Store, lang: Lang, name: string)
  {
    lang in store.dirs && exists f :: f in store.dirs[lang] && f.name == name
  }

  /** Within one language the ".mdx" file is preferred to the ".md" file. */
  function SourceIn(store: Store, lang: Lang, slug: string): (r: Option<FileEntry>)
    ensures r.None? <==> !HasFile(store, lang, slug + ".mdx") && !HasFile(store, lang, slug + ".md")
    ensures HasFile(store, lang, slug + ".mdx") ==> r.Some? && r.value.name == slug + ".mdx"
    ensures !HasFile(store, lang, slug + ".mdx") && HasFile(store, lang, slug + ".md") ==>
      r.Some? && r.value.name == slug + ".md"
  {
    var mdx := FileIn(store, lang, slug + ".mdx");
    if mdx.Some? then mdx else FileIn(store, lang, slug + ".md")
  }

  /** The post read from a source file, its slug the one asked for. */
  function PostFrom(slug: string, source: FileEntry, lang: Lang, now: int): Post
  {
    Post(WithDefaults(slug, source.data, lang, now), source.content)
  }

  /** `getPostBySlug` as a value: the first language, in order, holding the post. */
  function Lookup(store: Store, slug: string, now: int): Option<Post>
  {
    LookupFrom(store, Languages, slug, now)
  }

  function LookupFrom(store: Store, langs: seq<Lang>, slug: string, now: int): Option<Post>
  {
    if langs == [] then None
    else
      var source := SourceIn(store, langs[0], slug);
      if source.Some? then Some(PostFrom(slug, source.value, langs[0], now))
      else LookupFrom(store, langs[1..], slug, now)
  }

  /**
   * `getPostBySlug`: for each language in order, the ".mdx" file, else the
   * ".md" file, else the next language; `None` when no language has one.
   */
  method GetPostBySlug(store: Store, slug: string, now: int) returns (r: Option<Post>)
    ensures r == Lookup(store, slug, now)
  {
    for li := 0 to |Languages|
      invariant LookupFrom(store, Languages[li..], slug, now) == Lookup(store, slug, now)
    {
      var lang := Languages[li];
      assert Languages[li..][1..] == Languages[li + 1..];
      var actual: FileEntry;
      var mdx := FileIn(store, lang, slug + ".mdx");
      if mdx.Some? {
        actual := mdx.value;
      } else {
        var md := FileIn(store, lang, slug + ".md");
        if md.Some? {
          actual := md.value;
        } else {
          continue;
        }
      }
      return Some(PostFrom(slug, actual, lang, now));
    }
    return None;
  }

  /** English is tried first, then French. */
  lemma LookupInOrder(store: Store, slug: string, now: int)
    ensures Lookup(store, slug, now) ==
      if SourceIn(store, En, slug).Some? then Some(PostFrom(slug, SourceIn(store, En, slug).value, En, now))
      else if SourceIn(store, Fr, slug).Some? then Some(PostFrom(slug, SourceIn(store, Fr, slug).value, Fr, now))
      else None
  {
    assert Languages[0] == En && Languages[1..] == [Fr];
    assert [Fr][1..] == [];
    assert LookupFrom(store, [], slug, now) == None;
    assert LookupFrom(store, [Fr], slug, now) ==
      if SourceIn(store, Fr, slug).Some? then Some(PostFrom(slug, SourceIn(store, Fr, slug).value, Fr, now)) else None;
  }

  /** No post is found exactly when no language has either file. */
  lemma LookupNoneIff(store: Store, slug: string, now: int)
    ensures Lookup(store, slug, now).None? <==>
      forall lang: Lang :: !HasFile(store, lang, slug + ".mdx") && !HasFile(store, lang, slug + ".md")
  {
    LookupInOrder(store, slug, now);
    if Lookup(store, slug, now).None? {
      forall lang: Lang ensures !HasFile(store, lang, slug + ".mdx") && !HasFile(store, lang, slug + ".md") {
        assert lang == En || lang == Fr;
      }
    }
  }

  /**
   * English is searched before French and ".mdx" before ".md": the post
   * found carries the slug asked for and comes from the first file present
   * in that order.
   */
  lemma LookupOrder(store: Store, slug: string, now: int)
    ensures var r := Lookup(store, slug, now);
      r.Some? ==>
        (r.value.meta.slug == slug
         && (SourceIn(store, En, slug).Some? ==>
               r.value.meta.lang == En && r.value.content == SourceIn(store, En, slug).value.content)
         && (SourceIn(store, En, slug).None? ==>
               SourceIn(store, Fr, slug).Some?
               && r.value.meta.lang == Fr && r.value.content == SourceIn(store, Fr, slug).value.content))
  {
    LookupInOrder(store, slug, now);
  }

  /** Every slug of the listing is found by a lookup. */
  lemma ListedSlugResolves(store: Store, now: int, p: PostMeta)
    requires p in AllPosts(store, now)
    ensures Lookup(store, p.slug, now).Some?
    ensures p.lang == En ==> Lookup(store, p.slug, now).value.meta.lang == En
  {
    assert p in multiset(AllPosts(store, now));
    assert p in Collected(store, now);
    CollectedMembership(store, now, p);
    var lang, f :| lang in store.dirs && f in store.dirs[lang] && IsMarkdown(f.name) && p == MetaOf(f, lang, now);
    if EndsWith(f.name, ".mdx") {
      assert HasFile(store, lang, p.slug + ".mdx");
    } else {
      assert HasFile(store, lang, p.slug + ".md");
    }
    LookupOrder(store, p.slug, now);
    LookupNoneIff(store, p.slug, now);
  }

  // Filtering by language

  /** `posts.filter(post => post.lang === lang)`. */
  function OfLanguage(posts: seq<PostMeta>, lang: Lang): (r: seq<PostMeta>)
    ensures |r| <= |posts|
  {
    if posts == [] then []
    else (if posts[0].lang == lang then [posts[0]] else []) + OfLanguage(posts[1..], lang)
  }

  function Shift(idx: seq<nat>): (r: seq<nat>)
    ensures |r| == |idx| && forall k :: 0 <= k < |idx| ==> r[k] == idx[k] + 1
  {
    if idx == [] then [] else [idx[0] + 1] + Shift(idx[1..])
  }

  /** A post is kept exactly when it is in the list and has the language. */
  lemma {:induction false} OfLanguageMembers(posts: seq<PostMeta>, lang: Lang)
    ensures forall p :: p in OfLanguage(posts, lang) <==> p in posts && p.lang == lang
  {
    if posts != [] {
      OfLanguageMembers(posts[1..], lang);
      assert posts == [posts[0]] + posts[1..];
    }
  }

  /** The positions, in `posts`, of the posts `OfLanguage` keeps. */
  function KeptPositions(posts: seq<PostMeta>, lang: Lang): seq<nat>
  {
    if posts == [] then []
    else (if posts[0].lang == lang then [0] else []) + Shift(KeptPositions(posts[1..], lang))
  }

  predicate Increasing(idx: seq<nat>)
  {
    forall k, m :: 0 <= k < m < |idx| ==> idx[k] < idx[m]
  }

  /** Each position of `idx` lies in `posts` and holds the matching post of `r`. */
  predicate PositionsHold(posts: seq<PostMeta>, r: seq<PostMeta>, idx: seq<nat>)
  {
    |idx| == |r| && forall k :: 0 <= k < |idx| ==> idx[k] < |posts| && r[k] == posts[idx[k]]
  }

  lemma PositionsHoldShift(posts: seq<PostMeta>, r: seq<PostMeta>, idx: seq<nat>)
    requires posts != [] && PositionsHold(posts[1..], r, idx)
    ensures PositionsHold(posts, r, Shift(idx))
  {
    forall k | 0 <= k < |idx| ensures Shift(idx)[k] < |posts| && r[k] == posts[Shift(idx)[k]] {
      assert posts[1..][idx[k]] == posts[idx[k] + 1];
    }
  }

  lemma PositionsHoldCons(posts: seq<PostMeta>, r: seq<PostMeta>, idx: seq<nat>)
    requires posts != [] && PositionsHold(posts, r, idx)
    ensures PositionsHold(posts, [posts[0]] + r, [0] + idx)
  {
    forall k | 1 <= k < |idx| + 1 ensures ([0] + idx)[k] < |posts| && ([posts[0]] + r)[k] == posts[([0] + idx)[k]] {
      assert ([0] + idx)[k] == idx[k - 1];
    }
  }

  /** Each kept position holds the post kept there. */
  lemma {:induction false} KeptPositionsAt(posts: seq<PostMeta>, lang: Lang)
    ensures PositionsHold(posts, OfLanguage(posts, lang), KeptPositions(posts, lang))
  {
    if posts != [] {
      var tail := posts[1..];
      KeptPositionsAt(tail, lang);
      var t := OfLanguage(tail, lang);
      var sh := Shift(KeptPositions(tail, lang));
      PositionsHoldShift(posts, t, KeptPositions(tail, lang));
      if posts[0].lang == lang {
        PositionsHoldCons(posts, t, sh);
        assert OfLanguage(posts, lang) == [posts[0]] + t;
        assert KeptPositions(posts, lang) == [0] + sh;
      } else {
        assert OfLanguage(posts, lang) == t;
        assert KeptPositions(posts, lang) == sh;
      }
    }
  }

  /** The kept positions increase. */
  lemma {:induction false} KeptPositionsIncrease(posts: seq<PostMeta>, lang: Lang)
    ensures Increasing(KeptPositions(posts, lang))
  {
    if posts != [] {
      KeptPositionsIncrease(posts[1..], lang);
      var rest := KeptPositions(posts[1..], lang);
      var head: seq<nat> := if posts[0].lang == lang then [0] else [];
      var idx := head + Shift(rest);
      forall k, m | 0 <= k < m < |idx| ensures idx[k] < idx[m] {
        if k >= |head| {
          assert idx[k] == rest[k - |head|] + 1 && idx[m] == rest[m - |head|] + 1;
        } else {
          assert idx[k] == 0 && idx[m] == rest[m - 1] + 1;
        }
      }
    }
  }

  /** Every post of the language is kept. */
  lemma {:induction false} KeptPositionsComplete(posts: seq<PostMeta>, lang: Lang)
    ensures forall j :: 0 <= j < |posts| && posts[j].lang == lang ==> j in KeptPositions(posts, lang)
  {
    if posts != [] {
      var tail := posts[1..];
      KeptPositionsComplete(tail, lang);
      var rest := KeptPositions(tail, lang);
      var head: seq<nat> := if posts[0].lang == lang then [0] else [];
      var idx := head + Shift(rest);
      forall j | 0 <= j < |posts| && posts[j].lang == lang ensures j in idx {
        if j > 0 {
          assert tail[j - 1] == posts[j];
          var k :| 0 <= k < |rest| && rest[k] == j - 1;
          assert idx[|head| + k] == j;
        }
      }
    }
  }

  /**
   * Filtering keeps relative order: the kept positions increase, each holds
   * the post kept there, and every post of the language is kept.
   */
  lemma OfLanguageSubsequence(posts: seq<PostMeta>, lang: Lang)
    ensures var r := OfLanguage(posts, lang); var idx := KeptPositions(posts, lang);
      |idx| == |r|
      && (forall k :: 0 <= k < |idx| ==> idx[k] < |posts| && r[k] == posts[idx[k]])
      && Increasing(idx)
      && (forall j :: 0 <= j < |posts| && posts[j].lang == lang ==> j in idx)
  {
    KeptPositionsAt(posts, lang);
    KeptPositionsIncrease(posts, lang);
    KeptPositionsComplete(posts, lang);
  }

  /** Filtering keeps the newest-first order. */
  lemma OfLanguageSorted(posts: seq<PostMeta>, lang: Lang)
    requires NewestFirst(posts)
    ensures NewestFirst(OfLanguage(posts, lang))
  {
    var r := OfLanguage(posts, lang);
    var idx := KeptPositions(posts, lang);
    OfLanguageSubsequence(posts, lang);
    forall i, j | 0 <= i < j < |r| ensures r[i].date >= r[j].date {
      assert posts[idx[i]].date >= posts[idx[j]].date;
    }
  }

  /** Every post is English or French, so the two filters split the list. */
  lemma {:induction false} LanguagesPartition(posts: seq<PostMeta>)
    ensures |OfLanguage(posts, En)| + |OfLanguage(posts, Fr)| == |posts|
    ensures multiset(OfLanguage(posts, En)) + multiset(OfLanguage(posts, Fr)) == multiset(posts)
  {
    if posts != [] {
      LanguagesPartition(posts[1..]);
      assert posts == [posts[0]] + posts[1..];
    }
  }

  /** `getPostsByLanguage`: the listing filtered to one language. */
  function PostsByLanguage(store: Store, lang: Lang, now: int): (r: seq<PostMeta>)
    ensures NewestFirst(r)
    ensures forall p :: p in r <==> p in AllPosts(store, now) && p.lang == lang
  {
    OfLanguageMembers(AllPosts(store, now), lang);
    OfLanguageSorted(AllPosts(store, now), lang);
    OfLanguage(AllPosts(store, now), lang)
  }
}
