/** The run of index.mjs: fetchAuthors, fetchCategories, then fetchPosts,
    which exports every post of every page into its own folder: the title
    image, the body images and an index.md of frontmatter and Markdown. */
module Exporter {
  import opened Js
  import opened Listing
  import opened Utils
  import opened Authors
  import opened Categories
  import opened Frontmatter
  import opened Posts

  const INDEX_MD: JsString := Lit("index.md")
  const PER_PAGE: int := 100

  /** `path.resolve(dataDirectory, "posts")`, relative to the working directory. */
  const POSTS_FOLDER: JsString := Lit("data/posts")

  /** `path.resolve(dataDirectory, "posts", post.slug)`: the posts folder
      itself for an empty slug, otherwise the slug's folder inside it. The
      folder is never empty, so downloadPostImage never skips an image of a
      post for want of a folder. */
  function PostFolder(slug: JsString): (r: JsString)
    ensures r != [] && |POSTS_FOLDER| <= |r| && r[..|POSTS_FOLDER|] == POSTS_FOLDER
  {
    if slug == [] then POSTS_FOLDER else POSTS_FOLDER + [SLASH] + slug
  }

  /** Distinct slugs have distinct folders, so no post overwrites the index.md
      of another. */
  lemma PostFolderInjective(a: JsString, b: JsString)
    ensures PostFolder(a) == PostFolder(b) ==> a == b
  {
    var n := |POSTS_FOLDER|;
    if a != [] && b != [] && PostFolder(a) == PostFolder(b) {
      assert PostFolder(a)[n + 1..] == a;
      assert PostFolder(b)[n + 1..] == b;
    }
  }

  /** The settings of config.mjs the export reads. */
  datatype Config = Config(postsLimit: int, showTags: bool)

  /** Everything the run reads from the site: the three listings, the
      `source_url` of each media item (None: undefined) and the `name` of each
      tag, the image host, and, standing for the HTML and Markdown libraries,
      the `src` attributes of the images in a post body (None: no attribute)
      and the Markdown that a body converts to once its images have their
      new `src` values. */
  datatype Site = Site(
    users: Collection<RemoteAuthor>,
    categories: Collection<RemoteCategory>,
    posts: Collection<Post>,
    media: int -> Fetched<Option<JsString>>,
    tags: int -> Fetched<Scalar>,
    images: ImageHost,
    bodyImages: JsString -> seq<Option<JsString>>,
    markdown: (JsString, seq<Option<JsString>>) -> JsString)

  /** What the post export leaves behind: the store of files and failed
      images, and the text of each index.md written, by post folder. */
  datatype Output = Output(store: Store, documents: map<JsString, JsString>)

  /** Every index.md text recorded has its file on the disk. */
  predicate Indexed(out: Output) {
    forall f :: f in out.documents ==> Path(f, INDEX_MD) in out.store.disk
  }

  /** What one post is exported against. */
  datatype Context = Context(authors: seq<Author>, cats: seq<Category>, site: Site, cfg: Config)

  /** The names of the tags, fetched one after the other; the first failing
      fetch aborts the export. */
  function TagNames(ids: seq<int>, tags: int -> Fetched<Scalar>): Fetched<seq<Scalar>>
    decreases |ids|
  {
    if ids == [] then Got([])
    else match TagNames(ids[..|ids| - 1], tags)
      case FetchFailed => FetchFailed
      case Got(names) =>
        match tags(ids[|ids| - 1])
        case FetchFailed => FetchFailed
        case Got(name) => Got(names + [name])
  }

  /** The tag names are there exactly when every tag fetch succeeds, and then
      they are the names of the post's tags, in the post's order. */
  lemma {:induction false} TagNamesGot(ids: seq<int>, tags: int -> Fetched<Scalar>)
    ensures TagNames(ids, tags).Got? <==> forall k :: 0 <= k < |ids| ==> tags(ids[k]).Got?
    ensures TagNames(ids, tags).Got? ==>
      |TagNames(ids, tags).value| == |ids| &&
      forall k :: 0 <= k < |ids| ==> TagNames(ids, tags).value[k] == tags(ids[k]).value
    decreases |ids|
  {
    if ids != [] {
      var front := ids[..|ids| - 1];
      TagNamesGot(front, tags);
      assert forall k :: 0 <= k < |front| ==> front[k] == ids[k];
    }
  }

  /** The text of a post's index.md: the frontmatter block, then the Markdown. */
  function Document(post: Post, ctx: Context, titleImage: Option<JsString>, tags: seq<Scalar>,
                    newSrcs: seq<Option<JsString>>): JsString
  {
    Serialize(Entries(BuildFrontmatter(post, ctx.authors, ctx.cats, titleImage, tags), ctx.cfg.showTags)) +
    ctx.site.markdown(post.content, newSrcs)
  }

  /** The export of one post, in the order of the script: the media lookup,
      the title image, the tag names, the body images, then index.md. The
      boolean says whether the post got through; a failing fetch aborts with
      what was done so far. */
  function PostExport(out: Output, post: Post, ctx: Context): (r: (Output, bool))
  {
    var folder := PostFolder(post.slug);
    match ctx.site.media(post.featuredMedia)
    case FetchFailed => (out, false)
    case Got(sourceUrl) =>
      var (st1, titleImage) := PostImage(out.store, sourceUrl, folder, ctx.site.images);
      match TagNames(post.tags, ctx.site.tags)
      case FetchFailed => (Output(st1, out.documents), false)
      case Got(tags) =>
        var (st2, newSrcs) := PostImages(st1, ctx.site.bodyImages(post.content), folder, ctx.site.images);
        var doc := Document(post, ctx, titleImage, tags, newSrcs);
        (Output(Store(st2.disk + {Path(folder, INDEX_MD)}, st2.failed), out.documents[folder := doc]), true)
  }

  /** Files and the failed list only grow; a post that gets through writes
      its own index.md, a post that does not writes nothing; the texts of
      other folders are untouched; a failed media fetch changes nothing. */
  lemma PostExportEffects(out: Output, post: Post, ctx: Context)
    ensures var r := PostExport(out, post, ctx);
      out.store.disk <= r.0.store.disk &&
      out.store.failed <= r.0.store.failed &&
      (r.1 ==> r.0.documents.Keys == out.documents.Keys + {PostFolder(post.slug)} &&
               Path(PostFolder(post.slug), INDEX_MD) in r.0.store.disk) &&
      (!r.1 ==> r.0.documents == out.documents) &&
      (forall s :: s in out.documents && s != PostFolder(post.slug) ==> r.0.documents[s] == out.documents[s]) &&
      (ctx.site.media(post.featuredMedia).FetchFailed? ==> r == (out, false))
  {
    var media := ctx.site.media(post.featuredMedia);
    if media.Got? {
      var st1 := PostImage(out.store, media.value, PostFolder(post.slug), ctx.site.images).0;
      PostImagesFailedGrows(st1, ctx.site.bodyImages(post.content), PostFolder(post.slug), ctx.site.images);
    }
  }

  lemma PostImagesFailedGrows(st: Store, srcs: seq<Option<JsString>>, folder: JsString, host: ImageHost)
    ensures st.failed <= PostImages(st, srcs, folder, host).0.failed
  {
    if folder != [] {
      PostImagesFailed(st, srcs, folder, host);
    } else {
      PostImagesNoFolder(st, srcs, host);
    }
  }

  lemma {:induction false} PostImagesNoFolder(st: Store, srcs: seq<Option<JsString>>, host: ImageHost)
    ensures PostImages(st, srcs, [], host).0 == st
    decreases |srcs|
  {
    if srcs != [] {
      PostImagesNoFolder(st, srcs[..|srcs| - 1], host);
    }
  }

  /** A post that gets through writes its folder's index.md: the frontmatter
      built from the catalogs, the title image name and the names of its
      tags, followed by the Markdown of its body. A post whose tags cannot be
      fetched writes nothing, though its title image may already be on disk. */
  lemma PostExportDocument(out: Output, post: Post, ctx: Context)
    ensures var (o, ok) := PostExport(out, post, ctx);
      ok ==>
        ctx.site.media(post.featuredMedia).Got? && TagNames(post.tags, ctx.site.tags).Got? &&
        var source := ctx.site.media(post.featuredMedia).value;
        var (st1, titleImage) := PostImage(out.store, source, PostFolder(post.slug), ctx.site.images);
        var tags := TagNames(post.tags, ctx.site.tags).value;
        var newSrcs := PostImages(st1, ctx.site.bodyImages(post.content), PostFolder(post.slug), ctx.site.images).1;
        o.documents[PostFolder(post.slug)] ==
          Serialize(Entries(BuildFrontmatter(post, ctx.authors, ctx.cats, titleImage, tags), ctx.cfg.showTags)) +
          ctx.site.markdown(post.content, newSrcs)
    ensures ctx.site.media(post.featuredMedia).Got? && TagNames(post.tags, ctx.site.tags).FetchFailed? ==>
      PostExport(out, post, ctx) ==
        (Output(PostImage(out.store, ctx.site.media(post.featuredMedia).value, PostFolder(post.slug), ctx.site.images).0, out.documents), false)
  {
  }

  /** The posts of a page, exported in order; the first post that does not
      get through ends the page and the run. */
  function PostsExport(out: Output, posts: seq<Post>, ctx: Context): (r: (Output, bool))
    decreases |posts|
  {
    if posts == [] then (out, true)
    else
      var (o, ok) := PostsExport(out, posts[..|posts| - 1], ctx);
      if !ok then (o, false) else PostExport(o, posts[|posts| - 1], ctx)
  }

  lemma PostsExportStep(out: Output, posts: seq<Post>, p: Post, ctx: Context)
    ensures PostsExport(out, posts + [p], ctx) ==
      if PostsExport(out, posts, ctx).1 then PostExport(PostsExport(out, posts, ctx).0, p, ctx)
      else PostsExport(out, posts, ctx)
  {
    assert (posts + [p])[..|posts|] == posts;
  }

  lemma PostsExportNext(out: Output, posts: seq<Post>, k: nat, ctx: Context)
    requires k < |posts|
    ensures PostsExport(out, posts[..k + 1], ctx) ==
      if PostsExport(out, posts[..k], ctx).1 then PostExport(PostsExport(out, posts[..k], ctx).0, posts[k], ctx)
      else PostsExport(out, posts[..k], ctx)
  {
    assert posts[..k + 1][..k] == posts[..k];
  }

  /** Exporting two runs of posts one after the other is exporting their
      concatenation; once a post fails, nothing after it is exported. */
  lemma {:induction false} PostsExportConcat(out: Output, a: seq<Post>, b: seq<Post>, ctx: Context)
    ensures PostsExport(out, a + b, ctx) ==
      if PostsExport(out, a, ctx).1 then PostsExport(PostsExport(out, a, ctx).0, b, ctx)
      else PostsExport(out, a, ctx)
    decreases |b|
  {
    if b == [] {
      assert a + b == a;
    } else {
      var b' := b[..|b| - 1];
      var p := b[|b| - 1];
      assert a + b == (a + b') + [p];
      assert b == b' + [p];
      PostsExportConcat(out, a, b', ctx);
      PostsExportStep(out, a + b', p, ctx);
      if PostsExport(out, a, ctx).1 {
        PostsExportStep(PostsExport(out, a, ctx).0, b', p, ctx);
      }
    }
  }

  /** The listing as importData sees it: each page cut to `postsLimit`. */
  function LimitedPages(c: Collection<Post>, limit: int): (r: Collection<Post>)
    ensures r.totalPages == c.totalPages
    ensures forall p :: r.page(p) == match c.page(p)
                                     case FetchFailed => FetchFailed
                                     case Got(posts) => Got(Limit(posts, limit))
  {
    Collection(c.totalPages, p => match c.page(p)
                                  case FetchFailed => FetchFailed
                                  case Got(posts) => Got(Limit(posts, limit)))
  }

  /** Where the page walk of fetchPosts ends: the output, whether every page
      got through, how many pages were requested, and `totalExportedPosts`. */
  datatype Walk = Walk(out: Output, ok: bool, pages: nat, exported: nat)

  /** Pages 1..n fetched and imported in order; the first failure, of a page
      fetch or of a post, ends the walk. */
  function PagesExport(out: Output, c: Collection<Post>, n: nat, ctx: Context): (w: Walk)
    ensures w.pages <= n && (w.ok ==> w.pages == n)
  {
    if n == 0 then Walk(out, true, 0, 0)
    else
      var w := PagesExport(out, c, n - 1, ctx);
      if !w.ok then w
      else match c.page(n)
        case FetchFailed => Walk(w.out, false, n, w.exported)
        case Got(posts) =>
          var limited := Limit(posts, ctx.cfg.postsLimit);
          var (o, ok) := PostsExport(w.out, limited, ctx);
          Walk(o, ok, n, w.exported + |limited|)
  }

  /** A walk that gets through has fetched every page, exported the
      concatenation of the limited pages in page order, and counted exactly
      their posts. */
  lemma {:induction false} PagesExportAll(out: Output, c: Collection<Post>, n: nat, ctx: Context)
    ensures var w := PagesExport(out, c, n, ctx);
      var all := Gathered(LimitedPages(c, ctx.cfg.postsLimit), n);
      w.ok ==> all.Got? && PostsExport(out, all.value, ctx) == (w.out, true) && w.exported == |all.value|
    decreases n
  {
    if n > 0 {
      PagesExportAll(out, c, n - 1, ctx);
      var w := PagesExport(out, c, n - 1, ctx);
      var lc := LimitedPages(c, ctx.cfg.postsLimit);
      if w.ok && c.page(n).Got? {
        var limited := Limit(c.page(n).value, ctx.cfg.postsLimit);
        assert lc.page(n) == Got(limited);
        PostsExportConcat(out, Gathered(lc, n - 1).value, limited, ctx);
      }
    }
  }

  /** Exporting posts keeps every written index.md on the disk. */
  lemma {:induction false} PostsExportIndexed(out: Output, posts: seq<Post>, ctx: Context)
    requires Indexed(out)
    ensures Indexed(PostsExport(out, posts, ctx).0)
    decreases |posts|
  {
    if posts != [] {
      var front := posts[..|posts| - 1];
      PostsExportIndexed(out, front, ctx);
      PostExportEffects(PostsExport(out, front, ctx).0, posts[|posts| - 1], ctx);
    }
  }

  /** So does the page walk: after fetchPosts every text recorded as a
      post's index.md is a file in that post's folder. */
  lemma {:induction false} PagesExportIndexed(out: Output, c: Collection<Post>, n: nat, ctx: Context)
    requires Indexed(out)
    ensures Indexed(PagesExport(out, c, n, ctx).out)
    decreases n
  {
    if n > 0 {
      PagesExportIndexed(out, c, n - 1, ctx);
      var w := PagesExport(out, c, n - 1, ctx);
      if w.ok && c.page(n).Got? {
        PostsExportIndexed(w.out, Limit(c.page(n).value, ctx.cfg.postsLimit), ctx);
      }
    }
  }

  /** No index.md is written for a walk over no pages. */
  lemma PagesExportNone(out: Output, c: Collection<Post>, ctx: Context)
    ensures PagesExport(out, c, 0, ctx) == Walk(out, true, 0, 0)
  {
  }

  /** The author catalog fetchAuthors writes, or the failure that ends the run. */
  function AuthorsCatalog(stored: Option<seq<Author>>, users: Collection<RemoteAuthor>): Fetched<seq<Author>>
  {
    if users.totalPages.FetchFailed? then FetchFailed
    else match Gathered(users, ParsedPageCount(users.totalPages.value))
      case FetchFailed => FetchFailed
      case Got(remote) => Got(MergeAuthors(Loaded(stored), remote))
  }

  /** The category catalog fetchCategories writes, or the failure that ends the run. */
  function CategoriesCatalog(stored: Option<seq<Category>>, remote: Collection<RemoteCategory>): Fetched<seq<Category>>
  {
    if remote.totalPages.FetchFailed? then FetchFailed
    else match Gathered(remote, CategoryPageCount(remote.totalPages.value))
      case FetchFailed => FetchFailed
      case Got(records) => Got(MergeCategories(Loaded(stored), records))
  }

  datatype PostsOutcome = Exported(count: nat) | AuthorsFileMissing | CategoriesFileMissing | PostsFailed

  /** The whole run. */
  datatype RunOutcome = Completed(count: nat) | RunFailed

  /** The state a run leaves on disk: the two catalog files, the post folders
      and their index.md files, and the failed image list. */
  class Exporter {
    var authorsFile: Option<seq<Author>>
    var categoriesFile: Option<seq<Category>>
    var disk: set<Path>
    var imagesNotDownloaded: seq<JsString>
    var documents: map<JsString, JsString>

    /** Every index.md written in this run is a file of its folder. */
    predicate Valid()
      reads this
    {
      Indexed(Snapshot())
    }

    function Snapshot(): Output
      reads this
    {
      Output(Store(disk, imagesNotDownloaded), documents)
    }

    /** A run over the given catalog files and post folders, with nothing
        written and no failed image yet. */
    constructor(authorsFile: Option<seq<Author>>, categoriesFile: Option<seq<Category>>, disk: set<Path>)
      ensures Valid()
      ensures this.authorsFile == authorsFile && this.categoriesFile == categoriesFile && this.disk == disk
      ensures imagesNotDownloaded == [] && documents == map[]
    {
      this.authorsFile := authorsFile;
      this.categoriesFile := categoriesFile;
      this.disk := disk;
      imagesNotDownloaded := [];
      documents := map[];
    }

    /** downloadPostImage. */
    method DownloadPostImage(src: Option<JsString>, folder: JsString, host: ImageHost) returns (name: Option<JsString>)
      requires Valid()
      modifies this
      ensures Valid()
      ensures (Store(disk, imagesNotDownloaded), name) == PostImage(old(Store(disk, imagesNotDownloaded)), src, folder, host)
      ensures documents == old(documents) && authorsFile == old(authorsFile) && categoriesFile == old(categoriesFile)
    {
      if !Present(src) || folder == [] {
        return None;
      }
      var url := src.value;
      var fileName := ImageFileName(url);
      if FileExists(disk, folder, fileName) {
        return Some(fileName);
      }
      var imageDownloaded, diskAfter, _ := DownloadImage(url, Path(folder, fileName), disk, host.net(url), host.stream(url));
      disk := diskAfter;
      if !imageDownloaded {
        imagesNotDownloaded := imagesNotDownloaded + [url];
      }
      name := if imageDownloaded then Some(fileName) else None;
    }

    /** downloadAndUpdateImages, with the body given by its image sources and
        the result by their new values. */
    method DownloadAndUpdateImages(srcs: seq<Option<JsString>>, folder: JsString, host: ImageHost)
      returns (newSrcs: seq<Option<JsString>>)
      requires Valid()
      modifies this
      ensures Valid()
      ensures (Store(disk, imagesNotDownloaded), newSrcs) == PostImages(old(Store(disk, imagesNotDownloaded)), srcs, folder, host)
      ensures documents == old(documents) && authorsFile == old(authorsFile) && categoriesFile == old(categoriesFile)
    {
      ghost var start := Store(disk, imagesNotDownloaded);
      newSrcs := [];
      var k := 0;
      while k < |srcs|
        invariant 0 <= k <= |srcs|
        invariant Valid()
        invariant (Store(disk, imagesNotDownloaded), newSrcs) == PostImages(start, srcs[..k], folder, host)
        invariant documents == old(documents) && authorsFile == old(authorsFile) && categoriesFile == old(categoriesFile)
      {
        assert srcs[..k + 1][..k] == srcs[..k];
        var newSrc := DownloadPostImage(srcs[k], folder, host);
        newSrcs := newSrcs + [newSrc];
        k := k + 1;
      }
      assert srcs[..|srcs|] == srcs;
    }

    /** The `for (const tag of post.tags)` loop of fetchTag calls. */
    static method FetchTags(ids: seq<int>, tags: int -> Fetched<Scalar>) returns (r: Fetched<seq<Scalar>>)
      ensures r == TagNames(ids, tags)
    {
      var names: seq<Scalar> := [];
      var k := 0;
      while k < |ids|
        invariant 0 <= k <= |ids|
        invariant TagNames(ids[..k], tags) == Got(names)
      {
        assert ids[..k + 1][..k] == ids[..k];
        var tag := tags(ids[k]);
        if tag.FetchFailed? {
          TagNamesFailFrom(ids, k + 1, tags);
          return FetchFailed;
        }
        names := names + [tag.value];
        k := k + 1;
      }
      assert ids[..|ids|] == ids;
      return Got(names);
    }

    /** The body of the `for (const post of limitedPosts)` loop. */
    method ExportPost(post: Post, ctx: Context) returns (ok: bool)
      requires Valid()
      modifies this
      ensures Valid()
      ensures (Snapshot(), ok) == PostExport(old(Snapshot()), post, ctx)
      ensures authorsFile == old(authorsFile) && categoriesFile == old(categoriesFile)
    {
      var folder := PostFolder(post.slug);
      var media := ctx.site.media(post.featuredMedia);
      if media.FetchFailed? {
        return false;
      }
      var titleImage := DownloadPostImage(media.value, folder, ctx.site.images);
      var tags := FetchTags(post.tags, ctx.site.tags);
      if tags.FetchFailed? {
        return false;
      }
      var htmlWithImages := DownloadAndUpdateImages(ctx.site.bodyImages(post.content), folder, ctx.site.images);
      var content := ctx.site.markdown(post.content, htmlWithImages);
      var frontmatter := BuildFrontmatter(post, ctx.authors, ctx.cats, titleImage, tags.value);
      documents := documents[folder := Serialize(Entries(frontmatter, ctx.cfg.showTags)) + content];
      disk := disk + {Path(folder, INDEX_MD)};
      return true;
    }

    /** importData for one fetched page: the posts cut to `postsLimit`,
        counted, then exported in order. */
    method ImportPage(posts: seq<Post>, ctx: Context) returns (ok: bool, exported: nat)
      requires Valid()
      modifies this
      ensures Valid()
      ensures exported == |Limit(posts, ctx.cfg.postsLimit)|
      ensures (Snapshot(), ok) == PostsExport(old(Snapshot()), Limit(posts, ctx.cfg.postsLimit), ctx)
      ensures authorsFile == old(authorsFile) && categoriesFile == old(categoriesFile)
    {
      var limitedPosts := Limit(posts, ctx.cfg.postsLimit);
      exported := |limitedPosts|;
      ok := ExportPosts(limitedPosts, ctx);
    }

    /** The `for (const post of limitedPosts)` loop, which stops at the
        first post that does not get through. */
    method ExportPosts(posts: seq<Post>, ctx: Context) returns (ok: bool)
      requires Valid()
      modifies this
      ensures Valid()
      ensures (Snapshot(), ok) == PostsExport(old(Snapshot()), posts, ctx)
      ensures authorsFile == old(authorsFile) && categoriesFile == old(categoriesFile)
    {
      ghost var start := Snapshot();
      var k := 0;
      while k < |posts|
        invariant 0 <= k <= |posts|
        invariant Valid()
        invariant PostsExport(start, posts[..k], ctx) == (Snapshot(), true)
        invariant authorsFile == old(authorsFile) && categoriesFile == old(categoriesFile)
      {
        var postOk := ExportNext(start, posts, k, ctx);
        if !postOk {
          PostsExportStop(start, posts, k + 1, ctx);
          return false;
        }
        k := k + 1;
      }
      PostsExportStop(start, posts, k, ctx);
      return true;
    }

    /** One turn of that loop: the posts before `k` all got through; now
        the post at `k`. */
    method ExportNext(ghost start: Output, posts: seq<Post>, k: nat, ctx: Context) returns (ok: bool)
      requires k < |posts|
      requires Valid()
      requires PostsExport(start, posts[..k], ctx) == (Snapshot(), true)
      modifies this
      ensures Valid()
      ensures PostsExport(start, posts[..k + 1], ctx) == (Snapshot(), ok)
      ensures authorsFile == old(authorsFile) && categoriesFile == old(categoriesFile)
    {
      PostsExportNext(start, posts, k, ctx);
      ok := ExportPost(posts[k], ctx);
    }

    /** fetchPosts: both catalog files must exist; then the pages of posts
        are walked as the `x-wp-totalpages` header says. */
    method FetchPosts(site: Site, cfg: Config) returns (outcome: PostsOutcome, requested: seq<Request>)
      requires Valid()
      modifies this
      ensures Valid()
      ensures authorsFile == old(authorsFile) && categoriesFile == old(categoriesFile)
      ensures authorsFile.None? ==> outcome == AuthorsFileMissing && requested == [] && Snapshot() == old(Snapshot())
      ensures authorsFile.Some? && categoriesFile.None? ==>
        outcome == CategoriesFileMissing && requested == [] && Snapshot() == old(Snapshot())
      ensures authorsFile.Some? && categoriesFile.Some? && site.posts.totalPages.FetchFailed? ==>
        outcome == PostsFailed && requested == [Request(None, Some(PER_PAGE))] && Snapshot() == old(Snapshot())
      ensures authorsFile.Some? && categoriesFile.Some? && site.posts.totalPages.Got? ==>
        var ctx := Context(authorsFile.value, categoriesFile.value, site, cfg);
        var w := PagesExport(old(Snapshot()), site.posts, ParsedPageCount(site.posts.totalPages.value), ctx);
        Snapshot() == w.out &&
        requested == [Request(None, Some(PER_PAGE))] + PageRequests(w.pages, Some(PER_PAGE)) &&
        outcome == if w.ok then Exported(w.exported) else PostsFailed
    {
      requested := [];
      if authorsFile.None? {
        return AuthorsFileMissing, requested;
      }
      var authors := authorsFile.value;
      if categoriesFile.None? {
        return CategoriesFileMissing, requested;
      }
      var categories := categoriesFile.value;
      var ctx := Context(authors, categories, site, cfg);
      requested := [Request(None, Some(PER_PAGE))];
      if site.posts.totalPages.FetchFailed? {
        return PostsFailed, requested;
      }
      var totalPages := ParsedPageCount(site.posts.totalPages.value);
      var pageRequests, ok, totalExportedPosts := ImportPages(ctx, totalPages);
      requested := requested + pageRequests;
      outcome := if ok then Exported(totalExportedPosts) else PostsFailed;
    }

    /** The `for (let page = 1; page <= totalPages; page++)` loop of
        fetchPosts: each page fetched with `per_page=100` and imported; the
        first failure ends the walk. */
    method ImportPages(ctx: Context, totalPages: nat)
      returns (requested: seq<Request>, ok: bool, totalExportedPosts: nat)
      requires Valid()
      modifies this
      ensures Valid()
      ensures authorsFile == old(authorsFile) && categoriesFile == old(categoriesFile)
      ensures var w := PagesExport(old(Snapshot()), ctx.site.posts, totalPages, ctx);
        Snapshot() == w.out && requested == PageRequests(w.pages, Some(PER_PAGE)) &&
        ok == w.ok && totalExportedPosts == w.exported
    {
      requested := [];
      ghost var start := Snapshot();
      totalExportedPosts := 0;
      var page := 1;
      while page <= totalPages
        invariant 1 <= page <= totalPages + 1
        invariant Valid()
        invariant PagesExport(start, ctx.site.posts, page - 1, ctx) == Walk(Snapshot(), true, page - 1, totalExportedPosts)
        invariant requested == PageRequests(page - 1, Some(PER_PAGE))
        invariant authorsFile == old(authorsFile) && categoriesFile == old(categoriesFile)
      {
        PageRequestsNext(page - 1, Some(PER_PAGE));
        requested := requested + [Request(Some(page), Some(PER_PAGE))];
        var pageOk, exported := FetchAndImportPage(start, page, totalExportedPosts, ctx);
        totalExportedPosts := totalExportedPosts + exported;
        if !pageOk {
          WalkStops(start, ctx.site.posts, page, totalPages, ctx);
          return requested, false, totalExportedPosts;
        }
        page := page + 1;
      }
      return requested, true, totalExportedPosts;
    }

    /** One turn of that loop: the pages before `page` all got through; now
        `page` is fetched and, when it arrives, imported. */
    method FetchAndImportPage(ghost start: Output, page: nat, ghost total: nat, ctx: Context)
      returns (ok: bool, exported: nat)
      requires page >= 1 && Valid()
      requires PagesExport(start, ctx.site.posts, page - 1, ctx) == Walk(Snapshot(), true, page - 1, total)
      modifies this
      ensures Valid()
      ensures authorsFile == old(authorsFile) && categoriesFile == old(categoriesFile)
      ensures PagesExport(start, ctx.site.posts, page, ctx) == Walk(Snapshot(), ok, page, total + exported)
    {
      var reply := ctx.site.posts.page(page);
      if reply.FetchFailed? {
        return false, 0;
      }
      ok, exported := ImportPage(reply.value, ctx);
    }

    /** The main sequence: authors, categories, posts; any failure ends the
        run. The catalogs written by the first two steps are the ones the
        third reads, so the run never finds a catalog file missing. */
    method Run(site: Site, cfg: Config) returns (outcome: RunOutcome)
      requires Valid()
      modifies this
      ensures Valid()
      ensures var authors := AuthorsCatalog(old(authorsFile), site.users);
              var cats := CategoriesCatalog(old(categoriesFile), site.categories);
        if authors.FetchFailed? then
          outcome == RunFailed && authorsFile == old(authorsFile) && categoriesFile == old(categoriesFile) &&
          Snapshot() == old(Snapshot())
        else if cats.FetchFailed? then
          outcome == RunFailed && authorsFile == Some(authors.value) && categoriesFile == old(categoriesFile) &&
          Snapshot() == old(Snapshot())
        else
          authorsFile == Some(authors.value) && categoriesFile == Some(cats.value) &&
          (site.posts.totalPages.FetchFailed? ==> outcome == RunFailed && Snapshot() == old(Snapshot())) &&
          (site.posts.totalPages.Got? ==>
            var ctx := Context(authors.value, cats.value, site, cfg);
            var w := PagesExport(old(Snapshot()), site.posts, ParsedPageCount(site.posts.totalPages.value), ctx);
            Snapshot() == w.out && outcome == if w.ok then Completed(w.exported) else RunFailed)
    {
      var authorsResult, _ := FetchAuthors(authorsFile, site.users);
      if authorsResult.FetchFailed? {
        return RunFailed;
      }
      authorsFile := Some(authorsResult.value);
      var categoriesResult, _ := FetchCategories(categoriesFile, site.categories);
      if categoriesResult.FetchFailed? {
        return RunFailed;
      }
      categoriesFile := Some(categoriesResult.value);
      var postsOutcome, _ := FetchPosts(site, cfg);
      assert !postsOutcome.AuthorsFileMissing? && !postsOutcome.CategoriesFileMissing?;
      if postsOutcome.Exported? {
        return Completed(postsOutcome.count);
      }
      return RunFailed;
    }
  }

  lemma {:induction false} TagNamesFailFrom(ids: seq<int>, k: nat, tags: int -> Fetched<Scalar>)
    requires 1 <= k <= |ids| && TagNames(ids[..k - 1], tags).Got? && tags(ids[k - 1]).FetchFailed?
    ensures TagNames(ids, tags).FetchFailed?
    decreases |ids|
  {
    if k < |ids| {
      var front := ids[..|ids| - 1];
      assert front[..k - 1] == ids[..k - 1] && front[k - 1] == ids[k - 1];
      TagNamesFailFrom(front, k, tags);
    } else {
      assert ids[..|ids| - 1] == ids[..k - 1];
    }
  }

  /** The export of a prefix is the export of the whole when the prefix
      is the whole or ends in a failure. */
  lemma {:induction false} PostsExportStop(out: Output, posts: seq<Post>, k: nat, ctx: Context)
    requires k <= |posts| && (k < |posts| ==> !PostsExport(out, posts[..k], ctx).1)
    ensures PostsExport(out, posts, ctx) == PostsExport(out, posts[..k], ctx)
    decreases |posts|
  {
    if k < |posts| {
      var front := posts[..|posts| - 1];
      assert front[..k] == posts[..k];
      PostsExportStop(out, front, k, ctx);
    } else {
      assert posts[..k] == posts;
    }
  }

  lemma {:induction false} WalkStops(out: Output, c: Collection<Post>, p: nat, n: nat, ctx: Context)
    requires 1 <= p <= n && PagesExport(out, c, p - 1, ctx).ok && !PagesExport(out, c, p, ctx).ok
    ensures PagesExport(out, c, n, ctx) == PagesExport(out, c, p, ctx)
    decreases n
  {
    if n > p {
      WalkStops(out, c, p, n - 1, ctx);
    }
  }
}
