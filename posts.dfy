/** The per-post rules of fetchPosts in index.mjs: which author and category
    a post is shown with, its status, how many posts of a page are exported,
    the file name of a post image, and what downloadPostImage does to the
    post folder and to the list of images that could not be downloaded. */
module Posts {
  import opened Js
  import opened Utils
  import opened Authors
  import opened Categories
  import opened Frontmatter

  /** A record of the `posts` endpoint, with the fields the export reads;
      `author`, `categories` and `tags` hold ids. */
  datatype Post = Post(
    id: int, slug: JsString, title: JsString, status: JsString, author: int,
    categories: seq<int>, featuredMedia: int, tags: seq<int>,
    date: JsString, modified: JsString, content: JsString)

  /** `authors.find(...)` by `wordpressId`: the first author with that id. */
  function FindAuthor(authors: seq<Author>, wordpressId: int): (r: Option<Author>)
    ensures r.None? <==> forall i :: 0 <= i < |authors| ==> authors[i].wordpressId != wordpressId
    ensures r.Some? ==> exists i :: (0 <= i < |authors| && authors[i] == r.value &&
      authors[i].wordpressId == wordpressId && forall j :: 0 <= j < i ==> authors[j].wordpressId != wordpressId)
  {
    if authors == [] then None
    else if authors[0].wordpressId == wordpressId then Some(authors[0])
    else
      var r := FindAuthor(authors[1..], wordpressId);
      assert forall j :: 1 <= j < |authors| ==> authors[j] == authors[1..][j - 1];
      if r.Some? then
        ghost var i :| 0 <= i < |authors[1..]| && authors[1..][i] == r.value &&
          authors[1..][i].wordpressId == wordpressId && forall j :: 0 <= j < i ==> authors[1..][j].wordpressId != wordpressId;
        assert authors[i + 1] == r.value;
        r
      else r
  }

  const UNKNOWN_AUTHOR: JsString := Lit("Unknown Author")

  /** The `author` and `authorSlug` values: the matching author's name and
      slug, or the stand-in `{ name: "Unknown Author" }`, which has no slug. */
  function Byline(authors: seq<Author>, post: Post): (r: (Scalar, Scalar))
  {
    match FindAuthor(authors, post.author)
    case Some(a) => (Str(a.name), Str(a.id))
    case None => (Str(UNKNOWN_AUTHOR), Scalar.Undefined)
  }

  /** The slug is undefined exactly when no catalog author has the post's
      author id; then the name is "Unknown Author". Otherwise both come from
      the first author with that id. */
  lemma BylineFallback(authors: seq<Author>, post: Post)
    ensures Byline(authors, post).1 == Scalar.Undefined <==>
      forall i :: 0 <= i < |authors| ==> authors[i].wordpressId != post.author
    ensures Byline(authors, post).1 == Scalar.Undefined ==> Byline(authors, post).0 == Str(UNKNOWN_AUTHOR)
    ensures Byline(authors, post).1 != Scalar.Undefined ==>
      exists i :: 0 <= i < |authors| && authors[i].wordpressId == post.author &&
        (forall j :: 0 <= j < i ==> authors[j].wordpressId != post.author) &&
        Byline(authors, post) == (Str(authors[i].name), Str(authors[i].id))
  {
  }

  /** `categories.filter(c => post.categories.includes(c.wordpressId))`. */
  function PostCategories(cats: seq<Category>, ids: seq<int>): (r: seq<Category>)
    ensures |r| <= |cats|
    decreases |cats|
  {
    if cats == [] then []
    else (if cats[0].wordpressId in ids then [cats[0]] else []) + PostCategories(cats[1..], ids)
  }

  /** Exactly the catalog entries whose `wordpressId` the post lists are kept. */
  lemma {:induction false} PostCategoriesMembers(cats: seq<Category>, ids: seq<int>, c: Category)
    ensures c in PostCategories(cats, ids) <==> c in cats && c.wordpressId in ids
    decreases |cats|
  {
    if cats != [] {
      PostCategoriesMembers(cats[1..], ids, c);
      HeadTail(cats);
    }
  }

  /** The filter depends on the post's ids only as a set: their order and
      repetitions do not matter. */
  lemma {:induction false} PostCategoriesOfSameIds(cats: seq<Category>, a: seq<int>, b: seq<int>)
    requires forall x :: x in a <==> x in b
    ensures PostCategories(cats, a) == PostCategories(cats, b)
    decreases |cats|
  {
    if cats != [] {
      PostCategoriesOfSameIds(cats[1..], a, b);
    }
  }

  /** The category a post is shown with: the first filtered one. */
  function FirstCategory(cats: seq<Category>, ids: seq<int>): Option<Category> {
    var matching := PostCategories(cats, ids);
    if |matching| > 0 then Some(matching[0]) else None
  }

  /** It is the earliest catalog entry whose wordpressId the post lists, in
      catalog order and not in the order of the post's ids; there is none
      exactly when no entry matches. */
  lemma {:induction false} FirstCategoryEarliest(cats: seq<Category>, ids: seq<int>)
    ensures FirstCategory(cats, ids).None? <==> forall i :: 0 <= i < |cats| ==> cats[i].wordpressId !in ids
    ensures FirstCategory(cats, ids).Some? ==>
      exists i :: 0 <= i < |cats| && cats[i] == FirstCategory(cats, ids).value &&
        cats[i].wordpressId in ids && forall j :: 0 <= j < i ==> cats[j].wordpressId !in ids
    decreases |cats|
  {
    if cats != [] {
      FirstCategoryStep(cats, ids);
      if cats[0].wordpressId !in ids {
        var tail := cats[1..];
        FirstCategoryEarliest(tail, ids);
        assert forall j :: 1 <= j < |cats| ==> cats[j] == tail[j - 1];
        if FirstCategory(tail, ids).Some? {
          var i :| 0 <= i < |tail| && tail[i] == FirstCategory(tail, ids).value &&
            tail[i].wordpressId in ids && forall j :: 0 <= j < i ==> tail[j].wordpressId !in ids;
          assert cats[i + 1] == tail[i];
        }
      }
    }
  }

  lemma FirstCategoryStep(cats: seq<Category>, ids: seq<int>)
    requires cats != []
    ensures FirstCategory(cats, ids) ==
      if cats[0].wordpressId in ids then Some(cats[0]) else FirstCategory(cats[1..], ids)
  {
  }

  const PUBLISH: JsString := Lit("publish")
  const PUBLISHED: JsString := Lit("published")
  const DRAFT: JsString := Lit("draft")

  /** The frontmatter status of a post. */
  function StatusOf(status: JsString): (r: JsString)
    ensures r == PUBLISHED <==> status == PUBLISH
    ensures r != PUBLISHED ==> r == DRAFT
  {
    assert |PUBLISHED| != |DRAFT|;
    if status == PUBLISH then PUBLISHED else DRAFT
  }

  /** `config.postsLimit ? posts.slice(0, config.postsLimit) : posts`, for an
      integer limit: 0 keeps the page whole, a positive limit keeps that many
      first posts, and a negative one drops that many from the end. */
  function Limit<T>(posts: seq<T>, limit: int): (r: seq<T>)
    ensures |r| <= |posts| && r == posts[..|r|]
    ensures limit == 0 ==> r == posts
    ensures limit > 0 ==> |r| == if limit < |posts| then limit else |posts|
    ensures limit < 0 ==> |r| == if |posts| + limit > 0 then |posts| + limit else 0
  {
    if limit == 0 then posts
    else if limit > 0 then (if limit < |posts| then posts[..limit] else posts)
    else if |posts| + limit > 0 then posts[..|posts| + limit] else []
  }

  function DropTrailingSlashes(p: JsString): (r: JsString)
    ensures |r| <= |p| && r == p[..|r|]
    ensures r != [] ==> r[|r| - 1] != SLASH
    decreases |p|
  {
    if p != [] && p[|p| - 1] == SLASH then DropTrailingSlashes(p[..|p| - 1]) else p
  }

  /** The index of the last `sep` of `t`, or -1. */
  function LastIndexOf(t: JsString, sep: CodeUnit): (k: int)
    ensures -1 <= k < |t|
    ensures k >= 0 ==> t[k] == sep
    ensures forall j :: k < j < |t| ==> t[j] != sep
    decreases |t|
  {
    if t == [] then -1
    else if t[|t| - 1] == sep then |t| - 1
    else
      var k := LastIndexOf(t[..|t| - 1], sep);
      assert forall j :: 0 <= j < |t| - 1 ==> t[j] == t[..|t| - 1][j];
      k
  }

  /** What follows the last `sep` of `t`, or all of `t` when it has none. */
  function AfterLast(t: JsString, sep: CodeUnit): (r: JsString)
    ensures sep !in r
  {
    NoSeparatorAfterLast(t, sep);
    t[LastIndexOf(t, sep) + 1..]
  }

  lemma NoSeparatorAfterLast(t: JsString, sep: CodeUnit)
    ensures sep !in t[LastIndexOf(t, sep) + 1..]
  {
    var k := LastIndexOf(t, sep);
    var r := t[k + 1..];
    forall j | 0 <= j < |r| ensures r[j] != sep {
      assert r[j] == t[k + 1 + j];
    }
  }

  /** `path.basename` of a POSIX path: trailing slashes are dropped, then
      what follows the last slash is the name; a path of slashes only has the
      empty name. */
  function Basename(p: JsString): (r: JsString)
    ensures SLASH !in r
  {
    AfterLast(DropTrailingSlashes(p), SLASH)
  }

  /** `path.basename(src).split("?")[0]`. */
  function ImageFileName(src: JsString): (r: JsString)
    ensures SLASH !in r && QUESTION !in r
  {
    BeforeFirst(Basename(src), QUESTION)
  }

  lemma AfterLastSegment(prefix: JsString, last: JsString, sep: CodeUnit)
    requires sep !in last
    ensures AfterLast(prefix + [sep] + last, sep) == last
  {
    var t := prefix + [sep] + last;
    var k := LastIndexOf(t, sep);
    assert t[|prefix|] == sep;
    assert k >= |prefix|;
    assert forall j :: |prefix| < j < |t| ==> t[j] == last[j - |prefix| - 1];
    assert t[|prefix| + 1..] == last;
  }

  /** The name of an image is cut out of the last path segment of its URL,
      up to the first `?`. */
  lemma ImageFileNameOfSegment(prefix: JsString, last: JsString)
    requires last != [] && SLASH !in last
    ensures ImageFileName(prefix + [SLASH] + last) == BeforeFirst(last, QUESTION)
  {
    var p := prefix + [SLASH] + last;
    assert p[|p| - 1] == last[|last| - 1];
    assert DropTrailingSlashes(p) == p;
    AfterLastSegment(prefix, last, SLASH);
  }

  /** For a URL `.../name?query` whose query has no slash, the file name is
      `name`; a slash inside the query would make the name the text after it. */
  lemma ImageFileNameOfUrl(dir: JsString, name: JsString, query: JsString)
    requires name != [] && SLASH !in name && QUESTION !in name && SLASH !in query
    ensures ImageFileName(dir + [SLASH] + name + [QUESTION] + query) == name
  {
    var last := name + [QUESTION] + query;
    assert dir + [SLASH] + name + [QUESTION] + query == dir + [SLASH] + last;
    ImageFileNameOfSegment(dir, last);
    BeforeFirstStopsAtSeparator(name, query, QUESTION);
  }

  /** Trailing slashes do not change the name. */
  lemma ImageFileNameTrailingSlash(p: JsString)
    ensures ImageFileName(p + [SLASH]) == ImageFileName(p)
  {
    var q := p + [SLASH];
    assert q[..|q| - 1] == p;
    assert DropTrailingSlashes(q) == DropTrailingSlashes(p);
  }

  /** The names `path.resolve(folder, name)` turns into the folder itself
      or its parent, both of which exist once the post folder is created. */
  predicate DirectoryName(name: JsString) {
    name == [] || name == [DOT] || name == [DOT, DOT]
  }

  /** `fs.existsSync(path.resolve(folder, name))` for a name without slashes. */
  predicate FileExists(disk: set<Path>, folder: JsString, name: JsString) {
    DirectoryName(name) || Path(folder, name) in disk
  }

  /** The image server as the export sees it: the replies to the attempts of
      each URL and the outcome of writing its body to the file. */
  datatype ImageHost = ImageHost(net: JsString -> nat -> Reply, stream: JsString -> StreamResult)

  /** The files of the post folders and the `imagesNotDownloaded` list. */
  datatype Store = Store(disk: set<Path>, failed: seq<JsString>)

  /** `!src`: an absent attribute or the empty string. */
  predicate Present(src: Option<JsString>) { src.Some? && src.value != [] }

  /** downloadPostImage: the store afterwards and the returned file name
      (None: undefined). */
  function PostImage(st: Store, src: Option<JsString>, folder: JsString, host: ImageHost): (r: (Store, Option<JsString>))
    ensures !Present(src) || folder == [] ==> r == (st, None)
    ensures st.disk <= r.0.disk
    ensures r.1.Some? ==> (Present(src) && r.1.value == ImageFileName(src.value) &&
      FileExists(r.0.disk, folder, r.1.value))
    ensures r.0.failed == if Present(src) && folder != [] && r.1.None? then st.failed + [src.value] else st.failed
  {
    if !Present(src) || folder == [] then (st, None)
    else
      var url := src.value;
      var name := ImageFileName(url);
      if FileExists(st.disk, folder, name) then (st, Some(name))
      else
        var fetched := Downloadable(url, host.net(url));
        var disk := if fetched && host.stream(url) != OpenFailed then st.disk + {Path(folder, name)} else st.disk;
        if fetched && host.stream(url) == Finished then (Store(disk, st.failed), Some(name))
        else (Store(disk, st.failed + [url]), None)
  }

  /** An image whose file exists is returned without any download; the
      store does not change. */
  lemma PostImageExisting(st: Store, src: Option<JsString>, folder: JsString, host: ImageHost)
    requires Present(src) && folder != [] && FileExists(st.disk, folder, ImageFileName(src.value))
    ensures PostImage(st, src, folder, host) == (st, Some(ImageFileName(src.value)))
  {
  }

  /** Otherwise the name is returned exactly when the download succeeds;
      on failure the URL is appended to the failed list. */
  lemma PostImageDownload(st: Store, src: Option<JsString>, folder: JsString, host: ImageHost)
    requires Present(src) && folder != [] && !FileExists(st.disk, folder, ImageFileName(src.value))
    ensures var ok := Downloadable(src.value, host.net(src.value)) && host.stream(src.value) == Finished;
      PostImage(st, src, folder, host).1 == (if ok then Some(ImageFileName(src.value)) else None)
  {
  }

  /** Once an image has been returned, asking for it again returns the same
      name and changes nothing. */
  lemma PostImageSettled(st: Store, src: Option<JsString>, folder: JsString, host: ImageHost)
    requires PostImage(st, src, folder, host).1.Some?
    ensures var (st', name) := PostImage(st, src, folder, host);
      PostImage(st', src, folder, host) == (st', name)
  {
  }

  /** downloadAndUpdateImages: the images of a post body in document order,
      each handled against the store the earlier ones left, with the new
      value of each `src`. Files are only added, and each new `src` is the
      file name of the old one or undefined. */
  function PostImages(st: Store, srcs: seq<Option<JsString>>, folder: JsString, host: ImageHost): (r: (Store, seq<Option<JsString>>))
    ensures |r.1| == |srcs|
    ensures st.disk <= r.0.disk
    decreases |srcs|
  {
    if srcs == [] then (st, [])
    else
      var (st', names) := PostImages(st, srcs[..|srcs| - 1], folder, host);
      var (st'', name) := PostImage(st', srcs[|srcs| - 1], folder, host);
      (st'', names + [name])
  }

  /** Each new `src` is the old one's file name, or undefined. */
  lemma {:induction false} PostImagesNames(st: Store, srcs: seq<Option<JsString>>, folder: JsString, host: ImageHost, k: nat)
    requires k < |srcs|
    ensures var name := PostImages(st, srcs, folder, host).1[k];
      name.None? || (Present(srcs[k]) && name.value == ImageFileName(srcs[k].value))
    decreases |srcs|
  {
    var last := |srcs| - 1;
    var (st', names) := PostImages(st, srcs[..last], folder, host);
    assert PostImages(st, srcs, folder, host).1 == names + [PostImage(st', srcs[last], folder, host).1];
    if k < last {
      PostImagesNames(st, srcs[..last], folder, host, k);
      assert srcs[..last][k] == srcs[k];
    }
  }

  /** The images a post body fails to download, in document order. */
  function FailedSources(srcs: seq<Option<JsString>>, names: seq<Option<JsString>>): seq<JsString>
    requires |srcs| == |names|
    decreases |srcs|
  {
    if srcs == [] then []
    else
      var k := |srcs| - 1;
      FailedSources(srcs[..k], names[..k]) + (if Present(srcs[k]) && names[k].None? then [srcs[k].value] else [])
  }

  /** The failed list grows by exactly the present sources of the body that
      came back undefined, in order. */
  lemma {:induction false} PostImagesFailed(st: Store, srcs: seq<Option<JsString>>, folder: JsString, host: ImageHost)
    requires folder != []
    ensures PostImages(st, srcs, folder, host).0.failed ==
            st.failed + FailedSources(srcs, PostImages(st, srcs, folder, host).1)
    decreases |srcs|
  {
    if srcs != [] {
      var k := |srcs| - 1;
      PostImagesFailed(st, srcs[..k], folder, host);
      var names := PostImages(st, srcs, folder, host).1;
      assert names[..k] == PostImages(st, srcs[..k], folder, host).1;
    }
  }

  /** The frontmatter object of a post, from its converted title, the
      author and category catalogs, the title image name and the tag names. */
  function BuildFrontmatter(post: Post, authors: seq<Author>, cats: seq<Category>,
                            titleImage: Option<JsString>, tags: seq<Scalar>): Frontmatter
  {
    var (author, authorSlug) := Byline(authors, post);
    var first := FirstCategory(cats, post.categories);
    Frontmatter(
      Str(post.slug),
      Str(ConvertEscapedAscii(post.title)),
      Str(StatusOf(post.status)),
      author, authorSlug,
      if titleImage.Some? then Str(titleImage.value) else Scalar.Undefined,
      if first.Some? then Str(first.value.id) else Scalar.Null,
      if first.Some? then Str(first.value.name) else Scalar.Null,
      Str(post.date),
      Str(post.modified),
      Num(post.id),
      tags)
  }

  /** The field rules: the status is "published" exactly for "publish" and
      "draft" otherwise; categorySlug and category are null exactly when no
      catalog category has an id the post lists, and otherwise come from the
      earliest such entry of the catalog; authorSlug is undefined exactly
      when no author has the post's author id, and the author is then
      "Unknown Author"; a missing title image is undefined. */
  lemma FrontmatterRules(post: Post, authors: seq<Author>, cats: seq<Category>,
                         titleImage: Option<JsString>, tags: seq<Scalar>)
    ensures var fm := BuildFrontmatter(post, authors, cats, titleImage, tags);
      (fm.status == Str(PUBLISHED) <==> post.status == PUBLISH) &&
      (fm.status != Str(PUBLISHED) ==> fm.status == Str(DRAFT)) &&
      fm.title == Str(ConvertEscapedAscii(post.title)) &&
      (fm.titleImage == Scalar.Undefined <==> titleImage.None?)
    ensures var fm := BuildFrontmatter(post, authors, cats, titleImage, tags);
      (fm.categorySlug == Scalar.Null <==> forall i :: 0 <= i < |cats| ==> cats[i].wordpressId !in post.categories) &&
      (fm.categorySlug != Scalar.Null ==>
        exists i :: 0 <= i < |cats| && cats[i].wordpressId in post.categories &&
          (forall j :: 0 <= j < i ==> cats[j].wordpressId !in post.categories) &&
          fm.categorySlug == Str(cats[i].id) && fm.category == Str(cats[i].name))
    ensures var fm := BuildFrontmatter(post, authors, cats, titleImage, tags);
      (fm.authorSlug == Scalar.Undefined <==> forall i :: 0 <= i < |authors| ==> authors[i].wordpressId != post.author) &&
      (fm.authorSlug == Scalar.Undefined ==> fm.author == Str(UNKNOWN_AUTHOR))
  {
    FirstCategoryEarliest(cats, post.categories);
    BylineFallback(authors, post);
  }
}
