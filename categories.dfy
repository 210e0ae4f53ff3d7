/** fetchCategories of index.mjs: the category catalog, merged by slug. */
module Categories {
  import opened Js
  import opened Listing

  /** A catalog entry of categories.json; `id` is the slug. */
  datatype Category = Category(id: JsString, name: JsString, description: JsString, wordpressId: int)

  /** A record of the `categories` endpoint. */
  datatype RemoteCategory = RemoteCategory(id: int, slug: JsString, name: JsString, description: JsString, count: int)

  predicate HasSlug(cats: seq<Category>, slug: JsString) {
    exists j :: 0 <= j < |cats| && cats[j].id == slug
  }

  /** `findIndex` by `existingCategory.id === category.slug`: the first match, or -1. */
  function IndexOfSlug(cats: seq<Category>, slug: JsString): (k: int)
    ensures -1 <= k < |cats|
    ensures k >= 0 ==> cats[k].id == slug && forall j :: 0 <= j < k ==> cats[j].id != slug
    ensures k == -1 <==> !HasSlug(cats, slug)
  {
    if cats == [] then -1
    else if cats[0].id == slug then 0
    else
      var k := IndexOfSlug(cats[1..], slug);
      assert forall j :: 1 <= j < |cats| ==> cats[j] == cats[1..][j - 1];
      if k == -1 then -1 else k + 1
  }

  /** The handling of one remote category. */
  function AddCategory(cats: seq<Category>, r: RemoteCategory): (result: seq<Category>)
    ensures r.count == 0 ==> result == cats
    ensures r.count != 0 && HasSlug(cats, r.slug) ==>
      |result| == |cats| &&
      forall i :: 0 <= i < |cats| ==>
        result[i] == if cats[i].id == r.slug && forall j :: 0 <= j < i ==> cats[j].id != r.slug
                     then cats[i].(wordpressId := r.id) else cats[i]
    ensures r.count != 0 && !HasSlug(cats, r.slug) ==>
      result == cats + [Category(r.slug, r.name, r.description, r.id)]
  {
    if r.count == 0 then cats
    else
      var k := IndexOfSlug(cats, r.slug);
      if k > -1 then cats[k := cats[k].(wordpressId := r.id)]
      else cats + [Category(r.slug, r.name, r.description, r.id)]
  }

  /** All remote categories handled in order, each against the catalog as
      the earlier ones left it. */
  function MergeCategories(cats: seq<Category>, remote: seq<RemoteCategory>): seq<Category>
    decreases |remote|
  {
    if remote == [] then cats
    else AddCategory(MergeCategories(cats, remote[..|remote| - 1]), remote[|remote| - 1])
  }

  lemma MergeCategoriesStep(cats: seq<Category>, remote: seq<RemoteCategory>, r: RemoteCategory)
    ensures MergeCategories(cats, remote + [r]) == AddCategory(MergeCategories(cats, remote), r)
  {
    assert (remote + [r])[..|remote|] == remote;
  }

  /** Handling two pages one after the other is handling their concatenation. */
  lemma {:induction false} MergeCategoriesConcat(cats: seq<Category>, a: seq<RemoteCategory>, b: seq<RemoteCategory>)
    ensures MergeCategories(cats, a + b) == MergeCategories(MergeCategories(cats, a), b)
    decreases |b|
  {
    if b == [] {
      assert a + b == a;
    } else {
      var b' := b[..|b| - 1];
      assert a + b == (a + b') + [b[|b| - 1]];
      assert b == b' + [b[|b| - 1]];
      MergeCategoriesStep(cats, a + b', b[|b| - 1]);
      MergeCategoriesStep(MergeCategories(cats, a), b', b[|b| - 1]);
      MergeCategoriesConcat(cats, a, b');
    }
  }

  /** The remote records whose count is not zero, in order. */
  function NonEmpty(remote: seq<RemoteCategory>): (r: seq<RemoteCategory>)
    ensures forall k :: 0 <= k < |r| ==> r[k].count != 0
    decreases |remote|
  {
    if remote == [] then []
    else NonEmpty(remote[..|remote| - 1]) + (if remote[|remote| - 1].count != 0 then [remote[|remote| - 1]] else [])
  }

  /** A category with count 0 is never appended and never updates an entry:
      the merge is the same with those records taken out. */
  lemma {:induction false} MergeIgnoresEmpty(cats: seq<Category>, remote: seq<RemoteCategory>)
    ensures MergeCategories(cats, remote) == MergeCategories(cats, NonEmpty(remote))
    decreases |remote|
  {
    if remote != [] {
      var front := remote[..|remote| - 1];
      var r := remote[|remote| - 1];
      MergeIgnoresEmpty(cats, front);
      if r.count != 0 {
        assert NonEmpty(remote) == NonEmpty(front) + [r];
        MergeCategoriesStep(cats, NonEmpty(front), r);
      } else {
        assert NonEmpty(remote) == NonEmpty(front);
      }
    }
  }

  /** Entries already in the catalog keep their position, slug, name and
      description; only wordpressId may change. The catalog never shrinks,
      so stored zero-count categories are not pruned. Every entry past the
      old end was built from a non-empty remote record with its slug. */
  lemma {:induction false} MergeCategoriesKeepsEntries(cats: seq<Category>, remote: seq<RemoteCategory>)
    ensures |cats| <= |MergeCategories(cats, remote)|
    ensures forall i :: 0 <= i < |cats| ==>
      MergeCategories(cats, remote)[i] == cats[i].(wordpressId := MergeCategories(cats, remote)[i].wordpressId)
    ensures forall i :: |cats| <= i < |MergeCategories(cats, remote)| ==>
      exists j :: 0 <= j < |remote| && remote[j].count != 0 &&
        (var e := MergeCategories(cats, remote)[i];
         e == Category(remote[j].slug, remote[j].name, remote[j].description, e.wordpressId))
    decreases |remote|
  {
    if remote != [] {
      var front := remote[..|remote| - 1];
      var r := remote[|remote| - 1];
      MergeCategoriesKeepsEntries(cats, front);
      var m := MergeCategories(cats, front);
      var m' := MergeCategories(cats, remote);
      forall i | |cats| <= i < |m'|
        ensures exists j :: (0 <= j < |remote| && remote[j].count != 0 &&
          m'[i] == Category(remote[j].slug, remote[j].name, remote[j].description, m'[i].wordpressId))
      {
        if i < |m| {
          assert (exists j :: 0 <= j < |front| && front[j].count != 0 &&
                    (var e := MergeCategories(cats, front)[i];
                     e == Category(front[j].slug, front[j].name, front[j].description, e.wordpressId)));
          var j :| 0 <= j < |front| && front[j].count != 0 &&
            m[i] == Category(front[j].slug, front[j].name, front[j].description, m[i].wordpressId);
          assert remote[j] == front[j];
        } else {
          assert m'[i] == Category(r.slug, r.name, r.description, r.id);
        }
      }
    }
  }

  /** No two entries share a slug. */
  predicate UniqueSlugs(cats: seq<Category>) {
    forall i, j :: 0 <= i < j < |cats| ==> cats[i].id != cats[j].id
  }

  /** A catalog without duplicate slugs keeps that property. */
  lemma {:induction false} MergeCategoriesUnique(cats: seq<Category>, remote: seq<RemoteCategory>)
    requires UniqueSlugs(cats)
    ensures UniqueSlugs(MergeCategories(cats, remote))
    decreases |remote|
  {
    if remote != [] {
      var front := remote[..|remote| - 1];
      var r := remote[|remote| - 1];
      MergeCategoriesUnique(cats, front);
      var m := MergeCategories(cats, front);
      if r.count != 0 && !HasSlug(m, r.slug) {
        var m' := m + [Category(r.slug, r.name, r.description, r.id)];
        forall i, j | 0 <= i < j < |m'| ensures m'[i].id != m'[j].id {
          if j == |m| {
            assert m'[i] == m[i];
          } else {
            assert m'[i] == m[i] && m'[j] == m[j];
          }
        }
      }
    }
  }

  /** The id of the last non-empty remote record with this slug. */
  function LastId(remote: seq<RemoteCategory>, slug: JsString): Option<int>
    decreases |remote|
  {
    if remote == [] then None
    else if remote[|remote| - 1].count != 0 && remote[|remote| - 1].slug == slug then Some(remote[|remote| - 1].id)
    else LastId(remote[..|remote| - 1], slug)
  }

  lemma {:induction false} LastIdOfRecord(remote: seq<RemoteCategory>, j: nat)
    requires j < |remote| && remote[j].count != 0
    ensures LastId(remote, remote[j].slug).Some?
    decreases |remote|
  {
    if j < |remote| - 1 {
      var front := remote[..|remote| - 1];
      assert front[j] == remote[j];
      LastIdOfRecord(front, j);
    }
  }

  /** Two catalogs with the same slugs at the same positions. */
  predicate SameSlugs(a: seq<Category>, b: seq<Category>) {
    |a| == |b| && forall i :: 0 <= i < |a| ==> a[i].id == b[i].id
  }

  lemma {:induction false} IndexOfSameSlugs(a: seq<Category>, b: seq<Category>, slug: JsString)
    requires SameSlugs(a, b)
    ensures IndexOfSlug(a, slug) == IndexOfSlug(b, slug)
    decreases |a|
  {
    if a != [] && a[0].id != slug {
      assert SameSlugs(a[1..], b[1..]) by {
        forall i | 0 <= i < |a[1..]| ensures a[1..][i].id == b[1..][i].id {
          assert a[1..][i] == a[i + 1] && b[1..][i] == b[i + 1];
        }
      }
      IndexOfSameSlugs(a[1..], b[1..], slug);
    }
  }

  lemma IndexOfAppend(a: seq<Category>, x: Category, slug: JsString)
    ensures IndexOfSlug(a + [x], slug) == if HasSlug(a, slug) then IndexOfSlug(a, slug)
                                        else if x.id == slug then |a| else -1
  {
    var k' := IndexOfSlug(a, slug);
    forall j | 0 <= j < |a| ensures (a + [x])[j] == a[j] {}
    if HasSlug(a, slug) {
      assert (a + [x])[k'].id == slug;
    } else if x.id == slug {
      assert (a + [x])[|a|].id == slug;
    } else {
      assert !HasSlug(a + [x], slug);
    }
  }

  /** After a merge, every slug that a non-empty remote record carries is in
      the catalog, and its first entry holds the id of the last such record. */
  lemma {:induction false} MergeRecordsLastId(cats: seq<Category>, remote: seq<RemoteCategory>, slug: JsString)
    requires LastId(remote, slug).Some?
    ensures HasSlug(MergeCategories(cats, remote), slug)
    ensures var d := MergeCategories(cats, remote);
      d[IndexOfSlug(d, slug)].wordpressId == LastId(remote, slug).value
    decreases |remote|
  {
    var front := remote[..|remote| - 1];
    var r := remote[|remote| - 1];
    var m := MergeCategories(cats, front);
    var d := MergeCategories(cats, remote);
    if r.count != 0 && r.slug == slug {
      if HasSlug(m, slug) {
        var k := IndexOfSlug(m, slug);
        assert d == m[k := m[k].(wordpressId := r.id)];
        IndexOfSameSlugs(d, m, slug);
      } else {
        IndexOfAppend(m, Category(r.slug, r.name, r.description, r.id), slug);
      }
    } else {
      MergeRecordsLastId(cats, front, slug);
      if r.count != 0 {
        if HasSlug(m, r.slug) {
          var k := IndexOfSlug(m, r.slug);
          assert d == m[k := m[k].(wordpressId := r.id)];
          IndexOfSameSlugs(d, m, slug);
        } else {
          IndexOfAppend(m, Category(r.slug, r.name, r.description, r.id), slug);
          assert d[IndexOfSlug(m, slug)] == m[IndexOfSlug(m, slug)];
        }
      }
    }
  }

  /** What a merge does to a catalog that already holds every slug the
      non-empty remote records carry: it only sets the wordpressId of the
      first entry of each such slug, to the id of the last record with it. */
  lemma {:induction false} MergeKnownSlugs(d: seq<Category>, remote: seq<RemoteCategory>)
    requires forall j :: 0 <= j < |remote| && remote[j].count != 0 ==> HasSlug(d, remote[j].slug)
    ensures |MergeCategories(d, remote)| == |d|
    ensures forall i :: 0 <= i < |d| ==>
      MergeCategories(d, remote)[i] ==
        if i == IndexOfSlug(d, d[i].id) && LastId(remote, d[i].id).Some?
        then d[i].(wordpressId := LastId(remote, d[i].id).value) else d[i]
    decreases |remote|
  {
    if remote != [] {
      var front := remote[..|remote| - 1];
      var r := remote[|remote| - 1];
      assert forall j :: 0 <= j < |front| ==> front[j] == remote[j];
      MergeKnownSlugs(d, front);
      var m := MergeCategories(d, front);
      var result := MergeCategories(d, remote);
      assert SameSlugs(m, d);
      if r.count != 0 {
        assert HasSlug(d, r.slug);
        IndexOfSameSlugs(m, d, r.slug);
        var k := IndexOfSlug(d, r.slug);
        assert result == m[k := m[k].(wordpressId := r.id)];
        forall i | 0 <= i < |d|
          ensures result[i] ==
            if i == IndexOfSlug(d, d[i].id) && LastId(remote, d[i].id).Some?
            then d[i].(wordpressId := LastId(remote, d[i].id).value) else d[i]
        {
          if d[i].id != r.slug {
            assert LastId(remote, d[i].id) == LastId(front, d[i].id);
          }
        }
      }
    }
  }

  /** Running the merge a second time against an unchanged remote leaves the
      catalog identical. */
  lemma MergeCategoriesIdempotent(cats: seq<Category>, remote: seq<RemoteCategory>)
    ensures MergeCategories(MergeCategories(cats, remote), remote) == MergeCategories(cats, remote)
  {
    var d := MergeCategories(cats, remote);
    forall j | 0 <= j < |remote| && remote[j].count != 0 ensures HasSlug(d, remote[j].slug) {
      LastIdOfRecord(remote, j);
      MergeRecordsLastId(cats, remote, remote[j].slug);
    }
    MergeKnownSlugs(d, remote);
    forall i | 0 <= i < |d| && i == IndexOfSlug(d, d[i].id) && LastId(remote, d[i].id).Some?
      ensures d[i].wordpressId == LastId(remote, d[i].id).value
    {
      MergeRecordsLastId(cats, remote, d[i].id);
    }
  }

  /** The page count of the loop `page <= totalPages`, which compares with
      the header text itself: a missing header is null, which counts as 0. */
  function CategoryPageCount(header: Option<JsString>): nat {
    if header.None? then 0 else PageCount(StringToNumber(header.value))
  }

  /** A missing or empty header gives no pages; a header of decimal digits
      gives its value. */
  lemma CategoryPageCountOf(header: Option<JsString>, n: nat)
    ensures header.None? ==> CategoryPageCount(header) == 0
    ensures header == Some([]) ==> CategoryPageCount(header) == 0
    ensures header == Some(Decimal(n)) ==> CategoryPageCount(header) == n
  {
    var d := Decimal(n);
    assert !IsJsSpace(d[0]) && !IsJsSpace(d[|d| - 1]);
    assert TrimEnd(TrimStart(d)) == d;
    assert SignlessPart(d) == d;
    DecimalRoundTrip(n);
  }

  /** The categories loop compares with the header text, the authors and
      posts loops with its `parseInt`: a header with trailing text, such as
      "3x", walks its pages for authors and posts but none for categories. */
  lemma PageCountsDisagree(n: nat)
    ensures var header := Some(Decimal(n) + [120 as CodeUnit]);
      ParsedPageCount(header) == n && CategoryPageCount(header) == 0
  {
    var d := Decimal(n);
    var h := d + [120 as CodeUnit];
    assert !IsJsSpace(h[0]) && !IsJsSpace(h[|h| - 1]);
    assert TrimStart(h) == h && TrimEnd(h) == h;
    assert SignlessPart(h) == h;
    assert DigitRun(h) == |d| by {
      assert forall k :: 0 <= k < |d| ==> IsDigit(h[k]);
      assert !IsDigit(h[|d|]);
    }
    assert h[..|d|] == d;
    DecimalRoundTrip(n);
  }

  /** The nested `importData` of fetchCategories for one fetched page: each
      record merged into the catalog in turn. */
  method ImportData(cats: seq<Category>, records: seq<RemoteCategory>) returns (result: seq<Category>)
    ensures result == MergeCategories(cats, records)
  {
    result := cats;
    var k := 0;
    while k < |records|
      invariant 0 <= k <= |records|
      invariant result == MergeCategories(cats, records[..k])
    {
      var category := records[k];
      assert records[..k + 1] == records[..k] + [category];
      MergeCategoriesStep(cats, records[..k], category);
      ghost var next := AddCategory(result, category);
      if category.count == 0 {
        k := k + 1;
        continue;
      }
      var existing := IndexOfSlug(result, category.slug);
      if existing > -1 {
        result := result[existing := result[existing].(wordpressId := category.id)];
        assert result == next;
        k := k + 1;
        continue;
      }
      result := result + [Category(category.slug, category.name, category.description, category.id)];
      assert result == next;
      k := k + 1;
    }
    assert records[..|records|] == records;
  }

  /** fetchCategories. `stored` is categories.json when it exists; on success
      the result is what is written back. Unlike the other endpoints, the
      page requests carry no `per_page`. A failing request aborts the run
      before the write. */
  method FetchCategories(stored: Option<seq<Category>>, remote: Collection<RemoteCategory>)
    returns (result: Fetched<seq<Category>>, requested: seq<Request>)
    ensures remote.totalPages.FetchFailed? ==> result.FetchFailed? && requested == [Request(None, None)]
    ensures remote.totalPages.Got? ==>
      var n := CategoryPageCount(remote.totalPages.value);
      requested == [Request(None, None)] + PageRequests(PagesTried(remote, n), None) &&
      (result.Got? <==> Gathered(remote, n).Got?) &&
      (result.Got? ==> result.value == MergeCategories(Loaded(stored), Gathered(remote, n).value))
  {
    requested := [Request(None, None)];
    if remote.totalPages.FetchFailed? {
      return FetchFailed, requested;
    }
    var totalPages := CategoryPageCount(remote.totalPages.value);
    var pageRequests;
    result, pageRequests := ImportPages(Loaded(stored), remote, totalPages);
    requested := requested + pageRequests;
  }

  /** The `for (let page = 1; page <= totalPages; page++)` loop: each page
      fetched and passed to `importData`; a failing page ends the walk. */
  method ImportPages(cats: seq<Category>, remote: Collection<RemoteCategory>, totalPages: nat)
    returns (result: Fetched<seq<Category>>, requested: seq<Request>)
    ensures requested == PageRequests(PagesTried(remote, totalPages), None)
    ensures result.Got? <==> Gathered(remote, totalPages).Got?
    ensures result.Got? ==> result.value == MergeCategories(cats, Gathered(remote, totalPages).value)
  {
    var merged := cats;
    requested := [];
    ghost var seen: seq<RemoteCategory> := [];
    var page := 1;
    while page <= totalPages
      invariant 1 <= page <= totalPages + 1
      invariant Gathered(remote, page - 1) == Got(seen)
      invariant merged == MergeCategories(cats, seen)
      invariant requested == PageRequests(page - 1, None)
    {
      PageRequestsNext(page - 1, None);
      requested := requested + [Request(Some(page), None)];
      var reply := remote.page(page);
      if reply.FetchFailed? {
        PagesFailFrom(remote, page, totalPages);
        return FetchFailed, requested;
      }
      var records := reply.value;
      MergeCategoriesConcat(cats, seen, records);
      merged := ImportData(merged, records);
      seen := seen + records;
      page := page + 1;
    }
    assert Gathered(remote, totalPages) == Got(seen);
    return Got(merged), requested;
  }
}
