/** authors.mjs: the author catalog, merged by WordPress user id. */
module Authors {
  import opened Js
  import opened Listing

  /** A catalog entry of authors.json. */
  datatype Author = Author(id: JsString, name: JsString, wordpressId: int)

  /** A user record of the `users` endpoint. */
  datatype RemoteAuthor = RemoteAuthor(id: int, slug: JsString, name: JsString)

  predicate HasId(authors: seq<Author>, id: int) {
    exists j :: 0 <= j < |authors| && authors[j].wordpressId == id
  }

  /** `findIndex` by `Number(wordpressId) === Number(id)`: the first match, or -1. */
  function IndexOfId(authors: seq<Author>, id: int): (k: int)
    ensures -1 <= k < |authors|
    ensures k >= 0 ==> authors[k].wordpressId == id && forall j :: 0 <= j < k ==> authors[j].wordpressId != id
    ensures k == -1 <==> !HasId(authors, id)
  {
    if authors == [] then -1
    else if authors[0].wordpressId == id then 0
    else
      var k := IndexOfId(authors[1..], id);
      assert forall j :: 1 <= j < |authors| ==> authors[j] == authors[1..][j - 1];
      if k == -1 then -1 else k + 1
  }

  /** The handling of one remote author: skipped when its id is already in
      the catalog, otherwise appended as `{id: slug, name, wordpressId}`. */
  function AddAuthor(authors: seq<Author>, r: RemoteAuthor): (result: seq<Author>)
    ensures HasId(authors, r.id) ==> result == authors
    ensures !HasId(authors, r.id) ==> result == authors + [Author(r.slug, r.name, r.id)]
  {
    if IndexOfId(authors, r.id) > -1 then authors else authors + [Author(r.slug, r.name, r.id)]
  }

  /** All remote authors handled in order, each against the catalog as the
      earlier ones left it. */
  function MergeAuthors(authors: seq<Author>, remote: seq<RemoteAuthor>): seq<Author>
    decreases |remote|
  {
    if remote == [] then authors
    else AddAuthor(MergeAuthors(authors, remote[..|remote| - 1]), remote[|remote| - 1])
  }

  function Ids(authors: seq<Author>): set<int> {
    set j | 0 <= j < |authors| :: authors[j].wordpressId
  }

  function RemoteIds(remote: seq<RemoteAuthor>): set<int> {
    set j | 0 <= j < |remote| :: remote[j].id
  }

  /** No two entries share a wordpressId. */
  predicate UniqueIds(authors: seq<Author>) {
    forall i, j :: 0 <= i < j < |authors| ==> authors[i].wordpressId != authors[j].wordpressId
  }

  lemma HasIdInIds(authors: seq<Author>, id: int)
    ensures HasId(authors, id) <==> id in Ids(authors)
  {
    if id in Ids(authors) {
      var j :| 0 <= j < |authors| && authors[j].wordpressId == id;
    }
  }

  lemma MergeAuthorsStep(authors: seq<Author>, remote: seq<RemoteAuthor>, r: RemoteAuthor)
    ensures MergeAuthors(authors, remote + [r]) == AddAuthor(MergeAuthors(authors, remote), r)
  {
    assert (remote + [r])[..|remote|] == remote;
  }

  /** Handling the records of two pages one after the other is handling
      their concatenation. */
  lemma {:induction false} MergeAuthorsConcat(authors: seq<Author>, a: seq<RemoteAuthor>, b: seq<RemoteAuthor>)
    ensures MergeAuthors(authors, a + b) == MergeAuthors(MergeAuthors(authors, a), b)
    decreases |b|
  {
    if b == [] {
      assert a + b == a;
    } else {
      var b' := b[..|b| - 1];
      assert a + b == (a + b') + [b[|b| - 1]];
      assert b == b' + [b[|b| - 1]];
      MergeAuthorsStep(authors, a + b', b[|b| - 1]);
      MergeAuthorsStep(MergeAuthors(authors, a), b', b[|b| - 1]);
      MergeAuthorsConcat(authors, a, b');
    }
  }

  /** Existing entries are never removed, reordered or modified: the old
      catalog is a prefix of the new one, and every added entry is built
      from a remote record. */
  lemma {:induction false} MergeAuthorsAppendOnly(authors: seq<Author>, remote: seq<RemoteAuthor>)
    ensures authors <= MergeAuthors(authors, remote)
    ensures forall i :: |authors| <= i < |MergeAuthors(authors, remote)| ==>
      exists j :: 0 <= j < |remote| && MergeAuthors(authors, remote)[i] == Author(remote[j].slug, remote[j].name, remote[j].id)
    decreases |remote|
  {
    if remote != [] {
      var front := remote[..|remote| - 1];
      var r := remote[|remote| - 1];
      MergeAuthorsAppendOnly(authors, front);
      var m := MergeAuthors(authors, front);
      forall i | |authors| <= i < |MergeAuthors(authors, remote)|
        ensures exists j :: 0 <= j < |remote| && MergeAuthors(authors, remote)[i] == Author(remote[j].slug, remote[j].name, remote[j].id)
      {
        if i < |m| {
          var j :| 0 <= j < |front| && m[i] == Author(front[j].slug, front[j].name, front[j].id);
          assert remote[j] == front[j];
        } else {
          assert MergeAuthors(authors, remote)[i] == Author(r.slug, r.name, r.id);
        }
      }
    }
  }

  /** The ids in the merged catalog: the old ones and the remote ones. */
  lemma {:induction false} MergeAuthorsIds(authors: seq<Author>, remote: seq<RemoteAuthor>)
    ensures Ids(MergeAuthors(authors, remote)) == Ids(authors) + RemoteIds(remote)
    decreases |remote|
  {
    if remote != [] {
      var front := remote[..|remote| - 1];
      var r := remote[|remote| - 1];
      MergeAuthorsIds(authors, front);
      var m := MergeAuthors(authors, front);
      HasIdInIds(m, r.id);
      RemoteIdsSnoc(remote);
      if !HasId(m, r.id) {
        var m' := m + [Author(r.slug, r.name, r.id)];
        assert Ids(m') == Ids(m) + {r.id} by {
          forall x | x in Ids(m') ensures x in Ids(m) + {r.id} {
            var j :| 0 <= j < |m'| && m'[j].wordpressId == x;
            if j < |m| { assert m'[j] == m[j]; }
          }
          assert m'[|m|].wordpressId == r.id;
          forall x | x in Ids(m) ensures x in Ids(m') {
            var j :| 0 <= j < |m| && m[j].wordpressId == x;
            assert m'[j] == m[j];
          }
        }
      }
    }
  }

  lemma RemoteIdsSnoc(remote: seq<RemoteAuthor>)
    requires remote != []
    ensures RemoteIds(remote) == RemoteIds(remote[..|remote| - 1]) + {remote[|remote| - 1].id}
  {
    var front := remote[..|remote| - 1];
    forall x | x in RemoteIds(remote) ensures x in RemoteIds(front) + {remote[|remote| - 1].id} {
      var j :| 0 <= j < |remote| && remote[j].id == x;
      if j < |front| { assert front[j] == remote[j]; }
    }
    forall x | x in RemoteIds(front) ensures x in RemoteIds(remote) {
      var j :| 0 <= j < |front| && front[j].id == x;
      assert remote[j] == front[j];
    }
  }

  /** If the loaded catalog has no duplicate wordpressId, neither has the
      result, even when one id comes twice in the same run. */
  lemma {:induction false} MergeAuthorsUnique(authors: seq<Author>, remote: seq<RemoteAuthor>)
    requires UniqueIds(authors)
    ensures UniqueIds(MergeAuthors(authors, remote))
    decreases |remote|
  {
    if remote != [] {
      var front := remote[..|remote| - 1];
      var r := remote[|remote| - 1];
      MergeAuthorsUnique(authors, front);
      var m := MergeAuthors(authors, front);
      if !HasId(m, r.id) {
        var m' := m + [Author(r.slug, r.name, r.id)];
        forall i, j | 0 <= i < j < |m'| ensures m'[i].wordpressId != m'[j].wordpressId {
          if j == |m| {
            assert m'[i] == m[i];
          } else {
            assert m'[i] == m[i] && m'[j] == m[j];
          }
        }
      }
    }
  }

  /** The final length is the initial length plus the number of distinct
      remote ids the catalog did not hold. */
  lemma {:induction false} MergeAuthorsLength(authors: seq<Author>, remote: seq<RemoteAuthor>)
    ensures |MergeAuthors(authors, remote)| == |authors| + |RemoteIds(remote) - Ids(authors)|
    decreases |remote|
  {
    if remote == [] {
      assert RemoteIds(remote) == {};
    } else {
      var front := remote[..|remote| - 1];
      var r := remote[|remote| - 1];
      MergeAuthorsLength(authors, front);
      MergeAuthorsIds(authors, front);
      RemoteIdsSnoc(remote);
      var m := MergeAuthors(authors, front);
      HasIdInIds(m, r.id);
      var before := RemoteIds(front) - Ids(authors);
      var after := RemoteIds(remote) - Ids(authors);
      if HasId(m, r.id) {
        assert MergeAuthors(authors, remote) == m;
        assert after == before;
      } else {
        assert MergeAuthors(authors, remote) == m + [Author(r.slug, r.name, r.id)];
        assert r.id !in before;
        assert after == before + {r.id};
      }
    }
  }

  /** A catalog that already holds every remote id is left as it is. */
  lemma {:induction false} MergeAuthorsKnown(authors: seq<Author>, remote: seq<RemoteAuthor>)
    requires RemoteIds(remote) <= Ids(authors)
    ensures MergeAuthors(authors, remote) == authors
    decreases |remote|
  {
    if remote != [] {
      var front := remote[..|remote| - 1];
      var r := remote[|remote| - 1];
      assert RemoteIds(front) <= RemoteIds(remote) by {
        forall x | x in RemoteIds(front) ensures x in RemoteIds(remote) {
          var j :| 0 <= j < |front| && front[j].id == x;
          assert remote[j] == front[j];
        }
      }
      MergeAuthorsKnown(authors, front);
      assert r.id in RemoteIds(remote);
      HasIdInIds(authors, r.id);
    }
  }

  /** Running the merge a second time against an unchanged remote leaves the
      catalog identical. */
  lemma MergeAuthorsIdempotent(authors: seq<Author>, remote: seq<RemoteAuthor>)
    ensures MergeAuthors(MergeAuthors(authors, remote), remote) == MergeAuthors(authors, remote)
  {
    MergeAuthorsIds(authors, remote);
    MergeAuthorsKnown(MergeAuthors(authors, remote), remote);
  }

  /** The `for (const author of authors)` loop over one fetched page: each
      record checked against the growing list and appended when new. */
  method MergePage(authors: seq<Author>, records: seq<RemoteAuthor>) returns (result: seq<Author>)
    ensures result == MergeAuthors(authors, records)
  {
    result := authors;
    var k := 0;
    while k < |records|
      invariant 0 <= k <= |records|
      invariant result == MergeAuthors(authors, records[..k])
    {
      var r := records[k];
      assert records[..k + 1] == records[..k] + [r];
      MergeAuthorsStep(authors, records[..k], r);
      var existing := IndexOfId(result, r.id);
      if existing > -1 {
        k := k + 1;
        continue;
      }
      result := result + [Author(r.slug, r.name, r.id)];
      k := k + 1;
    }
    assert records[..|records|] == records;
  }

  /** fetchAuthors. `stored` is authors.json when it exists; on success the
      result is both what is written back and what is returned. A failing
      request aborts the run before the write. */
  method FetchAuthors(stored: Option<seq<Author>>, users: Collection<RemoteAuthor>)
    returns (result: Fetched<seq<Author>>, requested: seq<Request>)
    ensures users.totalPages.FetchFailed? ==> result.FetchFailed? && requested == [Request(None, None)]
    ensures users.totalPages.Got? ==>
      var n := ParsedPageCount(users.totalPages.value);
      requested == [Request(None, None)] + PageRequests(PagesTried(users, n), Some(100)) &&
      (result.Got? <==> Gathered(users, n).Got?) &&
      (result.Got? ==> result.value == MergeAuthors(Loaded(stored), Gathered(users, n).value))
  {
    requested := [Request(None, None)];
    if users.totalPages.FetchFailed? {
      return FetchFailed, requested;
    }
    var totalPages := ParsedPageCount(users.totalPages.value);
    var pageRequests;
    result, pageRequests := ImportPages(Loaded(stored), users, totalPages);
    requested := requested + pageRequests;
  }

  /** The `for (let page = 1; page <= totalPages; page++)` loop: each page
      fetched with `per_page=100` and merged in turn; a failing page ends the
      walk. */
  method ImportPages(authors: seq<Author>, users: Collection<RemoteAuthor>, totalPages: nat)
    returns (result: Fetched<seq<Author>>, requested: seq<Request>)
    ensures requested == PageRequests(PagesTried(users, totalPages), Some(100))
    ensures result.Got? <==> Gathered(users, totalPages).Got?
    ensures result.Got? ==> result.value == MergeAuthors(authors, Gathered(users, totalPages).value)
  {
    var merged := authors;
    requested := [];
    ghost var seen: seq<RemoteAuthor> := [];
    var page := 1;
    while page <= totalPages
      invariant 1 <= page <= totalPages + 1
      invariant Gathered(users, page - 1) == Got(seen)
      invariant merged == MergeAuthors(authors, seen)
      invariant requested == PageRequests(page - 1, Some(100))
    {
      PageRequestsNext(page - 1, Some(100));
      requested := requested + [Request(Some(page), Some(100))];
      var reply := users.page(page);
      if reply.FetchFailed? {
        PagesFailFrom(users, page, totalPages);
        return FetchFailed, requested;
      }
      var records := reply.value;
      MergeAuthorsConcat(authors, seen, records);
      merged := MergePage(merged, records);
      seen := seen + records;
      page := page + 1;
    }
    assert Gathered(users, totalPages) == Got(seen);
    return Got(merged), requested;
  }
}
