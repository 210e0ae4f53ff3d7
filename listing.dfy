/** A paginated WordPress REST collection as the export scripts walk it:
    one request to learn the `x-wp-totalpages` header, then pages
    1, 2, ... each fetched once. */
module Listing {
  import opened Js

  /** One GET of a collection endpoint, known by the `page` and `per_page`
      query parameters it carries (None: not in the URL). */
  datatype Request = Request(page: Option<int>, perPage: Option<int>)

  /** A remote collection: the outcome of the first request, holding the
      `x-wp-totalpages` header (None when `headers.get` gives null), and the
      parsed body of every page. */
  datatype Collection<T> = Collection(totalPages: Fetched<Option<JsString>>, page: nat -> Fetched<seq<T>>)

  /** The page requests of pages 1..n, in order. */
  function PageRequests(n: nat, perPage: Option<int>): (r: seq<Request>)
    ensures |r| == n && forall i :: 0 <= i < n ==> r[i] == Request(Some(i + 1), perPage)
  {
    seq(n, i => Request(Some(i + 1), perPage))
  }

  lemma PageRequestsNext(n: nat, perPage: Option<int>)
    ensures PageRequests(n + 1, perPage) == PageRequests(n, perPage) + [Request(Some(n + 1), perPage)]
  {
  }

  /** The records of pages 1..n in page order, or FetchFailed when one of
      those pages fails. */
  function Gathered<T>(c: Collection<T>, n: nat): Fetched<seq<T>>
  {
    if n == 0 then Got([])
    else match Gathered(c, n - 1)
      case FetchFailed => FetchFailed
      case Got(records) =>
        match c.page(n)
        case FetchFailed => FetchFailed
        case Got(p) => Got(records + p)
  }

  /** How many of pages 1..n a walk that stops at the first failing page
      requests. */
  function PagesTried<T>(c: Collection<T>, n: nat): (k: nat)
    ensures k <= n
    ensures Gathered(c, n).Got? ==> k == n
  {
    if n == 0 then 0
    else if Gathered(c, n - 1).FetchFailed? then PagesTried(c, n - 1)
    else n
  }

  /** The page count of `parseInt(headers.get("x-wp-totalpages"), 10)`; a
      missing header reads as the text "null", which is NaN. */
  function ParsedPageCount(header: Option<JsString>): nat {
    if header.None? then 0 else PageCount(ParseInt(header.value))
  }

  /** A missing or non-numeric header gives no pages; a header of decimal
      digits gives its value. */
  lemma ParsedPageCountOf(header: Option<JsString>, n: nat)
    ensures header.None? ==> ParsedPageCount(header) == 0
    ensures header.Some? && ParseInt(header.value).None? ==> ParsedPageCount(header) == 0
    ensures header == Some(Decimal(n)) ==> ParsedPageCount(header) == n
  {
    ParseIntNumberText(n);
  }

  /** The catalog file a run starts from: its stored entries, or an empty
      catalog when the file does not exist. */
  function Loaded<T>(stored: Option<seq<T>>): seq<T> {
    if stored.Some? then stored.value else []
  }

  /** Once page `p` fails, every longer walk fails and stops at `p`. */
  lemma {:induction false} PagesFailFrom<T>(c: Collection<T>, p: nat, n: nat)
    requires 1 <= p <= n && Gathered(c, p - 1).Got? && c.page(p).FetchFailed?
    ensures Gathered(c, n).FetchFailed? && PagesTried(c, n) == p
    decreases n
  {
    if n > p {
      PagesFailFrom(c, p, n - 1);
    }
  }
}
