# export-wordpress-to-markdown, modelled in Dafny

This project models the core of a script that exports a WordPress site through its REST API into files:
- `authors.json` and `categories.json` catalogs, merged with what a previous run left;
- one folder per post, holding the downloaded title and body images and an `index.md`;
- each `index.md` is a hand-written YAML frontmatter block followed by the post body converted to Markdown.

The model is written in Dafny, and the verifier proves the stated properties for all inputs.

Modules, leaves first:

- `Js` (js.dfy) holds the JavaScript string semantics the script relies on:
  - strings are sequences of UTF-16 code units;
  - it models `parseInt`, `Number`, `split("?")[0]` and `join("\n")`; `Js.Split` is not a call of the script but the model's own line reader, with which the frontmatter lemmas read the written text back;
  - it models the page loop `for (let page = 1; page <= bound; page++)`.
- `Utils` (utils.mjs):
  - `convertEscapedAscii` and `stripHtml`;
  - `validateApiResponse`;
  - the retry loop of `fetchWithRetry` with its acceptance rule and its delays, recorded as a list;
  - `downloadImage` over a set of existing files.
- `Listing` holds what the three paginated listings share:
  - the page requests;
  - the pages gathered until the first failure;
  - the `parseInt` page count;
  - the catalog loaded from an optional file.
- `Authors` (authors.mjs): `fetchAuthors`.
  - The merge by `wordpressId` is a fold over the remote records.
  - The method's page and record loops are proved equal to that fold.
- `Categories` has the same shape for `fetchCategories` in index.mjs, which merges by slug.
- `Html` covers the attribute clean-up of `cleanUpHtml`, over an abstract list of elements.
- `Frontmatter` models the hand-written YAML serialiser of `importData`. It proves how the text splits back into lines, and that the model's own reader `Frontmatter.ReadScalar` gets each value back.
- `Posts` covers the per-post rules of index.mjs:
  - author and category resolution;
  - the status mapping and the `postsLimit` slice;
  - image file names;
  - `downloadPostImage` and the image loop of `downloadAndUpdateImages`;
  - the frontmatter object.
- `Exporter` covers `fetchTag`, `importData`, `fetchPosts` and the main sequence.
  - It has pure specification functions (`PostExport`, `PostsExport`, `PagesExport`).
  - It has a class `Exporter` whose fields are the state the script changes: the two catalog files, the files on disk, `imagesNotDownloaded` and the written `index.md` texts.
  - Each of the class's methods is proved to leave exactly the state its specification function gives.

The network, the disk and the two HTML libraries (cheerio, Turndown) are parameters:
- `Collection` gives the `x-wp-totalpages` header and the parsed body of each page. `FetchFailed` stands for a failed request.
- `nat -> Reply` gives what the i-th `fetch` of a URL answers.
- `ImageHost` gives the replies of the image server and the outcome of writing the stream.
- `Site.bodyImages` and `Site.markdown` stand for cheerio's list of `img` sources and for Turndown's output.
- The disk is a set of `Path(folder, name)`.

Facts of the code that the model keeps, although the comments or names in the code suggest otherwise:
- Only `fetchAuthors` (and `downloadImage`) go through `fetchWithRetry`. Categories, posts, media and tags use a single plain `fetch`.
- The delays are linear, `1000 * (i + 1)` ms (utils.mjs:40), although the comment above calls them exponential. There is no wait after the last attempt (utils.mjs:38).
- With `retries <= 0` no fetch happens and the function returns `undefined` instead of failing (`Utils.RetryOutcomeFacts`).
- The category page requests carry no `per_page`.
- The category loop compares `page <= header` with the raw header text, whereas authors and posts use `parseInt` (`Categories.PageCountsDisagree`).
- `postsLimit` cuts each page, not the total. A negative limit drops posts from the end of the page, as `slice` does.
- Every string value in the frontmatter is quoted, so `status` is written `status: "published"`, not `status: published`.

## Model

| member | source | states |
|---|---|---|
| Js.ParseIntNumberText | index.mjs:312 | `parseInt` reads back the decimal text of every integer |
| Js.SplitJoin | index.mjs:292-302 | splitting newline-joined lines that hold no newline gives the lines back |
| Js.CountPasses | index.mjs:83-85 | the loop `for (let page = 1; page <= bound; page++)`, with JavaScript's comparison that is false against NaN, makes `PageCount(bound)` passes: none for NaN or a bound below 1, otherwise the bound |
| Js.AtMostPageCount | index.mjs:83 | from page 1 on, `page <= bound` holds exactly for the pages up to `PageCount(bound)`, so the page loops up to that count take the passes the script's loops take |
| Utils.ConvertLength | utils.mjs:79-81 | decoding never lengthens the text, and shortens it exactly when some `&#digits;` reference is present |
| Utils.ConvertIdentity | utils.mjs:79-81 | text with no decimal reference (hex forms included) is unchanged |
| Utils.ConvertEscapeRoundTrip | utils.mjs:79-81 | decoding the text in which every unit is written as its decimal reference gives the text back |
| Utils.EntityHead | utils.mjs:79-81 | a leading `&#digits;` becomes the one unit `String.fromCharCode` gives for the digits' value, taken modulo 65536, and decoding carries on after the `;` |
| Utils.ConvertIsSinglePass | utils.mjs:79-81 | one pass only: `&#38;` becomes `&` and decoding resumes after it, so `&#38;#65;` gives `&#65;`, not `A` |
| Utils.ConvertExample | utils.mjs:74 | `&#65;&#66;` decodes to `AB` |
| Utils.StripHtmlFrom | utils.mjs:90-92 | every unit of the result comes from the input |
| Utils.StripHtmlLeavesNoTag | utils.mjs:90-92 | the result never holds a `<` followed later by a `>` |
| Utils.StripHtmlIdentity | utils.mjs:90-92 | a string is unchanged exactly when it holds no `<` followed later by a `>` |
| Utils.StripHtmlIdempotent | utils.mjs:90-92 | stripping twice is stripping once |
| Utils.StripHtmlWithoutLt | utils.mjs:90-92 | a string with no `<` is unchanged |
| Utils.StripHtmlParagraph | utils.mjs:85 | `<p>text</p>` becomes `text` |
| Utils.StripTag | utils.mjs:91 | a `<...>` run at the head is deleted with no trace |
| Utils.StripThrough | utils.mjs:91 | text before the first `<` is kept as it is |
| Utils.ValidateApiResponse | utils.mjs:101-111 | a falsy or non-object response is an invalid format; otherwise the first missing expected key, in order, is reported; it is valid exactly when every key is present |
| Utils.ClassifyRules | utils.mjs:19-35 | a non-ok status fails; an ok reply to an image URL is accepted; a null content type on any other URL fails; an accepted reply is ok with an image URL, an `image/` type or an `application/json` type |
| Utils.FirstAcceptedFacts | utils.mjs:17-35 | the index of the first accepted attempt, with every earlier one failed, or none when all fail |
| Utils.Backoff | utils.mjs:38-40 | one wait fewer than the attempts made, the i-th being `1000 * (i + 1)` ms |
| Utils.BackoffNext | utils.mjs:38-40 | one more failed attempt adds one wait, `1000` ms longer than the one before |
| Utils.RetryOutcomeFacts | utils.mjs:16-43 | `undefined` is returned exactly when `retries <= 0`; at most `retries` attempts, stopping at the first accepted one, whose response is returned; it throws exactly when every attempt fails, and then the last attempt's error; the delays strictly increase |
| Utils.FetchWithRetry | utils.mjs:16-43 | the loop ends with the outcome `RetryOutcomeOf` gives, after the attempts `AttemptsMade` counts, having waited the delays `Backoff` lists |
| Utils.DownloadImage | utils.mjs:55-70 | an existing destination gives true with no fetch; otherwise true exactly when the fetch and the write succeed; the file appears whenever the exclusive open succeeded |
| Listing.PageRequests | authors.mjs:42-44 | pages 1..n are requested once each, in order, with the given `per_page` |
| Listing.PageRequestsNext | authors.mjs:42-44 | one more pass of the loop appends one more request |
| Listing.PagesTried | authors.mjs:42-45 | the walk requests at most n pages, and all n when every page arrives |
| Listing.ParsedPageCountOf | authors.mjs:38 | a missing or non-numeric header gives no pages; a header of decimal digits gives its value |
| Listing.PagesFailFrom | authors.mjs:44 | once page p fails, the walk fails and has requested exactly p pages |
| Authors.IndexOfId | authors.mjs:50-52 | `findIndex`: the first author with the id, or -1 exactly when there is none |
| Authors.AddAuthor | authors.mjs:48-66 | a remote author whose id is known leaves the catalog unchanged; a new one is appended as `{id: slug, name, wordpressId}` |
| Authors.MergeAuthorsStep | authors.mjs:48 | the merge over one more record is that record merged into the merge so far |
| Authors.MergeAuthorsConcat | authors.mjs:42-68 | merging page after page is merging their concatenation |
| Authors.MergeAuthorsAppendOnly | authors.mjs:30-66 | the old catalog is a prefix of the new one, so its entries are never removed, reordered or changed; every added entry is built from a remote record |
| Authors.MergeAuthorsIds | authors.mjs:48-67 | the ids of the result are the old ids plus the remote ids |
| Authors.MergeAuthorsUnique | authors.mjs:50-52 | a catalog without duplicate ids stays without them, even when one id comes twice in a run |
| Authors.MergeAuthorsLength | authors.mjs:30-67 | the final length is the initial length plus the number of distinct new ids |
| Authors.MergeAuthorsKnown | authors.mjs:55-58 | remote records whose ids are all known change nothing |
| Authors.MergeAuthorsIdempotent | authors.mjs:48-67 | a second merge of the same records leaves the catalog identical |
| Authors.MergePage | authors.mjs:48-67 | the record loop over one page leaves the merge `MergeAuthors` gives |
| Authors.ImportPages | authors.mjs:41-68 | pages 1..N requested in order with `per_page=100` until the first failure; the catalog is merged with every record of the gathered pages, and the walk succeeds exactly when every page arrives |
| Authors.FetchAuthors | authors.mjs:16-74 | the initial request, then pages 1..N in order with `per_page=100`; the result, which is both written and returned, is the merge of the loaded catalog with every record of every page; a failed page stops the walk there with nothing written |
| Categories.IndexOfSlug | index.mjs:64-66 | `findIndex`: the first entry with the slug, or -1 exactly when there is none |
| Categories.AddCategory | index.mjs:57-79 | a zero-count record changes nothing; a known slug sets only the `wordpressId` of its first entry and leaves the length and every other entry alone; an unseen slug appends `{id: slug, name, description, wordpressId: id}` |
| Categories.MergeCategoriesStep | index.mjs:57 | the merge over one more record is that record merged into the merge so far |
| Categories.MergeCategoriesConcat | index.mjs:83-85 | merging page after page is merging their concatenation |
| Categories.MergeIgnoresEmpty | index.mjs:58-60 | zero-count records neither append nor update: the merge is the same without them |
| Categories.MergeCategoriesKeepsEntries | index.mjs:43-79 | the catalog never shrinks, so stored zero-count categories are not pruned; old entries keep their position, slug, name and description; every new entry comes from a non-zero-count record |
| Categories.MergeCategoriesUnique | index.mjs:64-72 | a catalog without duplicate slugs stays without them |
| Categories.MergeRecordsLastId | index.mjs:64-72 | a slug carried by a non-empty record ends up in the catalog, and its first entry holds the id of the last such record |
| Categories.MergeKnownSlugs | index.mjs:64-72 | over a catalog that already holds every slug, the merge keeps the length and only refreshes `wordpressId`s |
| Categories.MergeCategoriesIdempotent | index.mjs:57-79 | a second merge of the same records leaves the catalog identical |
| Categories.CategoryPageCountOf | index.mjs:51-83 | a missing (null) or empty header gives no pages; a header of decimal digits gives its value |
| Categories.PageCountsDisagree | index.mjs:83 | a header with trailing text walks its pages under `parseInt` but none under the categories comparison |
| Categories.ImportData | index.mjs:53-81 | the record loop over one page leaves the merge `MergeCategories` gives |
| Categories.ImportPages | index.mjs:83-85 | pages 1..N requested in order without `per_page` until the first failure; the catalog is merged with every record of the gathered pages, and the walk succeeds exactly when every page arrives |
| Categories.FetchCategories | index.mjs:40-88 | the initial request, then pages 1..N in order without `per_page`; the written catalog is the merge of the loaded one with every record of every page; a failed page stops the walk there and nothing is written |
| Html.WithoutMembers | index.mjs:157-170 | the kept attributes are exactly those whose names are not removed |
| Html.WithoutAppend | index.mjs:157-170 | removal keeps the order of the remaining attributes |
| Html.CleanUpRules | index.mjs:157-170 | no element is added or removed and tags are kept; each element keeps exactly its attributes not listed for its tag; an `img` has no `class`, `width`, `height`, `data-recalc-dims`, `sizes` or `srcset` left |
| Html.CleanUpOthers | index.mjs:157-170 | elements other than `img`, `figure` and `figcaption` are untouched |
| Html.CleanUpIdempotent | index.mjs:157-170 | cleaning a cleaned body changes nothing |
| Frontmatter.AllLinesAppend | index.mjs:292-297 | the lines of two runs of entries are the lines of the first run followed by those of the second |
| Frontmatter.SerializeLines | index.mjs:292-302 | split at newlines, the block is the `---` fence, the lines of the entries in order, the closing fence and an empty line |
| Frontmatter.ReadScalarYaml | index.mjs:298 | the model's reader `ReadScalar` reads a written value back as itself: quoted strings, raw `null`, `undefined` and numbers |
| Frontmatter.ReadEntryRoundTrip | index.mjs:298 | a `key: value` line reads back as its key and value |
| Frontmatter.TagLinesShape | index.mjs:286-296 | no tag lines without `showTags`; otherwise `tags:` and one `  - name` line per tag |
| Frontmatter.EntriesLines | index.mjs:272-289 | the lines are the eleven fixed entries in their order, then the tag lines |
| Frontmatter.ReadBack | index.mjs:272-302 | the text of a frontmatter whose values hold no newline splits into the fence, one line per fixed key in the order id … wordpressId, the tag lines exactly when `showTags` is set, and the closing fence and an empty line |
| Frontmatter.ReadFixedLines | index.mjs:272-298 | the k-th fixed line reads back as the k-th key with its value |
| Frontmatter.TextOneLine | index.mjs:298 | a value without newlines is written on one line |
| Posts.FindAuthor | index.mjs:216-218 | `find`: none exactly when no author has the id, otherwise the first that does |
| Posts.BylineFallback | index.mjs:216-277 | an unmatched author becomes "Unknown Author" with an undefined `authorSlug`, and only then; otherwise both come from the first matching author |
| Posts.PostCategoriesMembers | index.mjs:233-235 | exactly the catalog entries whose `wordpressId` the post lists are kept |
| Posts.PostCategoriesOfSameIds | index.mjs:233-235 | the matches depend only on which ids the post lists, not on their order |
| Posts.FirstCategoryEarliest | index.mjs:233-280 | the category is the earliest match in catalog order, and there is none exactly when nothing matches |
| Posts.StatusOf | index.mjs:275 | "published" exactly when the status is "publish", "draft" otherwise |
| Posts.Limit | index.mjs:209 | a prefix of the page: whole for 0, at most `postsLimit` posts for a positive limit, the page less that many posts from its end for a negative one |
| Posts.ImageFileName | index.mjs:130 | the name holds no `/` and no `?` |
| Posts.ImageFileNameOfSegment | index.mjs:130 | the name is the last path segment cut at its first `?` |
| Posts.ImageFileNameOfUrl | index.mjs:130 | a URL `dir/name?query` gives `name` |
| Posts.ImageFileNameTrailingSlash | index.mjs:130 | a trailing slash does not change the name |
| Posts.PostImage | index.mjs:125-145 | an absent `src` or folder gives undefined and changes nothing; files are only added; a name returned is the derived file name and that file exists; the `src` is added to the failed list exactly when the download fails |
| Posts.PostImageExisting | index.mjs:133-136 | an existing file returns its name with no download and no change |
| Posts.PostImageDownload | index.mjs:138-144 | otherwise success returns the name and leaves the list alone, failure appends the `src` |
| Posts.PostImageSettled | index.mjs:130-136 | once an image was stored, asking again returns the same name and changes nothing |
| Posts.PostImages | index.mjs:186-194 | one new `src` per image; files are only added |
| Posts.PostImagesNames | index.mjs:186-194 | each new `src` is the old one's file name, or undefined |
| Posts.PostImagesFailed | index.mjs:140-193 | the failed list grows by exactly the sources that came back undefined, in order |
| Posts.FrontmatterRules | index.mjs:212-284 | status "published" exactly for "publish"; `categorySlug` null exactly when nothing matches, otherwise the earliest catalog match; `authorSlug` undefined exactly when no author matches, then "Unknown Author"; the title decoded |
| Exporter.TagNamesGot | index.mjs:245-337 | the tag names arrive exactly when every tag fetch does, and are the names of the post's tags in order |
| Exporter.PostFolder | index.mjs:227 | a post's folder is never empty and lies under `data/posts`, so the `!pathToPostFolder` guard of downloadPostImage never fires for a post |
| Exporter.PostFolderInjective | index.mjs:227 | distinct slugs give distinct folders |
| Exporter.PostExportEffects | index.mjs:227-306 | files and the failed list only grow; a post that gets through writes its own `index.md`, a post that does not writes nothing; other folders' texts are untouched; a failed media fetch changes nothing |
| Exporter.PostExportDocument | index.mjs:237-306 | the written text is the serialised frontmatter of the resolved post followed by its Markdown; a failed tag fetch keeps only the title image |
| Exporter.TagNamesFailFrom | index.mjs:245-248 | once one tag fetch fails, the whole tag list fails |
| Exporter.WalkStops | index.mjs:316-319 | once a page fails, the later pages change nothing |
| Exporter.PostsExportIndexed | index.mjs:227-306 | exporting posts keeps every written `index.md` text on the disk, in its post's folder |
| Exporter.PagesExportIndexed | index.mjs:316-319 | so does the walk of fetchPosts, whatever page or post fails |
| Exporter.PostsExportNext | index.mjs:212-213 | exporting one more post of a run exports it after the ones before, unless one of those failed |
| Exporter.PostsExportStop | index.mjs:212-307 | once a post fails, the posts after it change nothing |
| Exporter.PostsExportConcat | index.mjs:212-307 | exporting two runs of posts one after the other is exporting their concatenation; nothing after a failed post is exported |
| Exporter.PagesExport | index.mjs:316-319 | a walk that gets through has requested all n pages |
| Exporter.PagesExportAll | index.mjs:209-319 | a completed walk exports the limited pages' posts in page order, and `totalExportedPosts` is exactly their number |
| Exporter.Exporter.DownloadPostImage | index.mjs:125-145 | leaves the disk, the failed list and the result `PostImage` gives |
| Exporter.Exporter.DownloadAndUpdateImages | index.mjs:186-197 | leaves the state and the new sources `PostImages` gives |
| Exporter.Exporter.FetchTags | index.mjs:245-248 | the tag names `TagNames` gives, fetched one after another |
| Exporter.Exporter.ExportPost | index.mjs:212-306 | leaves the state `PostExport` gives |
| Exporter.Exporter.ExportNext | index.mjs:212-307 | one turn of the post loop leaves the state `PostsExport` gives for one more post |
| Exporter.Exporter.ExportPosts | index.mjs:212-307 | the post loop leaves the state `PostsExport` gives and reports whether every post got through |
| Exporter.Exporter.ImportPage | index.mjs:202-213 | counts the limited page and leaves the state `PostsExport` gives for it |
| Exporter.Exporter.FetchAndImportPage | index.mjs:203-319 | one turn of the page loop leaves the state, the outcome and the count `PagesExport` gives for one more page |
| Exporter.Exporter.ImportPages | index.mjs:315-319 | the page loop requests pages 1..N in order with `per_page=100` and leaves the state, the outcome and the count `PagesExport` gives |
| Exporter.Exporter.FetchPosts | index.mjs:98-326 | a missing authors or categories file fails with nothing done; otherwise one initial request, then the pages `PagesExport` walks, with its state and count |
| Exporter.Exporter.Run | index.mjs:340-355 | authors, then categories, then posts, each stopping the run on failure; the posts are exported against the catalogs the first two steps wrote |

## Left out

- Real I/O is parameters: the HTTP requests, the disk and its mkdir calls, and timers. Waits are recorded as numbers. Logging and the final report of failed images are not modelled.
- Directories are not modelled: the post folder that `mkdir` creates before the image downloads is taken to exist, and an image name that resolves to the folder itself (`""` and `.` name the folder itself, `..` its parent) counts as an existing file, so its name is returned with no download.
- A post's folder is `data/posts/<slug>`, or `data/posts` for an empty slug (`Exporter.PostFolder`), relative to the working directory. `path.resolve` normalisation of a slug holding `/`, `.` or `..` is not modelled, so two such slugs naming one folder are kept apart.
- String values are written between double quotes with no escaping, as index.mjs:298 does. A value holding `"` or `\` therefore gives a line that a YAML parser rejects or reads differently. The round trip proved is for the model's reader `Frontmatter.ReadScalar`, which only strips the outer quotes; it is not a YAML parser.
- `Authors.FetchAuthors`: each request of fetchAuthors is a `fetchWithRetry` call (authors.mjs:37,44). The model takes that call's result, after its up to three attempts, its content-type rule and its waits, as the single outcome the `Collection` gives for the page. `requested` lists one entry per `fetchWithRetry` call, not per attempt. The retry loop itself is modelled and proved on its own (`Utils.FetchWithRetry`).
- The `Number` case of `Utils.ApiValue` holds an integer. NaN, fractions and `-0`, which are also falsy or numbers in JavaScript, are not represented.
- `JSON.parse` and `JSON.stringify` of the catalogs are not modelled: catalogs are sequences of records, and a malformed file is outside the model.
- cheerio parsing and serialisation, and the Turndown conversion, are foreign libraries. They are parameters (`Site.bodyImages`, `Site.markdown`).
- The attribute clean-up works on an abstract element list; the replacement of `.wp-polls` contents and the removal of `.wp-polls-loading` are not modelled.
- What `$(image).attr("src", undefined)` does to the HTML of a failed image is cheerio's behaviour. The model passes the new `src` values, undefined marked as None, to `Site.markdown` unchanged.
- `Js.StringToNumber` covers trimmed, optionally signed decimal integer text and the empty string only; every other text reads as NaN. `Number` itself also reads hexadecimal (`0x3`), fraction (`2.5`), exponent (`1e3`) forms and `Infinity`. This matters only for the categories header (`Categories.CategoryPageCount`, index.mjs:83): in the source such a header walks 3, 2 and 1000 pages, and `Infinity` gives the category loop no bound, so it requests pages until one fails; the model walks no page for any of them.
- `Js.ParseInt` reads the leading decimal digits as `parseInt(s, 10)` does, so `2.5`, `0x10` and `1e3` give 2, 0 and 1 and `Infinity` gives NaN. Number precision beyond 2^53 is not modelled.
- Entity decoding takes the digits' exact value modulo 65536. For huge digit runs JavaScript's `Number(dec)` loses precision first; this is not modelled.
- `Utils.FetchWithRetry` takes an integer `retries`; a non-integer `retries` (for example 2.5) is not modelled.
- The image host gives the same replies for a URL every time it is downloaded within a run.
- `Js.Lit` writes a literal character outside the Basic Multilingual Plane as U+FFFD rather than as a surrogate pair; every literal of the program is ASCII.
- cleanup.mjs (signal handlers, `process.exit`) is process lifecycle. config.mjs is constants, which are the parameters `Config.postsLimit`, `Config.showTags` and the `retries` argument.
- A thrown error is modelled by its outcome (`FetchFailed`, `RunFailed`, `PostsFailed`); error messages are not modelled.
