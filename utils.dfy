/** utils.mjs: the retrying fetch with its acceptance rule, the image
    download, entity decoding, tag stripping and response validation. */
module Utils {
  import opened Js

  // ---------------------------------------------------------------------
  // convertEscapedAscii: `string.replace(/&#(\d+);/g, (_, dec) => String.fromCharCode(dec))`

  /** A decimal character reference `&#<digits>;` starts at the head of `s`. */
  predicate EntityAt(s: JsString) {
    |s| >= 2 && s[0] == AMP && s[1] == HASH &&
    var n := DigitRun(s[2..]); n > 0 && 2 + n < |s| && s[2 + n] == SEMI
  }

  /** The code unit `String.fromCharCode(dec)` yields: the value modulo 2^16. */
  function EntityUnit(s: JsString): CodeUnit
    requires EntityAt(s)
  {
    var n := DigitRun(s[2..]);
    (DecimalValue(s[2..2 + n]) % 0x1_0000) as CodeUnit
  }

  /** The global replace scans left to right: where a reference starts it is
      replaced by one unit and the scan resumes after its `;`, elsewhere the
      unit is copied. */
  function ConvertEscapedAscii(s: JsString): JsString
    decreases |s|
  {
    if s == [] then []
    else if EntityAt(s) then [EntityUnit(s)] + ConvertEscapedAscii(s[3 + DigitRun(s[2..])..])
    else [s[0]] + ConvertEscapedAscii(s[1..])
  }

  /** A reference starts somewhere in `s`. */
  predicate HasEntity(s: JsString) {
    exists i :: 0 <= i < |s| && EntityAt(s[i..])
  }

  /** Decoding never lengthens the text, and shortens it exactly when some
      reference is present. */
  lemma {:induction false} ConvertLength(s: JsString)
    ensures |ConvertEscapedAscii(s)| <= |s|
    ensures |ConvertEscapedAscii(s)| < |s| <==> HasEntity(s)
    decreases |s|
  {
    if s == [] {
    } else if EntityAt(s) {
      var n := DigitRun(s[2..]);
      ConvertLength(s[3 + n..]);
      assert EntityAt(s[0..]);
    } else {
      ConvertLength(s[1..]);
      if HasEntity(s) {
        var i :| 0 <= i < |s| && EntityAt(s[i..]);
        assert i > 0 by { assert s[0..] == s; }
        assert s[1..][i - 1..] == s[i..];
      }
      if HasEntity(s[1..]) {
        var i :| 0 <= i < |s[1..]| && EntityAt(s[1..][i..]);
        assert s[1..][i..] == s[i + 1..];
      }
    }
  }

  /** Text without any reference comes back unchanged (`&#x41;`, a bare `&`,
      `&#;` and `&#12` without its `;` included). */
  lemma {:induction false} ConvertIdentity(s: JsString)
    requires !HasEntity(s)
    ensures ConvertEscapedAscii(s) == s
    decreases |s|
  {
    if s != [] {
      assert s[0..] == s;
      assert !HasEntity(s[1..]) by {
        forall i | 0 <= i < |s[1..]| ensures !EntityAt(s[1..][i..]) {
          assert s[1..][i..] == s[i + 1..];
        }
      }
      ConvertIdentity(s[1..]);
    }
  }

  /** The reference `&#<digits>;`. */
  function Ref(digits: JsString): JsString {
    [AMP, HASH] + digits + [SEMI]
  }

  /** Every unit written out as `&#<decimal>;`. */
  function EscapeAll(t: JsString): JsString {
    if t == [] then [] else Ref(Decimal(t[0] as nat)) + EscapeAll(t[1..])
  }

  lemma DigitRunOfDigits(d: JsString, rest: JsString)
    requires forall k :: 0 <= k < |d| ==> IsDigit(d[k])
    requires rest != [] && !IsDigit(rest[0])
    ensures DigitRun(d + rest) == |d|
  {
    var s := d + rest;
    assert s[|d|] == rest[0];
    assert forall k :: 0 <= k < |d| ==> s[k] == d[k];
  }

  lemma DecimalOfTwo(a: CodeUnit, b: CodeUnit)
    requires IsDigit(a) && IsDigit(b)
    ensures DecimalValue([a, b]) == 10 * (a as int - 48) + (b as int - 48)
  {
    assert [a, b][..1] == [a];
    assert [a][..0] == [];
    assert DecimalValue([a]) == a as int - 48;
  }

  /** A reference at the head decodes to the unit of its digits; the scan
      resumes after its `;`. */
  lemma EntityHead(d: JsString, rest: JsString)
    requires d != [] && forall k :: 0 <= k < |d| ==> IsDigit(d[k])
    ensures ConvertEscapedAscii(Ref(d) + rest) ==
      [(DecimalValue(d) % 0x1_0000) as CodeUnit] + ConvertEscapedAscii(rest)
  {
    var s := [AMP, HASH] + d + [SEMI] + rest;
    assert s[2..] == d + ([SEMI] + rest);
    DigitRunOfDigits(d, [SEMI] + rest);
    assert s[2..2 + |d|] == d;
    assert s[2 + |d|] == SEMI;
    assert EntityAt(s);
    assert s[3 + |d|..] == rest;
  }

  lemma UnitMod(u: CodeUnit)
    ensures (u as int) % 0x1_0000 == u as int
  {
  }

  /** Decoding undoes escaping: every string, fully escaped, decodes back. */
  lemma {:induction false} ConvertEscapeRoundTrip(t: JsString)
    ensures ConvertEscapedAscii(EscapeAll(t)) == t
  {
    if t != [] {
      var d := Decimal(t[0] as nat);
      var rest := EscapeAll(t[1..]);
      assert EscapeAll(t) == Ref(d) + rest;
      EntityHead(d, rest);
      DecimalRoundTrip(t[0] as nat);
      UnitMod(t[0]);
      ConvertEscapeRoundTrip(t[1..]);
      HeadTail(t);
    }
  }

  /** Decoding is a single pass: the `&` that `&#38;` decodes to never
      starts a reference with what follows it, so `&#38;#65;` yields the
      text `&#65;`, not `A`. */
  lemma ConvertIsSinglePass(t: JsString)
    ensures ConvertEscapedAscii(Ref([51, 56]) + t) == [AMP] + ConvertEscapedAscii(t)
  {
    EntityHead([51, 56], t);
    DecimalOfTwo(51, 56);
  }

  /** The example of the source's own comment: `&#65;&#66;` decodes to `AB`. */
  lemma ConvertExample()
    ensures ConvertEscapedAscii(Ref([54, 53]) + Ref([54, 54])) == [65, 66]
  {
    DecimalOfTwo(54, 53);
    DecimalOfTwo(54, 54);
    assert ConvertEscapedAscii(Ref([54, 54])) == [66] by {
      assert Ref([54, 54]) + [] == Ref([54, 54]);
      EntityHead([54, 54], []);
    }
    EntityHead([54, 53], Ref([54, 54]));
  }

  // ---------------------------------------------------------------------
  // stripHtml: `string.replace(/<[^>]*>/g, "")`

  /** A `<` that has a `>` somewhere after it starts a match; the match runs to
      the first such `>` and is deleted. A `<` with no `>` after it is copied. */
  function StripHtml(s: JsString): (r: JsString)
    ensures |r| <= |s|
    decreases |s|
  {
    if s == [] then []
    else if s[0] == LT && GT in s[1..] then StripHtml(s[|BeforeFirst(s[1..], GT)| + 2..])
    else [s[0]] + StripHtml(s[1..])
  }

  /** Stripping only deletes: every unit of the result comes from the input. */
  lemma {:induction false} StripHtmlFrom(s: JsString, x: CodeUnit)
    ensures x in StripHtml(s) ==> x in s
    decreases |s|
  {
    if s != [] {
      var k := if s[0] == LT && GT in s[1..] then |BeforeFirst(s[1..], GT)| + 2 else 1;
      StripHtmlFrom(s[k..], x);
      if x in s[k..] {
        var j :| 0 <= j < |s[k..]| && s[k..][j] == x;
        assert s[k + j] == x;
      }
    }
  }

  /** No `<` is followed, anywhere later, by a `>`. */
  predicate NoTagPair(s: JsString) {
    forall i, j :: 0 <= i < j < |s| ==> !(s[i] == LT && s[j] == GT)
  }

  lemma NoTagPairCons(c: CodeUnit, r: JsString)
    requires NoTagPair(r)
    requires c == LT ==> GT !in r
    ensures NoTagPair([c] + r)
  {
    var t := [c] + r;
    forall i, j | 0 <= i < j < |t| ensures !(t[i] == LT && t[j] == GT) {
      if i == 0 {
        assert t[j] == r[j - 1];
      } else {
        assert t[i] == r[i - 1] && t[j] == r[j - 1];
      }
    }
  }

  /** The result never holds a `<` followed later by a `>`. */
  lemma {:induction false} StripHtmlLeavesNoTag(s: JsString)
    ensures NoTagPair(StripHtml(s))
    decreases |s|
  {
    if s == [] {
    } else if s[0] == LT && GT in s[1..] {
      StripHtmlLeavesNoTag(s[|BeforeFirst(s[1..], GT)| + 2..]);
    } else {
      StripHtmlLeavesNoTag(s[1..]);
      StripHtmlFrom(s[1..], GT);
      NoTagPairCons(s[0], StripHtml(s[1..]));
    }
  }

  lemma NoTagPairHead(s: JsString)
    requires NoTagPair(s) && s != [] && s[0] == LT
    ensures GT !in s[1..]
  {
    forall k | 0 <= k < |s[1..]| ensures s[1..][k] != GT {
      assert s[1..][k] == s[k + 1];
    }
  }

  /** Stripping changes nothing exactly when there is no `<` ... `>` pair. */
  lemma {:induction false} StripHtmlIdentity(s: JsString)
    ensures StripHtml(s) == s <==> NoTagPair(s)
    decreases |s|
  {
    StripHtmlLeavesNoTag(s);
    if NoTagPair(s) && s != [] {
      if s[0] == LT {
        NoTagPairHead(s);
      }
      assert NoTagPair(s[1..]) by {
        forall i, j | 0 <= i < j < |s[1..]| ensures !(s[1..][i] == LT && s[1..][j] == GT) {
          assert s[1..][i] == s[i + 1] && s[1..][j] == s[j + 1];
        }
      }
      StripHtmlIdentity(s[1..]);
    }
  }

  /** Applying stripHtml twice is the same as applying it once. */
  lemma StripHtmlIdempotent(s: JsString)
    ensures StripHtml(StripHtml(s)) == StripHtml(s)
  {
    StripHtmlLeavesNoTag(s);
    StripHtmlIdentity(StripHtml(s));
  }

  /** Text without any `<` is left as it is. */
  lemma StripHtmlWithoutLt(s: JsString)
    requires LT !in s
    ensures StripHtml(s) == s
  {
    assert NoTagPair(s) by {
      forall i, j | 0 <= i < j < |s| ensures !(s[i] == LT && s[j] == GT) {
        assert s[i] in s;
      }
    }
    StripHtmlIdentity(s);
  }

  /** The example of the source's own comment, `<p>Hello</p>` becoming
      `Hello`, for any text without `<` inside the paragraph. */
  lemma StripHtmlParagraph(text: JsString)
    requires LT !in text
    ensures StripHtml([LT, 112, GT] + text + [LT, SLASH, 112, GT]) == text
  {
    var close: JsString := [LT, SLASH, 112, GT];
    assert [LT, 112, GT] + text + close == [LT] + [112] + [GT] + (text + close);
    StripTag([112], text + close);
    StripThrough(text, close);
    assert close == [LT] + [SLASH, 112] + [GT] + [];
    StripTag([SLASH, 112], []);
    assert text + [] == text;
  }

  /** A tag at the head is deleted through its first `>`. */
  lemma StripTag(inner: JsString, rest: JsString)
    requires GT !in inner
    ensures StripHtml([LT] + inner + [GT] + rest) == StripHtml(rest)
  {
    var s := [LT] + inner + [GT] + rest;
    assert s[1..] == inner + [GT] + rest;
    BeforeFirstStopsAtSeparator(inner, rest, GT);
    assert s[1..][|inner|] == GT;
    assert s[|inner| + 2..] == rest;
  }

  /** Plain text before a tag is copied ahead of whatever the tag leaves. */
  lemma {:induction false} StripThrough(plain: JsString, rest: JsString)
    requires LT !in plain
    ensures StripHtml(plain + rest) == plain + StripHtml(rest)
    decreases |plain|
  {
    if plain != [] {
      TailAppend(plain, rest);
      HeadTail(plain);
      StripThrough(plain[1..], rest);
      assert StripHtml(plain + rest) == [plain[0]] + (plain[1..] + StripHtml(rest));
    } else {
      assert plain + rest == rest;
    }
  }


  // ---------------------------------------------------------------------
  // validateApiResponse

  /** A JavaScript value as far as the validation looks at it. An object is
      known by the names the `in` operator finds on it, own or inherited. */
  datatype ApiValue =
    | Undefined
    | Null
    | Boolean(b: bool)
    | Number(n: int)
    | Text(s: JsString)
    | Object(properties: set<JsString>)

  predicate Truthy(v: ApiValue) {
    match v
    case Undefined => false
    case Null => false
    case Boolean(b) => b
    case Number(n) => n != 0
    case Text(s) => s != []
    case Object(_) => true
  }

  /** `typeof v === "object"` (null included, as in JavaScript). */
  predicate TypeofObject(v: ApiValue) { v.Null? || v.Object? }

  datatype ValidationError = InvalidFormat | MissingField(key: JsString)

  datatype Validation = Valid | Invalid(error: ValidationError)

  /** Throws for a falsy or non-object response, else for the first expected
      key, in order, that is missing, and returns normally otherwise. */
  method ValidateApiResponse(response: ApiValue, expectedKeys: seq<JsString>) returns (v: Validation)
    ensures !(Truthy(response) && TypeofObject(response)) ==> v == Invalid(InvalidFormat)
    ensures v == Valid <==> response.Object? && forall k :: 0 <= k < |expectedKeys| ==> expectedKeys[k] in response.properties
    ensures Truthy(response) && TypeofObject(response) && v != Valid ==> v.Invalid? && v.error.MissingField?
    ensures v.Invalid? && v.error.MissingField? ==>
      response.Object? &&
      exists i :: 0 <= i < |expectedKeys| && expectedKeys[i] == v.error.key && expectedKeys[i] !in response.properties &&
        forall j :: 0 <= j < i ==> expectedKeys[j] in response.properties
  {
    if !Truthy(response) || !TypeofObject(response) {
      return Invalid(InvalidFormat);
    }
    var i := 0;
    while i < |expectedKeys|
      invariant 0 <= i <= |expectedKeys|
      invariant forall j :: 0 <= j < i ==> expectedKeys[j] in response.properties
    {
      if expectedKeys[i] !in response.properties {
        return Invalid(MissingField(expectedKeys[i]));
      }
      i := i + 1;
    }
    return Valid;
  }

  // ---------------------------------------------------------------------
  // fetchWithRetry

  /** The part of a fetch Response the retry logic reads: the status and the
      content-type header (None when the header is absent, `get` gives null). */
  datatype Response = Response(status: int, contentType: Option<JsString>)

  /** `response.ok`. */
  predicate IsOk(r: Response) { 200 <= r.status <= 299 }

  /** What one `fetch(url)` call does: resolves with a response, or rejects
      (connection refused, DNS failure, ...). */
  datatype Reply = Answered(response: Response) | Rejected

  /** What makes one attempt fail, in the order the attempt checks it. */
  datatype FetchError =
    | NetworkError            // fetch rejected
    | HttpError(status: int)  // `HTTP error! status: ...`
    | NullContentType         // `contentType.includes` called on null
    | NotJson(contentType: JsString)  // `Expected JSON but got ...`

  datatype Attempt = Accepted(response: Response) | Failed(error: FetchError)

  const IMAGE_TYPE: JsString := Lit("image/")
  const JSON_TYPE: JsString := Lit("application/json")

  /** `/\.(jpg|jpeg|png|gif|webp)$/i`. */
  predicate ImageUrl(url: JsString) {
    EndsWithIgnoreCase(url, Lit(".jpg")) || EndsWithIgnoreCase(url, Lit(".jpeg")) ||
    EndsWithIgnoreCase(url, Lit(".png")) || EndsWithIgnoreCase(url, Lit(".gif")) ||
    EndsWithIgnoreCase(url, Lit(".webp"))
  }

  /** The body of the `try` block for one attempt. */
  function Classify(url: JsString, reply: Reply): Attempt {
    match reply
    case Rejected => Failed(NetworkError)
    case Answered(response) =>
      if !IsOk(response) then Failed(HttpError(response.status))
      else if ImageUrl(url) then Accepted(response)
      else if response.contentType.None? then Failed(NullContentType)
      else if Includes(response.contentType.value, IMAGE_TYPE) then Accepted(response)
      else if !Includes(response.contentType.value, JSON_TYPE) then
        Failed(NotJson(response.contentType.value))
      else Accepted(response)
  }

  /** A rejected fetch fails as a network error and a non-ok status with its
      status. An ok reply is accepted when the URL names an image; otherwise
      a null content type fails, and a content type is accepted when it
      includes `image/` or else `application/json`, and fails as not JSON
      when it includes neither. So an accepted reply is always ok. */
  lemma ClassifyRules(url: JsString, reply: Reply)
    ensures var a := Classify(url, reply);
      (reply.Rejected? ==> a == Failed(NetworkError)) &&
      (reply.Answered? && !IsOk(reply.response) ==> a == Failed(HttpError(reply.response.status))) &&
      (reply.Answered? && IsOk(reply.response) && ImageUrl(url) ==> a == Accepted(reply.response)) &&
      (reply.Answered? && IsOk(reply.response) && !ImageUrl(url) && reply.response.contentType.None? ==>
        a == Failed(NullContentType))
    ensures var a := Classify(url, reply);
      reply.Answered? && IsOk(reply.response) && !ImageUrl(url) && reply.response.contentType.Some? ==>
        var ct := reply.response.contentType.value;
        (Includes(ct, IMAGE_TYPE) ==> a == Accepted(reply.response)) &&
        (!Includes(ct, IMAGE_TYPE) && Includes(ct, JSON_TYPE) ==> a == Accepted(reply.response)) &&
        (!Includes(ct, IMAGE_TYPE) && !Includes(ct, JSON_TYPE) ==> a == Failed(NotJson(ct)))
    ensures Classify(url, reply).Accepted? ==>
      reply.Answered? && Classify(url, reply).response == reply.response && IsOk(reply.response)
  {
  }

  /** How a call of fetchWithRetry ends: it returns a response, returns
      undefined (the loop never ran), or rethrows the last attempt's error. */
  datatype RetryOutcome = Returned(response: Option<Response>) | Threw(error: FetchError)

  /** The first accepted attempt among `from .. retries - 1` when `net(i)`
      answers attempt `i`. */
  function FirstAccepted(url: JsString, net: nat -> Reply, from: nat, retries: int): Option<nat>
    decreases retries - from
  {
    if from >= retries then None
    else if Classify(url, net(from)).Accepted? then Some(from)
    else FirstAccepted(url, net, from + 1, retries)
  }

  /** It is the index of the first accepted attempt, every earlier one
      having failed, or none when every attempt fails. */
  lemma {:induction false} FirstAcceptedFacts(url: JsString, net: nat -> Reply, from: nat, retries: int)
    ensures var k := FirstAccepted(url, net, from, retries);
      (k.Some? ==>
        from <= k.value < retries && Classify(url, net(k.value)).Accepted? &&
        forall j :: from <= j < k.value ==> Classify(url, net(j)).Failed?) &&
      (k.None? ==> forall j :: from <= j < retries ==> Classify(url, net(j)).Failed?)
    decreases retries - from
  {
    if from < retries && !Classify(url, net(from)).Accepted? {
      FirstAcceptedFacts(url, net, from + 1, retries);
    }
  }

  /** The outcome of `fetchWithRetry(url, retries)`. */
  function RetryOutcomeOf(url: JsString, retries: int, net: nat -> Reply): RetryOutcome {
    FirstAcceptedFacts(url, net, 0, retries);
    match FirstAccepted(url, net, 0, retries)
    case Some(k) => Returned(Some(Classify(url, net(k)).response))
    case None => if retries <= 0 then Returned(None) else Threw(Classify(url, net(retries - 1)).error)
  }

  /** The number of fetch calls fetchWithRetry makes. */
  function AttemptsMade(url: JsString, retries: int, net: nat -> Reply): nat {
    match FirstAccepted(url, net, 0, retries)
    case Some(k) => k + 1
    case None => if retries <= 0 then 0 else retries
  }

  /** The waits, in milliseconds, between `calls` attempts: 1000 after the
      first, 2000 after the second, ..., none after the last. */
  function Backoff(calls: nat): (d: seq<nat>)
    ensures |d| == if calls == 0 then 0 else calls - 1
    ensures forall i :: 0 <= i < |d| ==> d[i] == 1000 * (i + 1)
  {
    seq(if calls == 0 then 0 else calls - 1, i => 1000 * (i + 1))
  }

  lemma BackoffNext(n: nat)
    ensures Backoff(n + 2) == Backoff(n + 1) + [1000 * (n + 1)]
  {
    var a, b := Backoff(n + 2), Backoff(n + 1) + [1000 * (n + 1)];
    forall i | 0 <= i < |a| ensures a[i] == b[i] {
      if i < n {
        assert b[i] == Backoff(n + 1)[i];
      }
    }
  }

  /** At most `retries` attempts, stopping at the first accepted one, whose
      response is returned; it throws exactly when every attempt fails, and
      then with the last attempt's error; the waits grow strictly. */
  lemma RetryOutcomeFacts(url: JsString, retries: int, net: nat -> Reply)
    ensures var outcome, calls := RetryOutcomeOf(url, retries, net), AttemptsMade(url, retries, net);
      (outcome == Returned(None) <==> retries <= 0) &&
      (calls <= if retries > 0 then retries else 0) &&
      (retries <= 0 ==> calls == 0) &&
      (outcome.Returned? && outcome.response.Some? ==>
        calls >= 1 && Classify(url, net(calls - 1)) == Accepted(outcome.response.value) &&
        forall j :: 0 <= j < calls - 1 ==> Classify(url, net(j)).Failed?) &&
      (outcome.Threw? <==> retries > 0 && forall j :: 0 <= j < retries ==> Classify(url, net(j)).Failed?) &&
      (outcome.Threw? ==> calls == retries && Classify(url, net(retries - 1)) == Failed(outcome.error))
    ensures var d := Backoff(AttemptsMade(url, retries, net));
      forall i, j :: 0 <= i < j < |d| ==> d[i] < d[j]
  {
    FirstAcceptedFacts(url, net, 0, retries);
    var first := FirstAccepted(url, net, 0, retries);
    if first.None? && retries > 0 {
      assert Classify(url, net(retries - 1)).Failed?;
    }
  }

  /** The retry loop. `net(i)` is what the i-th fetch call answers; the waits
      are recorded in `delays` instead of being slept. */
  method FetchWithRetry(url: JsString, retries: int, net: nat -> Reply)
    returns (outcome: RetryOutcome, calls: nat, delays: seq<nat>)
    ensures outcome == RetryOutcomeOf(url, retries, net)
    ensures calls == AttemptsMade(url, retries, net) && delays == Backoff(calls)
  {
    calls, delays := 0, [];
    var i := 0;
    while i < retries
      invariant 0 <= i && (retries > 0 ==> i < retries) && (retries <= 0 ==> i == 0)
      invariant calls == i
      invariant forall j :: 0 <= j < i ==> Classify(url, net(j)).Failed?
      invariant FirstAccepted(url, net, 0, retries) == FirstAccepted(url, net, i, retries)
      invariant delays == Backoff(i + 1)
      decreases retries - i
    {
      var attempt := Classify(url, net(i));
      calls := calls + 1;
      if attempt.Accepted? {
        outcome := Returned(Some(attempt.response));
        return;
      }
      if i == retries - 1 {
        outcome := Threw(attempt.error);
        return;
      }
      BackoffNext(i);
      delays := delays + [1000 * (i + 1)];
      i := i + 1;
    }
    outcome := Returned(None);
  }

  // ---------------------------------------------------------------------
  // downloadImage

  /** A file on disk: the folder it is in and its base name. */
  datatype Path = Path(folder: JsString, name: JsString)

  /** How piping the body into `createWriteStream(destination, {flags: "wx"})`
      ends: finished; the exclusive open failed (nothing written); or the
      stream failed after the open had created the file. */
  datatype StreamResult = Finished | OpenFailed | PipeFailed

  /** fetchWithRetry with its default of three attempts yields a response. */
  predicate Downloadable(url: JsString, net: nat -> Reply) {
    FirstAccepted(url, net, 0, 3).Some?
  }

  /** Returns true without fetching when the destination exists; otherwise
      true exactly when the fetch and the write both succeed, false on any
      error. `disk` is the set of existing files, `diskAfter` the new one. */
  method DownloadImage(imageUrl: JsString, destination: Path, disk: set<Path>, net: nat -> Reply, stream: StreamResult)
    returns (ok: bool, diskAfter: set<Path>, calls: nat)
    ensures destination in disk ==> ok && diskAfter == disk && calls == 0
    ensures destination !in disk ==> ok == (Downloadable(imageUrl, net) && stream == Finished)
    ensures destination !in disk ==> calls == AttemptsMade(imageUrl, 3, net) && 1 <= calls <= 3
    ensures diskAfter == if destination !in disk && Downloadable(imageUrl, net) && stream != OpenFailed
                         then disk + {destination} else disk
    ensures ok ==> destination in diskAfter
  {
    if destination in disk {
      return true, disk, 0;
    }
    var outcome, n, _ := FetchWithRetry(imageUrl, 3, net);
    calls := n;
    if outcome.Returned? && outcome.response.Some? {
      match stream
      case Finished => ok, diskAfter := true, disk + {destination};
      case OpenFailed => ok, diskAfter := false, disk;
      case PipeFailed => ok, diskAfter := false, disk + {destination};
    } else {
      ok, diskAfter := false, disk;
    }
  }
}
