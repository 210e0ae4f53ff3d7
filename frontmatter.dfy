/** The hand-written YAML frontmatter of index.mjs: one `key: value` line per
    entry of the frontmatter object, in insertion order, between `---` fences. */
module Frontmatter {
  import opened Js

  /** A frontmatter value as a template literal sees it. */
  datatype Scalar = Str(s: JsString) | Null | Undefined | Num(n: int)

  /** An entry value: a single value, or an array (only `tags` is one). */
  datatype Value = One(v: Scalar) | List(items: seq<Scalar>)

  datatype Entry = Entry(key: JsString, value: Value)

  const NULL_TEXT: JsString := Lit("null")
  const UNDEFINED_TEXT: JsString := Lit("undefined")
  const FENCE: JsString := Lit("---")
  /** The `  - ` that starts an array item line. */
  const ITEM: JsString := [SPACE, SPACE, MINUS, SPACE]

  /** `${v}`. */
  function Text(v: Scalar): JsString {
    match v
    case Str(s) => s
    case Null => NULL_TEXT
    case Undefined => UNDEFINED_TEXT
    case Num(n) => NumberText(n)
  }

  /** What follows `key: `: a string in double quotes, without escaping,
      anything else as `${v}`. */
  function Yaml(v: Scalar): JsString {
    if v.Str? then [QUOTE] + v.s + [QUOTE] else Text(v)
  }

  function ItemLines(items: seq<Scalar>): (r: seq<JsString>)
    ensures |r| == |items| && forall k :: 0 <= k < |items| ==> r[k] == ITEM + Text(items[k])
  {
    seq(|items|, k requires 0 <= k < |items| => ITEM + Text(items[k]))
  }

  /** The text one entry maps to. */
  function RenderEntry(e: Entry): JsString {
    match e.value
    case One(v) => e.key + [COLON, SPACE] + Yaml(v)
    case List(items) => e.key + [COLON] + [NL] + Join(ItemLines(items))
  }

  function RenderEntries(es: seq<Entry>): (r: seq<JsString>)
    ensures |r| == |es| && forall k :: 0 <= k < |es| ==> r[k] == RenderEntry(es[k])
  {
    seq(|es|, k requires 0 <= k < |es| => RenderEntry(es[k]))
  }

  /** The frontmatter block: `---`, the rendered entries joined by newlines,
      then `---` and an empty line, after which the Markdown content follows. */
  function Serialize(es: seq<Entry>): JsString {
    FENCE + [NL] + Join(RenderEntries(es)) + [NL] + FENCE + [NL, NL]
  }

  /** The lines an entry occupies. An empty array leaves its `key:` line
      followed by an empty line. */
  function Lines(e: Entry): (r: seq<JsString>)
    ensures |r| > 0
  {
    match e.value
    case One(_) => [RenderEntry(e)]
    case List(items) => [e.key + [COLON]] + (if items == [] then [[]] else ItemLines(items))
  }

  /** The lines of all entries, in order. */
  function AllLines(es: seq<Entry>): seq<JsString>
    decreases |es|
  {
    if es == [] then [] else Lines(es[0]) + AllLines(es[1..])
  }

  lemma JoinLines(e: Entry)
    ensures Join(Lines(e)) == RenderEntry(e)
  {
    match e.value
    case One(_) =>
    case List(items) =>
      var k := e.key + [COLON];
      if items == [] {
        assert Lines(e)[1..] == [[]];
      } else {
        JoinAppend([k], ItemLines(items));
      }
  }

  lemma {:induction false} JoinAllLines(es: seq<Entry>)
    requires es != []
    ensures Join(RenderEntries(es)) == Join(AllLines(es))
    decreases |es|
  {
    JoinLines(es[0]);
    var rest := es[1..];
    if rest == [] {
      assert RenderEntries(es) == [RenderEntry(es[0])];
      assert AllLines(rest) == [];
      assert AllLines(es) == Lines(es[0]);
    } else {
      RenderEntriesCons(es);
      JoinAllLines(rest);
      assert AllLines(rest) != [];
      JoinAppend(Lines(es[0]), AllLines(rest));
    }
  }

  lemma RenderEntriesCons(es: seq<Entry>)
    requires es != []
    ensures RenderEntries(es) == [RenderEntry(es[0])] + RenderEntries(es[1..])
  {
    var r := RenderEntries(es);
    var u := [RenderEntry(es[0])] + RenderEntries(es[1..]);
    assert |u| == |r|;
    forall k | 0 <= k < |r| ensures r[k] == u[k] {
      if k > 0 {
        assert u[k] == RenderEntries(es[1..])[k - 1];
        assert es[1..][k - 1] == es[k];
      }
    }
  }

  lemma {:induction false} AllLinesAppend(a: seq<Entry>, b: seq<Entry>)
    ensures AllLines(a + b) == AllLines(a) + AllLines(b)
    decreases |a|
  {
    if a == [] {
      assert a + b == b;
    } else {
      assert (a + b)[0] == a[0] && (a + b)[1..] == a[1..] + b;
      AllLinesAppend(a[1..], b);
    }
  }

  /** Entries whose every line is free of newlines. */
  predicate Plain(es: seq<Entry>) {
    forall k :: 0 <= k < |AllLines(es)| ==> NoNewline(AllLines(es)[k])
  }

  lemma ClosingJoin()
    ensures Join([FENCE, [], []]) == FENCE + [NL, NL]
  {
    var closing: seq<JsString> := [FENCE, [], []];
    var blanks: seq<JsString> := [[], []];
    assert closing[1..] == blanks && blanks[1..] == [[]];
    assert Join(blanks) == [] + [NL] + Join([[]]);
  }

  /** The block is the newline-join of its lines. */
  lemma SerializeJoin(es: seq<Entry>)
    requires es != []
    ensures Serialize(es) == Join([FENCE] + AllLines(es) + [FENCE, [], []])
  {
    var l := AllLines(es);
    assert l != [];
    JoinAllLines(es);
    ClosingJoin();
    JoinFramed(FENCE, l, [FENCE, [], []]);
  }

  /** With no newline inside any value, splitting the block on newlines
      gives the opening fence, the lines of the entries in order, the closing
      fence and two empty strings. */
  lemma SerializeLines(es: seq<Entry>)
    requires es != [] && Plain(es)
    ensures Split(Serialize(es)) == [FENCE] + AllLines(es) + [FENCE, [], []]
  {
    var lines := [FENCE] + AllLines(es) + [FENCE, [], []];
    SerializeJoin(es);
    LitNoUnit("---", '\n');
    forall k | 0 <= k < |lines| ensures NoNewline(lines[k]) {
      if 0 < k <= |AllLines(es)| {
        assert lines[k] == AllLines(es)[k - 1];
      }
    }
    SplitJoin(lines);
  }

  /** A reader for one value: the inverse of `Yaml`. */
  function ReadScalar(t: JsString): Option<Scalar> {
    if |t| >= 2 && t[0] == QUOTE && t[|t| - 1] == QUOTE then Some(Str(t[1..|t| - 1]))
    else if t == NULL_TEXT then Some(Null)
    else if t == UNDEFINED_TEXT then Some(Undefined)
    else match ParseInt(t)
      case Some(n) => if NumberText(n) == t then Some(Num(n)) else None
      case None => None
  }

  lemma ReadScalarYaml(v: Scalar)
    ensures ReadScalar(Yaml(v)) == Some(v)
  {
    match v
    case Str(s) =>
      assert Yaml(v)[1..|Yaml(v)| - 1] == s;
    case Null =>
    case Undefined =>
      assert |UNDEFINED_TEXT| != |NULL_TEXT|;
    case Num(n) =>
      var t := NumberText(n);
      assert t[0] == MINUS || IsDigit(t[0]);
      assert t != NULL_TEXT && t != UNDEFINED_TEXT by {
        assert NULL_TEXT[0] == 110 && UNDEFINED_TEXT[0] == 117;
      }
      ParseIntNumberText(n);
  }

  /** A reader for one `key: value` line. */
  function ReadEntry(line: JsString): Option<(JsString, Scalar)> {
    var key := BeforeFirst(line, COLON);
    if |line| >= |key| + 2 && line[|key|] == COLON && line[|key| + 1] == SPACE then
      match ReadScalar(line[|key| + 2..])
      case Some(v) => Some((key, v))
      case None => None
    else None
  }

  lemma ReadEntryRoundTrip(key: JsString, v: Scalar)
    requires COLON !in key
    ensures ReadEntry(RenderEntry(Entry(key, One(v)))) == Some((key, v))
  {
    var line := RenderEntry(Entry(key, One(v)));
    assert line == key + [COLON] + ([SPACE] + Yaml(v));
    BeforeFirstStopsAtSeparator(key, [SPACE] + Yaml(v), COLON);
    assert line[|key| + 2..] == Yaml(v);
    ReadScalarYaml(v);
  }

  /** The frontmatter object, field by field. `tags` is written only when
      `showTags` is set. */
  datatype Frontmatter = Frontmatter(
    id: Scalar, title: Scalar, status: Scalar, author: Scalar, authorSlug: Scalar,
    titleImage: Scalar, categorySlug: Scalar, category: Scalar, publishedDate: Scalar,
    updatedAt: Scalar, wordpressId: Scalar, tags: seq<Scalar>)

  const KEYS: seq<JsString> := [
    Lit("id"), Lit("title"), Lit("status"), Lit("author"), Lit("authorSlug"),
    Lit("titleImage"), Lit("categorySlug"), Lit("category"), Lit("publishedDate"),
    Lit("updatedAt"), Lit("wordpressId")]
  const TAGS_KEY: JsString := Lit("tags")

  /** The values of the fixed keys, in the order of KEYS. */
  function Fields(fm: Frontmatter): (r: seq<Scalar>)
    ensures |r| == |KEYS|
  {
    [fm.id, fm.title, fm.status, fm.author, fm.authorSlug, fm.titleImage,
     fm.categorySlug, fm.category, fm.publishedDate, fm.updatedAt, fm.wordpressId]
  }

  function FixedEntries(fm: Frontmatter): (r: seq<Entry>)
    ensures |r| == |KEYS|
  {
    seq(|KEYS|, k requires 0 <= k < |KEYS| => Entry(KEYS[k], One(Fields(fm)[k])))
  }

  /** `Object.entries(frontmatter)`. */
  function Entries(fm: Frontmatter, showTags: bool): seq<Entry> {
    FixedEntries(fm) + if showTags then [Entry(TAGS_KEY, List(fm.tags))] else []
  }

  /** The text a value may hold for its line to stay a single line. */
  predicate OneLine(v: Scalar) {
    v.Str? ==> NoNewline(v.s)
  }

  lemma TextOneLine(v: Scalar)
    requires OneLine(v)
    ensures NoNewline(Text(v)) && NoNewline(Yaml(v))
  {
    match v
    case Str(s) =>
    case Null => LitNoUnit("null", '\n');
    case Undefined => LitNoUnit("undefined", '\n');
    case Num(n) =>
      var t := NumberText(n);
      assert forall k :: 0 <= k < |t| ==> t[k] == MINUS || IsDigit(t[k]);
  }

  lemma KeysPlain()
    ensures forall k :: 0 <= k < |KEYS| ==> COLON !in KEYS[k] && NL !in KEYS[k]
  {
    FirstKeysPlain();
    LastKeysPlain();
  }

  lemma FirstKeysPlain()
    ensures forall k :: 0 <= k < 6 ==> COLON !in KEYS[k] && NL !in KEYS[k]
  {
    WordHasNoPunctuation("id");
    WordHasNoPunctuation("title");
    WordHasNoPunctuation("status");
    WordHasNoPunctuation("author");
    WordHasNoPunctuation("authorSlug");
    WordHasNoPunctuation("titleImage");
  }

  lemma LastKeysPlain()
    ensures forall k :: 6 <= k < |KEYS| ==> COLON !in KEYS[k] && NL !in KEYS[k]
  {
    WordHasNoPunctuation("categorySlug");
    WordHasNoPunctuation("category");
    WordHasNoPunctuation("publishedDate");
    WordHasNoPunctuation("updatedAt");
    WordHasNoPunctuation("wordpressId");
  }

  lemma {:induction false} AllLinesOfFixed(es: seq<Entry>)
    requires forall k :: 0 <= k < |es| ==> es[k].value.One?
    ensures AllLines(es) == RenderEntries(es)
    decreases |es|
  {
    if es != [] {
      AllLinesOfFixed(es[1..]);
      RenderEntriesCons(es);
    } else {
      assert AllLines(es) == [];
    }
  }

  /** The lines of the `tags` entry when it is written, none otherwise. */
  function TagLines(fm: Frontmatter, showTags: bool): seq<JsString> {
    if showTags then Lines(Entry(TAGS_KEY, List(fm.tags))) else []
  }

  /** `tags:` on a line of its own, then one `  - ` line per tag in order;
      with no tags an empty line follows instead. */
  lemma TagLinesShape(fm: Frontmatter, showTags: bool)
    ensures !showTags ==> TagLines(fm, showTags) == []
    ensures showTags && fm.tags == [] ==> TagLines(fm, showTags) == [TAGS_KEY + [COLON], []]
    ensures showTags && fm.tags != [] ==>
      var t := TagLines(fm, showTags);
      |t| == 1 + |fm.tags| && t[0] == TAGS_KEY + [COLON] &&
      forall k :: 0 <= k < |fm.tags| ==> t[k + 1] == ITEM + Text(fm.tags[k])
  {
  }

  lemma EntriesLines(fm: Frontmatter, showTags: bool)
    ensures AllLines(Entries(fm, showTags)) == RenderEntries(FixedEntries(fm)) + TagLines(fm, showTags)
  {
    var fixed := FixedEntries(fm);
    var tail := if showTags then [Entry(TAGS_KEY, List(fm.tags))] else [];
    AllLinesOfFixed(fixed);
    AllLinesAppend(fixed, tail);
    if showTags {
      assert AllLines(tail[1..]) == [];
    } else {
      assert AllLines(tail) == [];
    }
  }

  lemma FixedLinesPlain(fm: Frontmatter)
    requires forall k :: 0 <= k < |KEYS| ==> OneLine(Fields(fm)[k])
    ensures forall k :: 0 <= k < |KEYS| ==> NoNewline(RenderEntries(FixedEntries(fm))[k])
  {
    KeysPlain();
    forall k | 0 <= k < |KEYS| ensures NoNewline(RenderEntries(FixedEntries(fm))[k]) {
      TextOneLine(Fields(fm)[k]);
      assert RenderEntries(FixedEntries(fm))[k] == KEYS[k] + [COLON, SPACE] + Yaml(Fields(fm)[k]);
    }
  }

  lemma TagLinesPlain(fm: Frontmatter, showTags: bool)
    requires forall k :: 0 <= k < |fm.tags| ==> OneLine(fm.tags[k])
    ensures forall k :: 0 <= k < |TagLines(fm, showTags)| ==> NoNewline(TagLines(fm, showTags)[k])
  {
    WordHasNoPunctuation("tags");
    TagLinesShape(fm, showTags);
    forall k | 0 <= k < |fm.tags| ensures NoNewline(ITEM + Text(fm.tags[k])) {
      TextOneLine(fm.tags[k]);
    }
  }

  lemma EntriesPlain(fm: Frontmatter, showTags: bool)
    requires forall k :: 0 <= k < |KEYS| ==> OneLine(Fields(fm)[k])
    requires forall k :: 0 <= k < |fm.tags| ==> OneLine(fm.tags[k])
    ensures Plain(Entries(fm, showTags))
  {
    EntriesLines(fm, showTags);
    FixedLinesPlain(fm);
    TagLinesPlain(fm, showTags);
    var r := RenderEntries(FixedEntries(fm));
    var t := TagLines(fm, showTags);
    forall k | 0 <= k < |r + t| ensures NoNewline((r + t)[k]) {
      if k < |r| { assert (r + t)[k] == r[k]; } else { assert (r + t)[k] == t[k - |r|]; }
    }
  }

  /** Splitting the written block on newlines: the opening fence, one line
      per fixed key in the order id, title, status, author, authorSlug,
      titleImage, categorySlug, category, publishedDate, updatedAt,
      wordpressId, then the `tags` lines exactly when `showTags` is set, then
      the closing fence and an empty line. */
  lemma ReadBack(fm: Frontmatter, showTags: bool)
    requires forall k :: 0 <= k < |KEYS| ==> OneLine(Fields(fm)[k])
    requires forall k :: 0 <= k < |fm.tags| ==> OneLine(fm.tags[k])
    ensures Split(Serialize(Entries(fm, showTags))) ==
      [FENCE] + RenderEntries(FixedEntries(fm)) + TagLines(fm, showTags) + [FENCE, [], []]
  {
    var es := Entries(fm, showTags);
    assert |es| >= |KEYS|;
    EntriesPlain(fm, showTags);
    SerializeLines(es);
    EntriesLines(fm, showTags);
    var r, t := RenderEntries(FixedEntries(fm)), TagLines(fm, showTags);
    Regroup([FENCE], r, t, [FENCE, [], []]);
  }

  /** Each fixed-key line reads back as its key and its value. */
  lemma ReadFixedLines(fm: Frontmatter)
    ensures forall k :: 0 <= k < |KEYS| ==>
      ReadEntry(RenderEntries(FixedEntries(fm))[k]) == Some((KEYS[k], Fields(fm)[k]))
  {
    KeysPlain();
    forall k | 0 <= k < |KEYS|
      ensures ReadEntry(RenderEntries(FixedEntries(fm))[k]) == Some((KEYS[k], Fields(fm)[k]))
    {
      ReadEntryRoundTrip(KEYS[k], Fields(fm)[k]);
    }
  }
}
