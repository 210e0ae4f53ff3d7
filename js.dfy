/** The pieces of the JavaScript runtime the exporter scripts lean on:
    strings as sequences of UTF-16 code units, `includes`, `endsWith` with the
    regular-expression `i` flag, number-to-text conversion, `parseInt(h, 10)`
    and the string-to-number conversion of a loose `<=` comparison. */
module Js {

  /** One UTF-16 code unit; a JavaScript string is a sequence of them. */
  newtype CodeUnit = x: int | 0 <= x < 0x1_0000

  type JsString = seq<CodeUnit>

  datatype Option<+T> = None | Some(value: T)

  /** The outcome of an awaited network request or of parsing its body:
      a value, or a rejection that the script does not catch. */
  datatype Fetched<+T> = Got(value: T) | FetchFailed

  const NL: CodeUnit := 10
  const SPACE: CodeUnit := 32
  const QUOTE: CodeUnit := 34
  const HASH: CodeUnit := 35
  const AMP: CodeUnit := 38
  const PLUS: CodeUnit := 43
  const MINUS: CodeUnit := 45
  const DOT: CodeUnit := 46
  const SLASH: CodeUnit := 47
  const COLON: CodeUnit := 58
  const SEMI: CodeUnit := 59
  const LT: CodeUnit := 60
  const GT: CodeUnit := 62
  const QUESTION: CodeUnit := 63

  /** A string literal of the scripts, as the code units JavaScript stores.
      Every literal they use lies in the Basic Multilingual Plane, where a
      character is one code unit; any other character would stand for the
      pair of surrogates it is stored as, and is written here as U+FFFD. */
  function Lit(s: string): (r: JsString)
    ensures |r| == |s|
  {
    seq(|s|, k requires 0 <= k < |s| => if (s[k] as int) < 0x1_0000 then s[k] as int as CodeUnit else 0xFFFD)
  }

  /** A word of ASCII letters. */
  predicate Word(s: string) {
    forall k :: 0 <= k < |s| ==> ('a' <= s[k] <= 'z' || 'A' <= s[k] <= 'Z')
  }

  lemma WordHasNoPunctuation(s: string)
    requires Word(s)
    ensures COLON !in Lit(s) && NL !in Lit(s)
  {
    var r := Lit(s);
    forall k | 0 <= k < |r| ensures r[k] != COLON && r[k] != NL {
      assert 'a' <= s[k] <= 'z' || 'A' <= s[k] <= 'Z';
    }
  }

  lemma LitNoUnit(s: string, c: char)
    requires (c as int) < 0xFFFD && c !in s
    ensures (c as int as CodeUnit) !in Lit(s)
  {
    var r := Lit(s);
    forall k | 0 <= k < |r| ensures r[k] != c as int as CodeUnit {
      assert s[k] != c;
    }
  }

  /** A non-empty sequence is its head followed by its tail. */
  lemma HeadTail<T>(s: seq<T>)
    requires s != []
    ensures [s[0]] + s[1..] == s
  {
  }

  /** A non-empty sequence is its front followed by its last element. */
  lemma FrontLast<T>(s: seq<T>)
    requires s != []
    ensures s[..|s| - 1] + [s[|s| - 1]] == s
  {
  }

  /** The head and the tail of a concatenation with a non-empty front. */
  lemma TailAppend<T>(a: seq<T>, b: seq<T>)
    requires a != []
    ensures (a + b)[0] == a[0] && (a + b)[1..] == a[1..] + b
  {
  }

  lemma Regroup<T>(a: seq<T>, b: seq<T>, c: seq<T>, d: seq<T>)
    ensures a + (b + c) + d == a + b + c + d
  {}

  predicate IsDigit(u: CodeUnit) { 48 <= u <= 57 }

  predicate StartsWith(s: JsString, prefix: JsString) {
    |prefix| <= |s| && s[..|prefix|] == prefix
  }

  /** `s.includes(sub)`. */
  predicate Includes(s: JsString, sub: JsString)
    decreases |s|
  {
    StartsWith(s, sub) || (s != [] && Includes(s[1..], sub))
  }

  /** ASCII case folding; the `i` flag of a non-Unicode regular expression
      never maps a unit outside ASCII onto an ASCII letter. */
  function FoldCase(u: CodeUnit): CodeUnit {
    if 65 <= u <= 90 then u + 32 else u
  }

  /** `s` ends with `suffix`, compared case-insensitively (`/suffix$/i`). */
  predicate EndsWithIgnoreCase(s: JsString, suffix: JsString) {
    |suffix| <= |s| &&
    forall k :: 0 <= k < |suffix| ==> FoldCase(s[|s| - |suffix| + k]) == FoldCase(suffix[k])
  }

  /** The digits of a natural number, most significant first. */
  function Decimal(n: nat): (r: JsString)
    ensures |r| > 0 && forall k :: 0 <= k < |r| ==> IsDigit(r[k])
  {
    if n < 10 then [(48 + n) as CodeUnit] else Decimal(n / 10) + [(48 + n % 10) as CodeUnit]
  }

  /** The value of a run of decimal digits, as `Number(digits)` gives it for
      runs short enough to be exact. */
  function DecimalValue(d: JsString): nat
    requires forall k :: 0 <= k < |d| ==> IsDigit(d[k])
  {
    if d == [] then 0
    else
      assert IsDigit(d[|d| - 1]);
      10 * DecimalValue(d[..|d| - 1]) + (d[|d| - 1] as int - 48)
  }

  lemma {:induction false} DecimalRoundTrip(n: nat)
    ensures DecimalValue(Decimal(n)) == n
  {
    if n >= 10 {
      var d := Decimal(n);
      assert d[..|d| - 1] == Decimal(n / 10);
      DecimalRoundTrip(n / 10);
    }
  }

  /** `${n}` for an integer-valued number. */
  function NumberText(n: int): JsString {
    if n < 0 then [MINUS] + Decimal(-n) else Decimal(n)
  }

  /** `parseInt` reads back what `${n}` writes. */
  lemma ParseIntNumberText(n: int)
    ensures ParseInt(NumberText(n)) == Some(n)
  {
    var s := NumberText(n);
    var d := if n < 0 then Decimal(-n) else Decimal(n);
    assert !IsJsSpace(s[0]);
    assert TrimStart(s) == s;
    assert SignlessPart(s) == d;
    assert DigitRun(d) == |d|;
    assert d[..|d|] == d;
    if n < 0 {
      DecimalRoundTrip(-n);
    } else {
      DecimalRoundTrip(n);
    }
  }

  /** The white space and line terminators `parseInt` and `Number` skip. */
  predicate IsJsSpace(u: CodeUnit) {
    u == 9 || u == 10 || u == 11 || u == 12 || u == 13 || u == 32 || u == 0xA0 ||
    u == 0x1680 || (0x2000 <= u <= 0x200A) || u == 0x2028 || u == 0x2029 ||
    u == 0x202F || u == 0x205F || u == 0x3000 || u == 0xFEFF
  }

  function TrimStart(s: JsString): (r: JsString)
    ensures |r| <= |s| && (r != [] ==> !IsJsSpace(r[0]))
  {
    if s != [] && IsJsSpace(s[0]) then TrimStart(s[1..]) else s
  }

  function TrimEnd(s: JsString): (r: JsString)
    ensures |r| <= |s| && (r != [] ==> !IsJsSpace(r[|r| - 1]))
  {
    if s != [] && IsJsSpace(s[|s| - 1]) then TrimEnd(s[..|s| - 1]) else s
  }

  /** The length of the run of decimal digits `s` starts with. */
  function DigitRun(s: JsString): (n: nat)
    ensures n <= |s|
    ensures forall k :: 0 <= k < n ==> IsDigit(s[k])
    ensures n < |s| ==> !IsDigit(s[n])
  {
    if s != [] && IsDigit(s[0]) then 1 + DigitRun(s[1..]) else 0
  }

  /** `parseInt(s, 10)`; None stands for NaN. Leading white space and one sign
      are skipped, then the longest run of digits is read; anything after it
      is ignored. */
  function ParseInt(s: JsString): (r: Option<int>)
    ensures r.None? <==> DigitRun(SignlessPart(TrimStart(s))) == 0
  {
    var t := TrimStart(s);
    var body := SignlessPart(t);
    var n := DigitRun(body);
    var v: int := DecimalValue(body[..n]);
    if n == 0 then None
    else if t[0] == MINUS then Some(-v)
    else Some(v)
  }

  function SignlessPart(t: JsString): JsString {
    if t != [] && (t[0] == PLUS || t[0] == MINUS) then t[1..] else t
  }

  /** `Number(s)` for the forms the model covers: after trimming, the empty
      string is 0 and an optionally signed run of decimal digits is its value;
      every other string is NaN here (None). */
  function StringToNumber(s: JsString): Option<int> {
    var t := TrimEnd(TrimStart(s));
    var body := SignlessPart(t);
    if t == [] then Some(0)
    else if body != [] && DigitRun(body) == |body| then
      var v: int := DecimalValue(body);
      if t[0] == MINUS then Some(-v) else Some(v)
    else None
  }

  /** The number of passes of `for (let page = 1; page <= bound; page++)`
      when `bound` is an integer or NaN (None). */
  function PageCount(bound: Option<int>): (n: nat)
    ensures bound.None? ==> n == 0
    ensures bound.Some? ==> (n > 0 <==> bound.value >= 1) && (n > 0 ==> n == bound.value)
  {
    if bound.Some? && bound.value > 0 then bound.value else 0
  }

  /** `page <= bound` for an integer `page` and a bound that is an integer
      or NaN (None): every comparison with NaN is false. */
  predicate AtMost(page: int, bound: Option<int>) {
    bound.Some? && page <= bound.value
  }

  /** From page 1 on, the loop test holds exactly for the pages up to
      `PageCount(bound)`, so a loop up to that count takes the same passes. */
  lemma AtMostPageCount(page: int, bound: Option<int>)
    requires page >= 1
    ensures AtMost(page, bound) <==> page <= PageCount(bound)
  {
  }

  /** `for (let page = 1; page <= bound; page++)`, counting its passes. */
  method CountPasses(bound: Option<int>) returns (passes: nat)
    ensures passes == PageCount(bound)
  {
    passes := 0;
    var page := 1;
    while AtMost(page, bound)
      invariant page == passes + 1
      invariant passes <= PageCount(bound)
      decreases PageCount(bound) - passes
    {
      passes := passes + 1;
      page := page + 1;
    }
  }

  /** `s.split(sep)[0]`: the text before the first `sep`, or all of it. */
  function BeforeFirst(s: JsString, sep: CodeUnit): (r: JsString)
    ensures sep !in r
    ensures StartsWith(s, r)
    ensures r == s || (|r| < |s| && s[|r|] == sep)
  {
    if s == [] then [] else if s[0] == sep then [] else [s[0]] + BeforeFirst(s[1..], sep)
  }

  /** `s.split("\n")` for a one-unit separator. */
  function Split(s: JsString): (r: seq<JsString>)
    ensures |r| > 0
    decreases |s|
  {
    var head := BeforeFirst(s, NL);
    if head == s then [s] else [head] + Split(s[|head| + 1..])
  }

  /** `lines.join("\n")`. */
  function Join(lines: seq<JsString>): JsString {
    if lines == [] then []
    else if |lines| == 1 then lines[0]
    else lines[0] + [NL] + Join(lines[1..])
  }

  predicate NoNewline(s: JsString) { NL !in s }

  lemma {:induction false} JoinAppend(a: seq<JsString>, b: seq<JsString>)
    requires a != [] && b != []
    ensures Join(a + b) == Join(a) + [NL] + Join(b)
  {
    if |a| == 1 {
      assert a + b == [a[0]] + b;
    } else {
      assert (a + b)[1..] == a[1..] + b;
      JoinAppend(a[1..], b);
    }
  }

  lemma JoinFramed(head: JsString, body: seq<JsString>, tail: seq<JsString>)
    requires body != [] && tail != []
    ensures Join([head] + body + tail) == head + [NL] + Join(body) + [NL] + Join(tail)
  {
    JoinAppend(body, tail);
    JoinAppend([head], body + tail);
    assert [head] + body + tail == [head] + (body + tail);
  }

  lemma SplitLine(a: JsString, rest: JsString)
    requires NoNewline(a)
    ensures Split(a + [NL] + rest) == [a] + Split(rest)
  {
    var s := a + [NL] + rest;
    BeforeFirstStopsAtSeparator(a, rest, NL);
    assert s[|a| + 1..] == rest;
  }

  lemma {:induction false} BeforeFirstStopsAtSeparator(a: JsString, rest: JsString, sep: CodeUnit)
    requires sep !in a
    ensures BeforeFirst(a + [sep] + rest, sep) == a
  {
    if a != [] {
      assert (a + [sep] + rest)[1..] == a[1..] + [sep] + rest;
      BeforeFirstStopsAtSeparator(a[1..], rest, sep);
    }
  }

  lemma {:induction false} SplitJoin(lines: seq<JsString>)
    requires lines != []
    requires forall k :: 0 <= k < |lines| ==> NoNewline(lines[k])
    ensures Split(Join(lines)) == lines
  {
    if |lines| == 1 {
      assert BeforeFirst(lines[0], NL) == lines[0];
    } else {
      SplitLine(lines[0], Join(lines[1..]));
      SplitJoin(lines[1..]);
    }
  }
}
