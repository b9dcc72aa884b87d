/** `OpenApiSpec`: one OAS3 specification document. It rewrites the raw text
    so that `{contentPath}` path keys start with a slash, parses and checks the
    document, resolves a suffix to the first path key matching the regex
    `^.+/<quoted suffix>.json$` (a non-empty head, a slash, the suffix, any one
    character other than a line terminator, then `json`), reads the response
    schema of that path and caches one validator per suffix.

    The libraries the class calls enter as parameters:
    - `parseYaml(text)` is Jackson's YAML `readTree`;
    - `resolve(url, root)` is the construction of `OAI3Context`, giving the
      message of a `ResolutionException` when references cannot be resolved;
    - `checkStructure(root)` is `validateSpec`'s `convertValue` to the OAS3
      object model followed by `OpenApi3Validator.validate`. */
module OpenApiSpec {
  import opened Results
  import opened Json
  import Strings
  import OpenApiSchemaValidator

  type Validator = OpenApiSchemaValidator.Validator

  // ---------------------------------------------------------------------
  // Text rewrite applied by `readFileContent`
  // ---------------------------------------------------------------------

  const Quote: char := '"'
  /** The quoted path key start the rewrite looks for. */
  const Bare: string := "\"{contentPath}"
  /** What every occurrence of `Bare` becomes. */
  const Slashed: string := "\"/{contentPath}"

  /** Java's `String.replace(target, replacement)` for a non-empty target:
      scans left to right and replaces every non-overlapping occurrence. */
  function ReplaceAll(s: string, target: string, replacement: string): string
    requires |target| > 0
    decreases |s|
  {
    if |s| == 0 then ""
    else if target <= s then replacement + ReplaceAll(s[|target|..], target, replacement)
    else [s[0]] + ReplaceAll(s[1..], target, replacement)
  }

  /** Number of positions in `s` at which `pat` starts. */
  function CountAt(s: string, pat: string): nat
    decreases |s|
  {
    if |s| == 0 then 0 else (if pat <= s then 1 else 0) + CountAt(s[1..], pat)
  }

  /** A quoted pattern: a quote followed by at least one quote-free character. */
  predicate Quoted(pat: string) {
    |pat| >= 2 && pat[0] == Quote && Quote !in pat[1..]
  }

  /** Two quoted patterns that already differ in their second character, so
      neither can start where the other does. */
  predicate Distinct(a: string, b: string) {
    Quoted(a) && Quoted(b) && a[1] != b[1]
  }

  /** `readFileContent`'s rewrite: every `"{contentPath}` becomes
      `"/{contentPath}`. It inserts exactly one slash per occurrence and
      leaves none behind. */
  function FixContentPath(s: string): (r: string)
    ensures |r| == |s| + CountAt(s, Bare)
    ensures CountAt(r, Bare) == 0
  {
    ReplaceLength(s, Bare, Slashed);
    ReplaceRemovesTarget(s, Bare, Slashed);
    ReplaceAll(s, Bare, Slashed)
  }

  /** The reverse rewrite: every `"/{contentPath}` loses its slash. */
  function UnfixContentPath(s: string): string {
    ReplaceAll(s, Slashed, Bare)
  }

  /** A stretch of text without a quote passes through a quoted rewrite
      unchanged and holds no occurrence of a quoted pattern. */
  lemma {:induction false} QuoteFreeStretch(p: string, t: string, target: string, replacement: string)
    requires Quote !in p
    requires Quoted(target)
    ensures ReplaceAll(p + t, target, replacement) == p + ReplaceAll(t, target, replacement)
    ensures CountAt(p + t, target) == CountAt(t, target)
  {
    if |p| > 0 {
      var s := p + t;
      assert s[0] == p[0] && s[0] != Quote;
      assert !(target <= s);
      assert s[1..] == p[1..] + t;
      assert Quote !in p[1..];
      QuoteFreeStretch(p[1..], t, target, replacement);
      assert [p[0]] + p[1..] == p;
    } else {
      assert p + t == t;
    }
  }

  /** If a quote-free string starts the rewritten text, it started the
      original text already: a quoted rewrite only changes text after a quote. */
  lemma {:induction false} QuoteFreePrefixOfReplaced(p: string, t: string, target: string, replacement: string)
    requires Quote !in p
    requires Quoted(target) && Quoted(replacement)
    ensures p <= ReplaceAll(t, target, replacement) ==> p <= t
  {
    var r := ReplaceAll(t, target, replacement);
    if |p| > 0 && p <= r {
      assert |t| > 0;
      assert p[0] == r[0];
      assert p[0] != Quote;
      assert !(target <= t);
      assert r == [t[0]] + ReplaceAll(t[1..], target, replacement);
      assert Quote !in p[1..];
      QuoteFreePrefixOfReplaced(p[1..], t[1..], target, replacement);
    }
  }

  /** A replacement one character longer than its target lengthens the text
      by one character per occurrence. */
  lemma {:induction false} ReplaceLength(s: string, target: string, replacement: string)
    requires Quoted(target)
    requires |replacement| == |target| + 1
    ensures |ReplaceAll(s, target, replacement)| == |s| + CountAt(s, target)
  {
    if |s| > 0 {
      if target <= s {
        assert s[1..] == target[1..] + s[|target|..];
        QuoteFreeStretch(target[1..], s[|target|..], target, replacement);
        ReplaceLength(s[|target|..], target, replacement);
      } else {
        ReplaceLength(s[1..], target, replacement);
      }
    }
  }

  /** No occurrence of the target survives a rewrite to a distinct pattern. */
  lemma {:induction false} ReplaceRemovesTarget(s: string, target: string, replacement: string)
    requires Distinct(target, replacement)
    ensures CountAt(ReplaceAll(s, target, replacement), target) == 0
  {
    if |s| > 0 {
      var r := ReplaceAll(s, target, replacement);
      if target <= s {
        var rest := ReplaceAll(s[|target|..], target, replacement);
        ReplaceRemovesTarget(s[|target|..], target, replacement);
        assert r == replacement + rest;
        assert !(target <= r) by {
          assert r[1] == replacement[1];
        }
        assert r[1..] == replacement[1..] + rest;
        QuoteFreeStretch(replacement[1..], rest, target, replacement);
      } else {
        var rest := ReplaceAll(s[1..], target, replacement);
        ReplaceRemovesTarget(s[1..], target, replacement);
        assert r == [s[0]] + rest;
        assert r[1..] == rest;
        QuoteFreePrefixOfReplaced(target[1..], s[1..], target, replacement);
        assert target == [Quote] + target[1..];
        assert s == [s[0]] + s[1..];
        assert !(target <= r);
      }
    }
  }

  /** Text without an occurrence of the target is left exactly as it is. */
  lemma {:induction false} ReplaceIdentity(s: string, target: string, replacement: string)
    requires |target| > 0
    requires CountAt(s, target) == 0
    ensures ReplaceAll(s, target, replacement) == s
  {
    if |s| > 0 {
      assert !(target <= s);
      ReplaceIdentity(s[1..], target, replacement);
      assert s == [s[0]] + s[1..];
    }
  }

  lemma UndoAtTarget(s: string, t: string, r: string)
    requires Distinct(t, r)
    requires t <= s
    requires ReplaceAll(ReplaceAll(s[|t|..], t, r), r, t) == ReplaceAll(s[|t|..], r, t)
    ensures ReplaceAll(ReplaceAll(s, t, r), r, t) == ReplaceAll(s, r, t)
  {
    var tail := s[|t|..];
    var ft := ReplaceAll(tail, t, r);
    assert ReplaceAll(s, t, r) == r + ft;
    assert (r + ft)[|r|..] == ft;
    assert ReplaceAll(r + ft, r, t) == t + ReplaceAll(ft, r, t);
    assert !(r <= s) by {
      assert s[1] == t[1];
    }
    assert s[1..] == t[1..] + tail;
    QuoteFreeStretch(t[1..], tail, r, t);
    assert ReplaceAll(s, r, t) == [s[0]] + (t[1..] + ReplaceAll(tail, r, t));
    assert t == [s[0]] + t[1..];
  }

  /** An occurrence at the start is rewritten and the scan resumes after it. */
  lemma ReplaceAtStart(s: string, target: string, replacement: string)
    requires |target| > 0 && target <= s
    ensures ReplaceAll(s, target, replacement) == replacement + ReplaceAll(s[|target|..], target, replacement)
  {
  }

  /** Text starting with the replacement is not touched by the forward
      rewrite until the replacement has been passed. */
  lemma ForwardSkipsReplacement(s: string, t: string, r: string)
    requires Distinct(t, r)
    requires r <= s
    ensures ReplaceAll(s, t, r) == r + ReplaceAll(s[|r|..], t, r)
  {
    var tail := s[|r|..];
    var ft := ReplaceAll(tail, t, r);
    assert !(t <= s) by {
      assert s[1] == r[1];
    }
    assert s[1..] == r[1..] + tail;
    QuoteFreeStretch(r[1..], tail, t, r);
    assert ReplaceAll(s, t, r) == [s[0]] + (r[1..] + ft);
    assert r == [s[0]] + r[1..];
  }

  lemma UndoAtReplacement(s: string, t: string, r: string)
    requires Distinct(t, r)
    requires r <= s
    requires ReplaceAll(ReplaceAll(s[|r|..], t, r), r, t) == ReplaceAll(s[|r|..], r, t)
    ensures ReplaceAll(ReplaceAll(s, t, r), r, t) == ReplaceAll(s, r, t)
  {
    var ft := ReplaceAll(s[|r|..], t, r);
    ForwardSkipsReplacement(s, t, r);
    assert (r + ft)[|r|..] == ft;
    ReplaceAtStart(r + ft, r, t);
    ReplaceAtStart(s, r, t);
  }

  lemma UndoElsewhere(s: string, t: string, r: string)
    requires Distinct(t, r)
    requires |s| > 0 && !(t <= s) && !(r <= s)
    requires ReplaceAll(ReplaceAll(s[1..], t, r), r, t) == ReplaceAll(s[1..], r, t)
    ensures ReplaceAll(ReplaceAll(s, t, r), r, t) == ReplaceAll(s, r, t)
  {
    var rest := ReplaceAll(s[1..], t, r);
    var fs := ReplaceAll(s, t, r);
    assert fs == [s[0]] + rest;
    assert fs[1..] == rest;
    QuoteFreePrefixOfReplaced(r[1..], s[1..], t, r);
    assert r == [Quote] + r[1..];
    assert s == [s[0]] + s[1..];
    assert !(r <= fs);
  }

  /** Rewriting `t` to `r` and then `r` back to `t` is the same as rewriting
      `r` to `t` alone: the forward rewrite inserts occurrences of `r`
      exactly where `t` stood and changes nothing else. */
  lemma {:induction false} UndoReplace(s: string, t: string, r: string)
    requires Distinct(t, r)
    ensures ReplaceAll(ReplaceAll(s, t, r), r, t) == ReplaceAll(s, r, t)
    decreases |s|
  {
    if |s| > 0 {
      if t <= s {
        UndoReplace(s[|t|..], t, r);
        UndoAtTarget(s, t, r);
      } else if r <= s {
        UndoReplace(s[|r|..], t, r);
        UndoAtReplacement(s, t, r);
      } else {
        UndoReplace(s[1..], t, r);
        UndoElsewhere(s, t, r);
      }
    }
  }

  /** The rewrite is idempotent, so an existing `"/{contentPath}` never gets
      a second slash. */
  lemma FixIdempotent(s: string)
    ensures FixContentPath(FixContentPath(s)) == FixContentPath(s)
  {
    ReplaceIdentity(FixContentPath(s), Bare, Slashed);
  }

  /** Removing the slash of every `"/{contentPath}` gives the same text
      before and after the rewrite. */
  lemma UnfixFix(s: string)
    ensures UnfixContentPath(FixContentPath(s)) == UnfixContentPath(s)
  {
    UndoReplace(s, Bare, Slashed);
  }

  /** Text with no `"/{contentPath}` of its own is recovered from the
      rewritten text by removing the inserted slashes: every other character
      is kept, in order. */
  lemma FixRoundTrip(s: string)
    requires CountAt(s, Slashed) == 0
    ensures UnfixContentPath(FixContentPath(s)) == s
  {
    UnfixFix(s);
    ReplaceIdentity(s, Slashed, Bare);
  }

  // ---------------------------------------------------------------------
  // Suffix resolution: `findMatchingPathNode`
  // ---------------------------------------------------------------------

  /** What the regex `.+` can consume: characters other than line terminators. */
  predicate NoLineTerminator(s: string) {
    forall i :: 0 <= i < |s| ==> !Strings.IsLineTerminator(s[i])
  }

  /** `Pattern.compile("^.+/" + Pattern.quote(suffix) + ".json$").matcher(path).matches()`.
      The suffix is literal text, but the `.` before `json` is an unescaped
      regex dot: any one character except a line terminator. Everything after
      `.+` has a fixed length, so each part sits at a fixed distance from the
      end of the key. */
  predicate PathMatchesSuffix(path: string, suffix: string) {
    var n := |path|;
    var k := |suffix|;
    && n >= k + 7
    && path[n - 4..] == "json"
    && !Strings.IsLineTerminator(path[n - 5])
    && path[n - 5 - k..n - 5] == suffix
    && path[n - 6 - k] == '/'
    && NoLineTerminator(path[..n - 6 - k])
  }

  /** The shape the pattern describes: a non-empty head, a slash, the
      suffix, one wildcard character and `json`. */
  predicate KeyShape(path: string, head: string, suffix: string, c: char) {
    && |head| > 0
    && NoLineTerminator(head)
    && !Strings.IsLineTerminator(c)
    && path == head + "/" + suffix + [c] + "json"
  }

  /** The positional test decides exactly the language of the pattern. */
  lemma SuffixMatchIff(path: string, suffix: string)
    ensures PathMatchesSuffix(path, suffix) <==> exists head: string, c: char :: KeyShape(path, head, suffix, c)
  {
    var n := |path|;
    var k := |suffix|;
    if PathMatchesSuffix(path, suffix) {
      var head := path[..n - 6 - k];
      var c := path[n - 5];
      assert path == head + "/" + suffix + [c] + "json" by {
        assert path == path[..n - 6 - k] + path[n - 6 - k..n - 5 - k] + path[n - 5 - k..n - 5] + path[n - 5..n - 4] + path[n - 4..];
      }
      assert KeyShape(path, head, suffix, c);
    }
    if exists head: string, c: char :: KeyShape(path, head, suffix, c) {
      var head: string, c: char :| KeyShape(path, head, suffix, c);
      var h := |head|;
      assert n == h + k + 6;
      assert path[..n - 6 - k] == head;
      assert path[n - 6 - k] == '/';
      assert path[n - 5 - k..n - 5] == suffix;
      assert path[n - 5] == c;
      assert path[n - 4..] == "json";
    }
  }

  /** A key spelled out with `.json` after the suffix matches. */
  lemma SuffixMatchesIndexKey()
    ensures PathMatchesSuffix("/a/{x}/index.json", "index")
  {
    assert KeyShape("/a/{x}/index.json", "/a/{x}", "index", '.');
    SuffixMatchIff("/a/{x}/index.json", "index");
  }

  lemma SuffixMatchesDetailKey()
    ensures PathMatchesSuffix("/b/{y}/detail.json", "detail")
  {
    assert KeyShape("/b/{y}/detail.json", "/b/{y}", "detail", '.');
    SuffixMatchIff("/b/{y}/detail.json", "detail");
  }

  /** The dot is a wildcard: any other character in its place matches too. */
  lemma SuffixDotIsWildcard()
    ensures PathMatchesSuffix("/content/page/index_json", "index")
  {
    assert KeyShape("/content/page/index_json", "/content/page", "index", '_');
    SuffixMatchIff("/content/page/index_json", "index");
  }

  /** Another suffix in the same place does not match. */
  lemma SuffixOtherDoesNotMatch()
    ensures !PathMatchesSuffix("/a/{x}/index.json", "detail")
  {
    var p := "/a/{x}/index.json";
    assert p[6] == '/';
  }

  /** `.+` needs at least one character before the slash. */
  lemma SuffixNeedsPrefix()
    ensures !PathMatchesSuffix("/index.json", "index")
  {
  }

  /** `$` anchors the match at the end of the key. */
  lemma SuffixAnchoredAtEnd()
    ensures !PathMatchesSuffix("/a/index.json.html", "index")
  {
    var p := "/a/index.json.html";
    assert p[|p| - 4] == 'h';
  }

  /** The fields of the top-level `paths` object in document order; none when
      it is absent or not an object (its `fieldNames()` is then empty). */
  function PathEntries(root: Json): (r: seq<(string, Json)>)
    ensures r != [] ==> root.JObject? && Field(root.fields, "paths") == Some(JObject(r))
    ensures !root.JObject? || Field(root.fields, "paths").None? ==> r == []
    ensures root.JObject? && Field(root.fields, "paths").Some? && !Field(root.fields, "paths").value.JObject? ==> r == []
    ensures root.JObject? && Field(root.fields, "paths").Some? && Field(root.fields, "paths").value.JObject? ==>
              r == Field(root.fields, "paths").value.fields
  {
    match root
    case JObject(fields) =>
      (match Field(fields, "paths")
       case Some(JObject(entries)) => entries
       case _ => [])
    case _ => []
  }

  /** Entry `i` is the first whose key matches the suffix. */
  predicate FirstMatchingEntry(entries: seq<(string, Json)>, suffix: string, i: nat) {
    && i < |entries|
    && PathMatchesSuffix(entries[i].0, suffix)
    && forall j :: 0 <= j < i ==> !PathMatchesSuffix(entries[j].0, suffix)
  }

  /** The loop over `fieldNames()`, continued from index `from`. */
  function FirstMatchFrom(entries: seq<(string, Json)>, suffix: string, from: nat): (r: Option<nat>)
    requires from <= |entries|
    requires forall j :: 0 <= j < from ==> !PathMatchesSuffix(entries[j].0, suffix)
    ensures r.Some? ==> FirstMatchingEntry(entries, suffix, r.value)
    ensures r.None? <==> forall j :: 0 <= j < |entries| ==> !PathMatchesSuffix(entries[j].0, suffix)
    decreases |entries| - from
  {
    if from == |entries| then None
    else if PathMatchesSuffix(entries[from].0, suffix) then Some(from)
    else FirstMatchFrom(entries, suffix, from + 1)
  }

  /** `findMatchingPathNode`: the definition under the first path key that
      matches, or nothing when no key matches or `paths` is missing. */
  function FindMatchingPathNode(root: Json, suffix: string): (r: Option<Json>)
    ensures r.None? <==> forall j :: 0 <= j < |PathEntries(root)| ==> !PathMatchesSuffix(PathEntries(root)[j].0, suffix)
    ensures r.Some? ==> exists i: nat :: FirstMatchingEntry(PathEntries(root), suffix, i) && r.value == PathEntries(root)[i].1
  {
    var entries := PathEntries(root);
    match FirstMatchFrom(entries, suffix, 0)
    case Some(i) => Some(entries[i].1)
    case None => None
  }

  // ---------------------------------------------------------------------
  // Schema extraction and validator construction: `buildSchemaValidator`
  // ---------------------------------------------------------------------

  /** `~1` encodes the `/` of `application/json` (section 4 of RFC 6901). */
  const SchemaPointer: string := "/get/responses/200/content/application~1json/schema"
  const SchemaTokens: seq<string> := ["get", "responses", "200", "content", "application/json", "schema"]

  /** A token without `~` decodes to itself, whatever follows it. */
  lemma {:induction false} UnescapePlain(p: string, t: string)
    requires '~' !in p
    ensures Unescape(p + t) == p + Unescape(t)
  {
    if |p| > 0 {
      assert (p + t)[0] == p[0];
      assert (p + t)[1..] == p[1..] + t;
      assert '~' !in p[1..];
      UnescapePlain(p[1..], t);
      assert [p[0]] + p[1..] == p;
    } else {
      assert p + t == t;
    }
  }

  lemma UnescapeToken(t: string)
    requires '~' !in t
    ensures Unescape(t) == t
  {
    UnescapePlain(t, "");
    assert t + "" == t;
  }

  const RawSchemaTokens: seq<string> := ["get", "responses", "200", "content", "application~1json", "schema"]

  // The pointer text in pieces short enough to compare character by character.
  const PointerBody: string := "get/responses/200/content/application~1json/schema"
  const PointerHead: string := "get/responses/200/content"
  const SlashedHead: string := "/get/responses/200/content"
  const PointerTail: string := "application~1json/schema"

  lemma PointerPieces()
    ensures SchemaPointer == SlashedHead + "/" + PointerTail
    ensures SlashedHead == "/" + PointerHead
  {
    SlashedHeadPieces();
  }

  lemma SlashedHeadPieces()
    ensures SlashedHead == "/" + PointerHead
  {
  }

  lemma PointerBodyPieces()
    ensures PointerBody == PointerHead + "/" + PointerTail
  {
  }

  lemma PointerSegmentPieces()
    ensures PointerHead == "get" + "/" + ("responses" + "/" + ("200" + "/" + "content"))
    ensures PointerTail == "application~1json" + "/" + "schema"
  {
  }

  lemma SchemaPointerBody()
    ensures SchemaPointer[1..] == PointerBody
  {
    PointerPieces();
    PointerBodyPieces();
    var h, t, b := PointerHead, PointerTail, PointerBody;
    assert "/" + h + "/" + t == "/" + (h + "/" + t);
    assert ("/" + b)[1..] == b;
  }

  /** Splitting a `/`-free segment followed by a slash and more text. */
  lemma SplitSegment(x: string, t: string)
    requires '/' !in x
    ensures Strings.Split(x + "/" + t, '/') == [x] + Strings.Split(t, '/')
  {
    Strings.SplitAfterPart(x, t, '/');
  }

  /** Six `/`-free segments joined with `/` split back into those six. */
  lemma SplitSix(a: string, b: string, c: string, d: string, e: string, f: string)
    requires '/' !in a && '/' !in b && '/' !in c && '/' !in d && '/' !in e && '/' !in f
    ensures Strings.Split(a + "/" + (b + "/" + (c + "/" + (d + "/" + (e + "/" + f)))), '/') == [a, b, c, d, e, f]
  {
    var s4 := e + "/" + f;
    var s3 := d + "/" + s4;
    var s2 := c + "/" + s3;
    var s1 := b + "/" + s2;
    Strings.SplitWithoutSeparator(f, '/');
    SplitSegment(e, f);
    assert Strings.Split(s4, '/') == [e, f];
    SplitSegment(d, s4);
    assert Strings.Split(s3, '/') == [d, e, f];
    SplitSegment(c, s3);
    assert Strings.Split(s2, '/') == [c, d, e, f];
    SplitSegment(b, s2);
    assert Strings.Split(s1, '/') == [b, c, d, e, f];
    SplitSegment(a, s1);
  }

  /** Re-nesting a `/`-joined head with one more segment. */
  lemma NestSegment(g: string, r: string, n: string, c: string, t: string)
    ensures (g + "/" + (r + "/" + (n + "/" + c))) + "/" + t == g + "/" + (r + "/" + (n + "/" + (c + "/" + t)))
  {
  }

  /** The pointer body as six segments joined with `/`. */
  lemma PointerBodySegments()
    ensures PointerBody == "get" + "/" + ("responses" + "/" + ("200" + "/" + ("content" + "/" + ("application~1json" + "/" + "schema"))))
  {
    PointerBodyPieces();
    PointerSegmentPieces();
    NestSegment("get", "responses", "200", "content", PointerTail);
  }

  /** The pointer text after its leading `/` splits into six raw tokens. */
  lemma SchemaPointerSegments()
    ensures Strings.Split(SchemaPointer[1..], '/') == RawSchemaTokens
  {
    SchemaPointerBody();
    PointerBodySegments();
    SplitSix("get", "responses", "200", "content", "application~1json", "schema");
  }

  /** `~1` decodes to the slash of the media type. */
  lemma MediaTypeToken()
    ensures Unescape("application~1json") == "application/json"
  {
    UnescapeToken("json");
    var e := "~1json";
    assert e[0] == '~' && e[1] == '1' && e[2..] == "json";
    assert Unescape(e) == "/" + "json";
    UnescapePlain("application", e);
    assert "application" + e == "application~1json";
    assert "application" + ("/" + "json") == "application/json";
  }

  /** A pointer of six segments decodes segment by segment. */
  lemma ParseSixSegments(p: string, a: string, b: string, c: string, d: string, e: string, f: string,
                         a': string, b': string, c': string, d': string, e': string, f': string)
    requires p != "" && p[0] == '/'
    requires Strings.Split(p[1..], '/') == [a, b, c, d, e, f]
    requires Unescape(a) == a' && Unescape(b) == b' && Unescape(c) == c'
    requires Unescape(d) == d' && Unescape(e) == e' && Unescape(f) == f'
    ensures ParsePointer(p) == Some([a', b', c', d', e', f'])
  {
    assert UnescapeAll([a, b, c, d, e, f]) == [a', b', c', d', e', f'];
  }

  lemma SchemaPointerStart()
    ensures SchemaPointer != "" && SchemaPointer[0] == '/'
  {
    PointerPieces();
    var h := PointerHead;
    assert ("/" + h)[0] == '/';
  }

  /** The keys without `~` decode to themselves. */
  lemma PlainTokensDecode()
    ensures Unescape("get") == "get" && Unescape("responses") == "responses" && Unescape("200") == "200"
  {
    UnescapeToken("get");
    UnescapeToken("responses");
    UnescapeToken("200");
  }

  lemma PlainTokensDecodeTail()
    ensures Unescape("content") == "content" && Unescape("schema") == "schema"
  {
    UnescapeToken("content");
    UnescapeToken("schema");
  }

  /** The fixed pointer decodes to the GET operation's 200 response, its
      `application/json` content and that content's `schema`. */
  lemma SchemaPointerTokens()
    ensures ParsePointer(SchemaPointer) == Some(SchemaTokens)
  {
    SchemaPointerSegments();
    SchemaPointerStart();
    PlainTokensDecode();
    PlainTokensDecodeTail();
    MediaTypeToken();
    ParseSixSegments(SchemaPointer, "get", "responses", "200", "content", "application~1json", "schema",
                     "get", "responses", "200", "content", "application/json", "schema");
  }

  /** Single-field objects nested along `keys`, with `leaf` at the bottom. */
  function Nest(keys: seq<string>, leaf: Json): Json {
    if |keys| == 0 then leaf else JObject([(keys[0], Nest(keys[1..], leaf))])
  }

  /** Following the keys of a nest leads to its leaf. */
  lemma {:induction false} NavigateNest(keys: seq<string>, leaf: Json)
    ensures Navigate(Nest(keys, leaf), keys) == Some(leaf)
  {
    if |keys| > 0 {
      NavigateNest(keys[1..], leaf);
      assert Field([(keys[0], Nest(keys[1..], leaf))], keys[0]) == Some(Nest(keys[1..], leaf));
    }
  }

  /** A minimal path item whose GET 200 `application/json` response has `schema`. */
  function ResponseSchemaItem(schema: Json): Json {
    Nest(SchemaTokens, schema)
  }

  /** The pointer finds the schema placed in a path item. */
  lemma SchemaOfResponseItem(schema: Json)
    ensures At(ResponseSchemaItem(schema), SchemaPointer) == Some(schema)
  {
    SchemaPointerTokens();
    NavigateNest(SchemaTokens, schema);
  }

  function NoPathMessage(suffix: string): string {
    "No matching path definition found for suffix: " + suffix
  }

  function NoSchemaMessage(suffix: string): string {
    "No matching JSON schema definition at: " + SchemaPointer + ", suffix: " + suffix
  }

  /** `buildSchemaValidator`: resolves the suffix to the first matching path,
      reads its response schema and binds it, with the whole document as
      reference context, to a validator for the suffix. */
  function BuildSchemaValidator(root: Json, suffix: string): (r: Result<Validator>)
    ensures r.Err? ==> r.error == NoMatchingPath(NoPathMessage(suffix)) || r.error == NoSchemaDefinition(NoSchemaMessage(suffix))
    ensures r.Err? && r.error.NoMatchingPath? <==> FindMatchingPathNode(root, suffix).None?
    ensures r.Err? && r.error.NoSchemaDefinition? <==>
              FindMatchingPathNode(root, suffix).Some? && At(FindMatchingPathNode(root, suffix).value, SchemaPointer).None?
    ensures r.Ok? ==> && FindMatchingPathNode(root, suffix).Some?
                      && At(FindMatchingPathNode(root, suffix).value, SchemaPointer) == Some(r.value.schema)
                      && r.value.suffix == suffix
                      && r.value.context == root
  {
    match FindMatchingPathNode(root, suffix)
    case None => Err(NoMatchingPath(NoPathMessage(suffix)))
    case Some(item) =>
      match At(item, SchemaPointer)
      case None => Err(NoSchemaDefinition(NoSchemaMessage(suffix)))
      case Some(schema) => Ok(OpenApiSchemaValidator.Validator(suffix, root, schema))
  }

  /** A document with two endpoints, one per suffix. */
  function ExampleRoot(s1: Json, s2: Json): Json {
    JObject([("paths", JObject([
      ("/a/{x}/index.json", ResponseSchemaItem(s1)),
      ("/b/{y}/detail.json", ResponseSchemaItem(s2))]))])
  }

  lemma ExampleEntries(s1: Json, s2: Json)
    ensures PathEntries(ExampleRoot(s1, s2))
         == [("/a/{x}/index.json", ResponseSchemaItem(s1)), ("/b/{y}/detail.json", ResponseSchemaItem(s2))]
  {
  }

  /** With two path keys, the first one that matches decides. */
  lemma FirstOfTwoPaths(root: Json, k1: string, v1: Json, k2: string, v2: Json, suffix: string)
    requires PathEntries(root) == [(k1, v1), (k2, v2)]
    ensures FindMatchingPathNode(root, suffix)
         == if PathMatchesSuffix(k1, suffix) then Some(v1)
            else if PathMatchesSuffix(k2, suffix) then Some(v2)
            else None
  {
    var e := PathEntries(root);
    if !PathMatchesSuffix(k1, suffix) {
      assert FirstMatchFrom(e, suffix, 0) == FirstMatchFrom(e, suffix, 1);
    }
  }

  /** Each suffix resolves to the schema of its own path. */
  lemma ResolutionExampleIndex(s1: Json, s2: Json)
    ensures BuildSchemaValidator(ExampleRoot(s1, s2), "index")
         == Ok(OpenApiSchemaValidator.Validator("index", ExampleRoot(s1, s2), s1))
  {
    ExampleEntries(s1, s2);
    SuffixMatchesIndexKey();
    FirstOfTwoPaths(ExampleRoot(s1, s2), "/a/{x}/index.json", ResponseSchemaItem(s1),
                    "/b/{y}/detail.json", ResponseSchemaItem(s2), "index");
    SchemaOfResponseItem(s1);
  }

  lemma ResolutionExampleDetail(s1: Json, s2: Json)
    ensures BuildSchemaValidator(ExampleRoot(s1, s2), "detail")
         == Ok(OpenApiSchemaValidator.Validator("detail", ExampleRoot(s1, s2), s2))
  {
    ExampleEntries(s1, s2);
    SuffixOtherDoesNotMatch();
    SuffixMatchesDetailKey();
    FirstOfTwoPaths(ExampleRoot(s1, s2), "/a/{x}/index.json", ResponseSchemaItem(s1),
                    "/b/{y}/detail.json", ResponseSchemaItem(s2), "detail");
    SchemaOfResponseItem(s2);
  }

  lemma MissingMatchesNeither()
    ensures !PathMatchesSuffix("/a/{x}/index.json", "missing")
  {
    var a := "/a/{x}/index.json";
    assert a[5] == '}';
  }

  lemma MissingMatchesNeitherDetail()
    ensures !PathMatchesSuffix("/b/{y}/detail.json", "missing")
  {
    var b := "/b/{y}/detail.json";
    assert b[6] == '/';
  }

  /** An unknown suffix is rejected with the no-matching-path error. */
  lemma ResolutionExampleMissing(s1: Json, s2: Json)
    ensures BuildSchemaValidator(ExampleRoot(s1, s2), "missing") == Err(NoMatchingPath(NoPathMessage("missing")))
  {
    ExampleEntries(s1, s2);
    MissingMatchesNeither();
    MissingMatchesNeitherDetail();
    FirstOfTwoPaths(ExampleRoot(s1, s2), "/a/{x}/index.json", ResponseSchemaItem(s1),
                    "/b/{y}/detail.json", ResponseSchemaItem(s2), "missing");
  }

  // ---------------------------------------------------------------------
  // The document and its validator cache: `getSchemaValidator`
  // ---------------------------------------------------------------------

  /** A loaded specification. `validators` is the suffix-to-validator cache. */
  datatype SpecDoc = SpecDoc(url: string, version: string, root: Json, validators: map<string, Validator>)

  /** Every cached validator is the one a fresh build would give. */
  ghost predicate CacheCoherent(doc: SpecDoc) {
    forall s :: s in doc.validators ==> BuildSchemaValidator(doc.root, s) == Ok(doc.validators[s])
  }

  /** `validators.computeIfAbsent(suffix, this::buildSchemaValidator)`: a
      cached validator is returned as it is; otherwise the validator is built
      and cached, and a failed build caches nothing. Returns the outcome and
      the document with its updated cache. */
  function GetSchemaValidator(doc: SpecDoc, suffix: string): (out: (Result<Validator>, SpecDoc))
    ensures out.1.url == doc.url && out.1.version == doc.version && out.1.root == doc.root
    ensures suffix in doc.validators ==> out == (Ok(doc.validators[suffix]), doc)
    ensures out.0.Ok? ==> out.1.validators == doc.validators[suffix := out.0.value]
    ensures out.0.Err? ==> out.1 == doc && suffix !in doc.validators
    ensures suffix !in doc.validators ==> out.0 == BuildSchemaValidator(doc.root, suffix)
  {
    if suffix in doc.validators then (Ok(doc.validators[suffix]), doc)
    else
      match BuildSchemaValidator(doc.root, suffix)
      case Ok(v) => (Ok(v), doc.(validators := doc.validators[suffix := v]))
      case Err(e) => (Err(e), doc)
  }

  /** Memoisation is invisible: on a coherent cache the answer is what a
      fresh build gives, the cache stays coherent, and a validator answers to
      the suffix it was asked for. */
  lemma GetSchemaValidatorCoherent(doc: SpecDoc, suffix: string)
    requires CacheCoherent(doc)
    ensures GetSchemaValidator(doc, suffix).0 == BuildSchemaValidator(doc.root, suffix)
    ensures CacheCoherent(GetSchemaValidator(doc, suffix).1)
    ensures GetSchemaValidator(doc, suffix).0.Ok? ==> OpenApiSchemaValidator.GetSuffix(GetSchemaValidator(doc, suffix).0.value) == suffix
  {
    var (r, d) := GetSchemaValidator(doc, suffix);
    if suffix !in doc.validators && r.Ok? {
      forall s | s in d.validators
        ensures BuildSchemaValidator(d.root, s) == Ok(d.validators[s])
      {
        if s != suffix {
          assert d.validators[s] == doc.validators[s];
        }
      }
    }
  }

  /** Asking twice for the same suffix gives the same answer, and the second
      call leaves the document as the first one left it. */
  lemma GetSchemaValidatorTwice(doc: SpecDoc, suffix: string)
    ensures var (r1, d1) := GetSchemaValidator(doc, suffix);
            var (r2, d2) := GetSchemaValidator(d1, suffix);
            r2 == r1 && d2 == d1
  {
  }

  // ---------------------------------------------------------------------
  // Loading: the constructor, `readFileContent` and `validateSpec`
  // ---------------------------------------------------------------------

  /** What reading the URL produced. */
  datatype Fetched =
    | Content(text: string)
    /** `url.openStream()` returned null. */
    | NoStream
    /** An `IOException` with this message. */
    | ReadFailure(message: string)

  /** Result of the YAML parser. */
  datatype Parsed = Parsed(tree: Json) | Unparsable(message: string)

  /** Result of `validateSpec`'s two library calls: `convertValue` to the
      OAS3 object model failing with a message, or `OpenApi3Validator.validate`
      passing or throwing with a summary and the text of every validation item. */
  datatype StructuralReport =
    | Conforms
    | Violations(summary: string, items: seq<string>)
    | ConversionFailure(message: string)

  type YamlParser = string -> Parsed
  type ContextResolver = (string, Json) -> Option<string>
  type StructureCheck = Json -> StructuralReport

  function LoadFailureMessage(url: string, cause: string): string {
    "Unable to load specification " + url + ": " + cause
  }

  /** The `StringBuilder` loop of `validateSpec`: each item goes on its own
      line after what has been collected so far. */
  function AppendLines(acc: string, items: seq<string>): (r: string)
    ensures r == Strings.Join([acc] + items, '\n')
    decreases |items|
  {
    if |items| == 0 then acc
    else
      var r := AppendLines(acc + "\n" + items[0], items[1..]);
      Strings.JoinMergeFirst(acc, items[0], items[1..], '\n');
      assert [acc, items[0]] + items[1..] == [acc] + items;
      r
  }

  function SpecInvalidPrefix(url: string): string {
    "Specification is invalid: " + url + " - "
  }

  /** The message of the `SpecInvalidException` that `validateSpec` throws. */
  function SpecInvalidMessage(url: string, summary: string, items: seq<string>): string {
    SpecInvalidPrefix(url) + AppendLines(summary, items)
  }

  /** The message carries the summary and then every item, each on its own
      line and in order: split at the newlines, it gives them back. */
  lemma SpecInvalidMessageLists(url: string, summary: string, items: seq<string>)
    requires '\n' !in summary
    requires forall i :: 0 <= i < |items| ==> '\n' !in items[i]
    ensures var m := SpecInvalidMessage(url, summary, items);
            Strings.Split(m[|SpecInvalidPrefix(url)|..], '\n') == [summary] + items
  {
    var m := SpecInvalidMessage(url, summary, items);
    assert m[|SpecInvalidPrefix(url)|..] == Strings.Join([summary] + items, '\n');
    Strings.SplitJoin([summary] + items, '\n');
  }

  /** The constructor `OpenApiSpec(URL, String)`: read and rewrite the text,
      parse it, build the reference context and check the structure. A
      document exists only when every step succeeded; it starts with an empty
      cache. */
  function Load(url: string, fetched: Fetched, version: string,
                parseYaml: YamlParser, resolve: ContextResolver, checkStructure: StructureCheck): (r: Result<SpecDoc>)
    ensures fetched.NoStream? ==> r == Err(FileNotFound("File does not exist: " + url))
    ensures fetched.ReadFailure? ==> r == Err(SpecInvalid(LoadFailureMessage(url, fetched.message)))
    ensures r.Ok? <==>
              && fetched.Content?
              && parseYaml(FixContentPath(fetched.text)).Parsed?
              && resolve(url, parseYaml(FixContentPath(fetched.text)).tree).None?
              && checkStructure(parseYaml(FixContentPath(fetched.text)).tree).Conforms?
    ensures r.Ok? ==> r.value == SpecDoc(url, version, parseYaml(FixContentPath(fetched.text)).tree, map[])
    ensures r.Ok? ==> CacheCoherent(r.value)
    ensures r.Err? ==> r.error.FileNotFound? || r.error.SpecInvalid? || r.error.Unconvertible?
    ensures fetched.Content? && parseYaml(FixContentPath(fetched.text)).Unparsable? ==>
              r == Err(SpecInvalid(LoadFailureMessage(url, parseYaml(FixContentPath(fetched.text)).message)))
    ensures fetched.Content? && parseYaml(FixContentPath(fetched.text)).Parsed? ==>
              var tree := parseYaml(FixContentPath(fetched.text)).tree;
              resolve(url, tree).Some? ==> r == Err(SpecInvalid(LoadFailureMessage(url, resolve(url, tree).value)))
    ensures fetched.Content? && parseYaml(FixContentPath(fetched.text)).Parsed? ==>
              var tree := parseYaml(FixContentPath(fetched.text)).tree;
              resolve(url, tree).None? && checkStructure(tree).Violations? ==>
                r == Err(SpecInvalid(SpecInvalidMessage(url, checkStructure(tree).summary, checkStructure(tree).items)))
    ensures fetched.Content? && parseYaml(FixContentPath(fetched.text)).Parsed? ==>
              var tree := parseYaml(FixContentPath(fetched.text)).tree;
              resolve(url, tree).None? && checkStructure(tree).ConversionFailure? ==>
                r == Err(Unconvertible(checkStructure(tree).message))
  {
    match fetched
    case NoStream => Err(FileNotFound("File does not exist: " + url))
    case ReadFailure(m) => Err(SpecInvalid(LoadFailureMessage(url, m)))
    case Content(text) =>
      match parseYaml(FixContentPath(text))
      case Unparsable(m) => Err(SpecInvalid(LoadFailureMessage(url, m)))
      case Parsed(root) =>
        match resolve(url, root)
        case Some(m) => Err(SpecInvalid(LoadFailureMessage(url, m)))
        case None =>
          match checkStructure(root)
          case ConversionFailure(m) => Err(Unconvertible(m))
          case Violations(summary, items) => Err(SpecInvalid(SpecInvalidMessage(url, summary, items)))
          case Conforms => Ok(SpecDoc(url, version, root, map[]))
  }
}
