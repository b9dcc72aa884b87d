/** `OpenApiSpecVersions`: the registry of specification files found at a
    resource path. Each file whose name matches the filename pattern is
    registered under the version its last capture group names; versions are
    kept in a sorted set and each maps to the location of its file.

    Scanning the class path and matching a `java.util.regex.Pattern` enter
    as parameters:
    - `resources` is what the class-path scan found at the path, in scan order;
    - `matcher(filename)` is `pattern.matcher(filename).matches()`, giving the
      capture groups `1..groupCount()` (`None` for a group that did not take
      part) when the whole name matches. */
module OpenApiSpecVersions {
  import opened Results
  import Strings
  import NaturalOrder
  import OpenApiSpec

  const DefaultResourcePath: string := "site-api-spec"
  /** The text of the default pattern, as `Pattern.toString()` renders it. */
  const DefaultFilenamePatternText: string := "site-api(-(\\w+))?.yaml"

  /** A resource the scan found: its path inside the class path and its URL. */
  datatype Resource = Resource(path: string, url: string)

  /** Capture groups `1..groupCount()` of a whole-name match, or `None` when the name does not match. */
  type FilenameMatcher = string -> Option<seq<Option<string>>>

  /** Reads the specification a URL points to. */
  type Fetcher = string -> OpenApiSpec.Fetched

  // ---------------------------------------------------------------------
  // File names and versions
  // ---------------------------------------------------------------------

  /** The separators `FilenameUtils` recognises on every platform. */
  predicate IsSeparator(c: char) {
    c == '/' || c == '\\'
  }

  /** `FilenameUtils.getName`: the part of the path after its last separator. */
  function FileName(path: string): (r: string)
    ensures |r| <= |path| && path[|path| - |r|..] == r
  {
    if |path| == 0 || IsSeparator(path[|path| - 1]) then ""
    else FileName(path[..|path| - 1]) + [path[|path| - 1]]
  }

  /** The file name ends the path and holds no separator. */
  lemma {:induction false} FileNameIsTail(path: string)
    ensures |FileName(path)| <= |path| && path[|path| - |FileName(path)|..] == FileName(path)
    ensures forall i :: 0 <= i < |FileName(path)| ==> !IsSeparator(FileName(path)[i])
    decreases |path|
  {
    if |path| > 0 && !IsSeparator(path[|path| - 1]) {
      var init := path[..|path| - 1];
      var c := path[|path| - 1];
      FileNameIsTail(init);
      var r0 := FileName(init);
      assert FileName(path) == r0 + [c];
      assert path[|path| - |r0| - 1..] == init[|init| - |r0|..] + [c];
    }
  }

  /** The file name is the whole path or follows a separator: it is the
      longest separator-free tail. */
  lemma {:induction false} FileNameAfterLastSeparator(path: string)
    ensures |FileName(path)| < |path| ==> IsSeparator(path[|path| - |FileName(path)| - 1])
    decreases |path|
  {
    if |path| > 0 && !IsSeparator(path[|path| - 1]) {
      var init := path[..|path| - 1];
      FileNameAfterLastSeparator(init);
      var r0 := FileName(init);
      assert |FileName(path)| == |r0| + 1;
      if |r0| < |init| {
        assert path[|path| - |r0| - 2] == init[|init| - |r0| - 1];
      }
    }
  }

  /** `StringUtils.defaultString(matcher.group(matcher.groupCount()))`. With
      no capture group at all, `group(0)` is the whole file name. */
  function VersionOf(filename: string, groups: seq<Option<string>>): (r: string)
    ensures |groups| == 0 ==> r == filename
    ensures |groups| > 0 && groups[|groups| - 1].None? ==> r == ""
    ensures |groups| > 0 && groups[|groups| - 1].Some? ==> r == groups[|groups| - 1].value
  {
    if |groups| == 0 then filename else groups[|groups| - 1].GetOr("")
  }

  /** The version a resource registers under, or `None` when its name does not match. */
  function ResourceVersion(res: Resource, matcher: FilenameMatcher): (r: Option<string>)
    ensures r.Some? <==> matcher(FileName(res.path)).Some?
    ensures r.Some? ==> r.value == VersionOf(FileName(res.path), matcher(FileName(res.path)).value)
  {
    var name := FileName(res.path);
    match matcher(name)
    case Some(groups) => Some(VersionOf(name, groups))
    case None => None
  }

  // ---------------------------------------------------------------------
  // The default filename pattern `site-api(-(\w+))?.yaml`
  // ---------------------------------------------------------------------

  predicate WordChars(w: string) {
    forall i :: 0 <= i < |w| ==> Strings.IsWordChar(w[i])
  }

  /** The optional group `(-(\w+))?` matches exactly this text. */
  predicate VersionPart(x: string) {
    x == "" || (|x| >= 2 && x[0] == '-' && WordChars(x[1..]))
  }

  /** `DEFAULT_FILENAME_PATTERN.matcher(name).matches()` with its two groups.
      Everything but the optional group has a fixed length, so the group is
      the text between `site-api` and the last five characters; the unescaped
      `.` before `yaml` is any character except a line terminator. */
  function DefaultFilenameGroups(name: string): (r: Option<seq<Option<string>>>)
    ensures r.Some? ==> |r.value| == 2
  {
    var n := |name|;
    if n < 13 || name[..8] != "site-api" || name[n - 4..] != "yaml" || Strings.IsLineTerminator(name[n - 5]) then None
    else
      var x := name[8..n - 5];
      if x == "" then Some([None, None])
      else if VersionPart(x) then Some([Some(x), Some(x[1..])])
      else None
  }

  /** The shape the default pattern describes. */
  predicate DefaultShape(name: string, x: string, c: char) {
    && VersionPart(x)
    && !Strings.IsLineTerminator(c)
    && name == "site-api" + x + [c] + "yaml"
  }

  /** The positional test decides exactly the language of the default pattern. */
  lemma DefaultFilenameIff(name: string)
    ensures DefaultFilenameGroups(name).Some? <==> exists x: string, c: char :: DefaultShape(name, x, c)
  {
    var n := |name|;
    if DefaultFilenameGroups(name).Some? {
      var x := name[8..n - 5];
      var c := name[n - 5];
      assert name == name[..8] + name[8..n - 5] + name[n - 5..n - 4] + name[n - 4..];
      assert DefaultShape(name, x, c);
    }
    if exists x: string, c: char :: DefaultShape(name, x, c) {
      var x: string, c: char :| DefaultShape(name, x, c);
      assert n == |x| + 13;
      assert name[..8] == "site-api";
      assert name[8..n - 5] == x;
      assert name[n - 5] == c;
      assert name[n - 4..] == "yaml";
    }
  }

  /** The version the default pattern reads from a name of its shape: empty
      without the optional group, otherwise the word after the dash. */
  lemma DefaultVersionOfShape(name: string, x: string, c: char)
    requires DefaultShape(name, x, c)
    ensures DefaultFilenameGroups(name).Some?
    ensures VersionOf(name, DefaultFilenameGroups(name).value) == if x == "" then "" else x[1..]
  {
    var n := |name|;
    assert name[..8] == "site-api";
    assert name[8..n - 5] == x;
    assert name[n - 5] == c;
    assert name[n - 4..] == "yaml";
  }

  /** `site-api-<w>.yaml` registers as version `w`, for every word `w`. */
  lemma DefaultVersionRoundTrip(w: string)
    requires |w| > 0 && WordChars(w)
    ensures DefaultFilenameGroups("site-api-" + w + ".yaml").Some?
    ensures VersionOf("site-api-" + w + ".yaml", DefaultFilenameGroups("site-api-" + w + ".yaml").value) == w
  {
    var x := "-" + w;
    assert x[1..] == w;
    assert "site-api-" + w + ".yaml" == "site-api" + x + ['.'] + "yaml";
    DefaultVersionOfShape("site-api-" + w + ".yaml", x, '.');
  }

  /** The unversioned file registers as the empty version. */
  lemma DefaultVersionUnversioned()
    ensures DefaultFilenameGroups("site-api.yaml") == Some([None, None])
    ensures VersionOf("site-api.yaml", [None, None]) == ""
  {
    DefaultVersionOfShape("site-api.yaml", "", '.');
  }

  /** `site-api-v1.yaml` registers as `v1`. */
  lemma DefaultVersionV1()
    ensures DefaultFilenameGroups("site-api-v1.yaml").Some?
    ensures VersionOf("site-api-v1.yaml", DefaultFilenameGroups("site-api-v1.yaml").value) == "v1"
  {
    DefaultVersionRoundTrip("v1");
    assert "site-api-" + "v1" + ".yaml" == "site-api-v1.yaml";
  }

  /** A dash without a word after it does not match. */
  lemma DefaultRejectsBareDash()
    ensures DefaultFilenameGroups("site-api-.yaml").None?
  {
    var name := "site-api-.yaml";
    assert name[8..9] == "-";
  }

  // ---------------------------------------------------------------------
  // The registry
  // ---------------------------------------------------------------------

  /** The sorted version set and the version-to-URL map. */
  datatype Registry = Registry(versions: seq<string>, urls: map<string, string>)

  /** The versions are sorted without duplicates, and exactly the registered
      versions have a URL. */
  ghost predicate Consistent(reg: Registry) {
    && NaturalOrder.StrictlySorted(reg.versions)
    && forall v :: v in reg.versions <==> v in reg.urls
  }

  /** What construction guarantees: consistent and not empty. */
  ghost predicate Valid(reg: Registry) {
    Consistent(reg) && |reg.versions| > 0
  }

  /** `versions.add(version); urls.put(version, url)`. */
  function Register(reg: Registry, version: string, url: string): (r: Registry)
    requires Consistent(reg)
    ensures Consistent(r)
    ensures forall v :: v in r.versions <==> v in reg.versions || v == version
    ensures r.urls[version] == url
    ensures forall v :: v != version && v in reg.urls ==> v in r.urls && r.urls[v] == reg.urls[v]
  {
    Registry(NaturalOrder.Insert(reg.versions, version), reg.urls[version := url])
  }

  /** What the scan loop sees of each resource: the version it registers
      under (none when its name does not match) and its URL. */
  function Tagged(rs: seq<Resource>, matcher: FilenameMatcher): (r: seq<(Option<string>, string)>)
    ensures |r| == |rs|
    ensures forall i :: 0 <= i < |rs| ==> r[i] == (ResourceVersion(rs[i], matcher), rs[i].url)
  {
    if |rs| == 0 then [] else [(ResourceVersion(rs[0], matcher), rs[0].url)] + Tagged(rs[1..], matcher)
  }

  /** The `forEach` body applied to tagged resources in order, as a left
      fold: the registry after the first `|entries|` of them. */
  function Fold(entries: seq<(Option<string>, string)>): (r: Registry)
    ensures Consistent(r)
    decreases |entries|
  {
    if |entries| == 0 then Registry([], map[])
    else
      var before := Fold(entries[..|entries| - 1]);
      match entries[|entries| - 1].0
      case Some(v) => Register(before, v, entries[|entries| - 1].1)
      case None => before
  }

  /** One step of the fold registers the last entry's version, if any. */
  lemma FoldStep(entries: seq<(Option<string>, string)>, v: string)
    requires |entries| > 0
    ensures v in Fold(entries).urls <==> v in Fold(entries[..|entries| - 1]).urls || entries[|entries| - 1].0 == Some(v)
  {
  }

  /** Exactly the versions of the entries are registered. */
  lemma {:induction false} FoldVersions(entries: seq<(Option<string>, string)>, v: string)
    ensures v in Fold(entries).urls <==> exists i :: 0 <= i < |entries| && entries[i].0 == Some(v)
    decreases |entries|
  {
    if |entries| > 0 {
      var init := entries[..|entries| - 1];
      FoldVersions(init, v);
      FoldStep(entries, v);
      if v in Fold(init).urls {
        var i :| 0 <= i < |init| && init[i].0 == Some(v);
        assert entries[i] == init[i];
      } else if entries[|entries| - 1].0 != Some(v) {
        forall i | 0 <= i < |entries|
          ensures entries[i].0 != Some(v)
        {
          if i < |init| {
            assert entries[i] == init[i];
          }
        }
      }
    }
  }

  /** The last entry carrying a version decides its URL. */
  lemma {:induction false} FoldLaterWins(entries: seq<(Option<string>, string)>, i: nat, v: string)
    requires i < |entries| && entries[i].0 == Some(v)
    requires forall j :: i < j < |entries| ==> entries[j].0 != Some(v)
    ensures v in Fold(entries).urls && Fold(entries).urls[v] == entries[i].1
    decreases |entries|
  {
    if i < |entries| - 1 {
      var init := entries[..|entries| - 1];
      assert init[i] == entries[i];
      assert forall j :: i < j < |init| ==> init[j] == entries[j];
      FoldLaterWins(init, i, v);
    }
  }

  /** The registry the scan builds from the resources, in scan order. */
  function Collect(rs: seq<Resource>, matcher: FilenameMatcher): (r: Registry)
    ensures Consistent(r)
  {
    Fold(Tagged(rs, matcher))
  }

  /** Nothing scanned, nothing registered. */
  lemma CollectEmpty(matcher: FilenameMatcher)
    ensures Collect([], matcher) == Registry([], map[])
  {
  }

  /** The fold registers the last resource after all the others. */
  lemma CollectLast(rs: seq<Resource>, matcher: FilenameMatcher, v: string)
    requires |rs| > 0 && ResourceVersion(rs[|rs| - 1], matcher) == Some(v)
    ensures Collect(rs, matcher) == Register(Collect(rs[..|rs| - 1], matcher), v, rs[|rs| - 1].url)
  {
    var t := Tagged(rs, matcher);
    var n := |rs| - 1;
    TaggedPrefix(rs, matcher, n);
    assert t[n] == (Some(v), rs[n].url);
    assert Fold(t) == Register(Fold(t[..n]), v, rs[n].url);
  }

  /** Tagging commutes with taking a prefix. */
  lemma TaggedPrefix(rs: seq<Resource>, matcher: FilenameMatcher, n: nat)
    requires n <= |rs|
    ensures Tagged(rs, matcher)[..n] == Tagged(rs[..n], matcher)
  {
    var a, b := Tagged(rs, matcher)[..n], Tagged(rs[..n], matcher);
    forall i | 0 <= i < n
      ensures a[i] == b[i]
    {
      assert rs[..n][i] == rs[i];
    }
  }

  /** Exactly the versions of matching resources are registered. */
  lemma CollectVersions(rs: seq<Resource>, matcher: FilenameMatcher, v: string)
    ensures v in Collect(rs, matcher).urls <==> exists i :: 0 <= i < |rs| && ResourceVersion(rs[i], matcher) == Some(v)
  {
    var t := Tagged(rs, matcher);
    FoldVersions(t, v);
    if exists i :: 0 <= i < |rs| && ResourceVersion(rs[i], matcher) == Some(v) {
      var i :| 0 <= i < |rs| && ResourceVersion(rs[i], matcher) == Some(v);
      assert t[i].0 == Some(v);
    }
  }

  /** On a duplicate version the later resource wins: a version maps to the
      URL of the last resource that registers it. */
  lemma CollectLaterWins(rs: seq<Resource>, matcher: FilenameMatcher, i: nat, v: string)
    requires i < |rs| && ResourceVersion(rs[i], matcher) == Some(v)
    requires forall j :: i < j < |rs| ==> ResourceVersion(rs[j], matcher) != Some(v)
    ensures v in Collect(rs, matcher).urls && Collect(rs, matcher).urls[v] == rs[i].url
  {
    FoldLaterWins(Tagged(rs, matcher), i, v);
  }

  /** The constructor: scan, register, and refuse an empty result. */
  function Discover(path: string, patternText: string, resources: seq<Resource>, matcher: FilenameMatcher): (r: Result<Registry>)
    ensures r.Ok? ==> Valid(r.value) && r.value == Collect(resources, matcher)
    ensures r.Err? <==> forall i :: 0 <= i < |resources| ==> ResourceVersion(resources[i], matcher).None?
    ensures r.Err? ==> r.error == NoSpecsFound("No Site API spec found in classpath at '" + path + "' with pattern: " + patternText)
  {
    var reg := Collect(resources, matcher);
    if |reg.versions| == 0 then
      assert forall i :: 0 <= i < |resources| ==> ResourceVersion(resources[i], matcher).None? by {
        forall i | 0 <= i < |resources|
          ensures ResourceVersion(resources[i], matcher).None?
        {
          if ResourceVersion(resources[i], matcher).Some? {
            CollectVersions(resources, matcher, ResourceVersion(resources[i], matcher).value);
          }
        }
      }
      Err(NoSpecsFound("No Site API spec found in classpath at '" + path + "' with pattern: " + patternText))
    else
      assert reg.versions[0] in reg.urls;
      CollectVersions(resources, matcher, reg.versions[0]);
      Ok(reg)
  }

  /** The resource's file name has the shape of the default pattern. */
  ghost predicate DefaultNamed(res: Resource) {
    exists x: string, c: char :: DefaultShape(FileName(res.path), x, c)
  }

  /** Under the default pattern a resource registers exactly when its file
      name has the default shape. */
  lemma DefaultNamedIff(res: Resource)
    ensures ResourceVersion(res, DefaultFilenameGroups).Some? <==> DefaultNamed(res)
  {
    DefaultFilenameIff(FileName(res.path));
  }

  /** The no-argument constructor: default path and pattern. It succeeds
      exactly when some scanned file is named like `site-api.yaml` or
      `site-api-<word>.yaml`, and otherwise names the default path and pattern
      in its error. */
  function DiscoverDefault(resources: seq<Resource>): (r: Result<Registry>)
    ensures r.Ok? <==> exists i :: 0 <= i < |resources| && DefaultNamed(resources[i])
    ensures r.Ok? ==> Valid(r.value) && r.value == Collect(resources, DefaultFilenameGroups)
    ensures r.Err? ==> r.error == NoSpecsFound("No Site API spec found in classpath at '" + DefaultResourcePath
                                               + "' with pattern: " + DefaultFilenamePatternText)
  {
    assert forall i :: 0 <= i < |resources| ==>
             (ResourceVersion(resources[i], DefaultFilenameGroups).Some? <==> DefaultNamed(resources[i])) by {
      forall i | 0 <= i < |resources| {
        DefaultNamedIff(resources[i]);
      }
    }
    Discover(DefaultResourcePath, DefaultFilenamePatternText, resources, DefaultFilenameGroups)
  }

  // ---------------------------------------------------------------------
  // Queries
  // ---------------------------------------------------------------------

  /** `getAllVersions`: the registered versions in ascending order, each once. */
  function AllVersions(reg: Registry): (r: seq<string>)
    requires Valid(reg)
    ensures |r| > 0 && NaturalOrder.StrictlySorted(r)
    ensures forall v :: v in r <==> v in reg.urls
  {
    reg.versions
  }

  /** `getLatestVersion`: the greatest version. */
  function LatestVersion(reg: Registry): (r: string)
    requires Valid(reg)
    ensures r in reg.urls
    ensures forall v :: v in reg.urls && v != r ==> NaturalOrder.Less(v, r)
  {
    NaturalOrder.LastIsMaximum(reg.versions);
    reg.versions[|reg.versions| - 1]
  }

  /** `get(version)`: an unregistered version is refused; otherwise the
      specification is loaded from the version's URL under that version. */
  function Get(reg: Registry, version: string, fetch: Fetcher, parseYaml: OpenApiSpec.YamlParser,
               resolve: OpenApiSpec.ContextResolver, checkStructure: OpenApiSpec.StructureCheck): (r: Result<OpenApiSpec.SpecDoc>)
    ensures r.Err? && r.error.InvalidVersion? <==> version !in reg.urls
    ensures version !in reg.urls ==> r.error.message == "Invalid version: " + version
    ensures r.Ok? ==> r.value.version == version && r.value.url == reg.urls[version]
    ensures version in reg.urls ==>
              r == OpenApiSpec.Load(reg.urls[version], fetch(reg.urls[version]), version, parseYaml, resolve, checkStructure)
  {
    if version !in reg.urls then Err(InvalidVersion("Invalid version: " + version))
    else
      var url := reg.urls[version];
      OpenApiSpec.Load(url, fetch(url), version, parseYaml, resolve, checkStructure)
  }

  /** `getLatest`: the specification of the greatest version; never an invalid version. */
  function GetLatest(reg: Registry, fetch: Fetcher, parseYaml: OpenApiSpec.YamlParser,
                     resolve: OpenApiSpec.ContextResolver, checkStructure: OpenApiSpec.StructureCheck): (r: Result<OpenApiSpec.SpecDoc>)
    requires Valid(reg)
    ensures r == Get(reg, LatestVersion(reg), fetch, parseYaml, resolve, checkStructure)
    ensures r.Err? ==> !r.error.InvalidVersion?
    ensures r.Ok? ==> r.value.version == LatestVersion(reg)
  {
    Get(reg, LatestVersion(reg), fetch, parseYaml, resolve, checkStructure)
  }

  // ---------------------------------------------------------------------
  // The shipped layout: three files under the default path
  // ---------------------------------------------------------------------

  /** A file name after a separator is the name itself. */
  lemma {:induction false} FileNameAfterSeparator(dir: string, name: string)
    requires forall i :: 0 <= i < |name| ==> !IsSeparator(name[i])
    ensures FileName(dir + "/" + name) == name
    decreases |name|
  {
    var p := dir + "/" + name;
    if |name| == 0 {
      assert p[|p| - 1] == '/';
    } else {
      var init := name[..|name| - 1];
      FileNameAfterSeparator(dir, init);
      assert p[..|p| - 1] == dir + "/" + init;
      assert p[|p| - 1] == name[|name| - 1];
      assert init + [name[|name| - 1]] == name;
    }
  }

  /** The three specification files, in an order the scan may report them. */
  function ShippedResources(u0: string, u1: string, u2: string): seq<Resource> {
    [ Resource(DefaultResourcePath + "/" + "site-api-v2.yaml", u2),
      Resource(DefaultResourcePath + "/" + "site-api.yaml", u0),
      Resource(DefaultResourcePath + "/" + "site-api-v1.yaml", u1) ]
  }

  lemma ShippedVersionV2(u2: string)
    ensures ResourceVersion(Resource(DefaultResourcePath + "/" + "site-api-v2.yaml", u2), DefaultFilenameGroups) == Some("v2")
  {
    FileNameAfterSeparator(DefaultResourcePath, "site-api-v2.yaml");
    DefaultVersionRoundTrip("v2");
    assert "site-api-" + "v2" + ".yaml" == "site-api-v2.yaml";
  }

  lemma ShippedVersionUnversioned(u0: string)
    ensures ResourceVersion(Resource(DefaultResourcePath + "/" + "site-api.yaml", u0), DefaultFilenameGroups) == Some("")
  {
    FileNameAfterSeparator(DefaultResourcePath, "site-api.yaml");
    DefaultVersionUnversioned();
  }

  lemma ShippedVersionV1(u1: string)
    ensures ResourceVersion(Resource(DefaultResourcePath + "/" + "site-api-v1.yaml", u1), DefaultFilenameGroups) == Some("v1")
  {
    FileNameAfterSeparator(DefaultResourcePath, "site-api-v1.yaml");
    DefaultVersionV1();
  }

  /** The natural order puts the unversioned file first. */
  lemma ShippedOrder()
    ensures NaturalOrder.Less("", "v1") && NaturalOrder.Less("", "v2") && NaturalOrder.Less("v1", "v2")
    ensures NaturalOrder.StrictlySorted(["v2"]) && NaturalOrder.StrictlySorted(["", "v2"])
  {
    var a, b := "v1", "v2";
    assert a[0] == b[0] && a[1..] == "1" && b[1..] == "2";
  }

  /** The sorted set grows as the three versions arrive in scan order. */
  lemma ShippedInserts()
    ensures NaturalOrder.Insert([], "v2") == ["v2"]
    ensures NaturalOrder.Insert(["v2"], "") == ["", "v2"]
    ensures NaturalOrder.Insert(["", "v2"], "v1") == ["", "v1", "v2"]
  {
    ShippedOrder();
    assert ["", "v2"][1..] == ["v2"];
    assert NaturalOrder.Insert(["v2"], "v1") == ["v1", "v2"];
  }

  /** The registry after the first shipped file. */
  lemma ShippedFirstStep(u0: string, u1: string, u2: string)
    ensures Collect(ShippedResources(u0, u1, u2)[..1], DefaultFilenameGroups) == Registry(["v2"], map["v2" := u2])
  {
    var rs := ShippedResources(u0, u1, u2);
    ShippedVersionV2(u2);
    ShippedInserts();
    ShippedPrefixes(u0, u1, u2);
    CollectLast(rs[..1], DefaultFilenameGroups, "v2");
    CollectEmpty(DefaultFilenameGroups);
  }

  /** The registry after the second shipped file. */
  lemma ShippedSteps(u0: string, u1: string, u2: string)
    ensures Collect(ShippedResources(u0, u1, u2)[..2], DefaultFilenameGroups) == Registry(["", "v2"], map["v2" := u2, "" := u0])
  {
    var rs := ShippedResources(u0, u1, u2);
    ShippedFirstStep(u0, u1, u2);
    ShippedVersionUnversioned(u0);
    ShippedInserts();
    ShippedPrefixes(u0, u1, u2);
    CollectLast(rs[..2], DefaultFilenameGroups, "");
  }

  lemma ShippedPrefixes(u0: string, u1: string, u2: string)
    ensures var rs := ShippedResources(u0, u1, u2);
            rs[..2][..1] == rs[..1] && rs[..2][1] == rs[1] && rs[..1][..0] == [] && rs[..3] == rs
  {
  }

  /** The registry the shipped files give. */
  lemma ShippedRegistry(u0: string, u1: string, u2: string)
    ensures Collect(ShippedResources(u0, u1, u2), DefaultFilenameGroups)
         == Registry(["", "v1", "v2"], map["v2" := u2, "" := u0, "v1" := u1])
  {
    var rs := ShippedResources(u0, u1, u2);
    ShippedSteps(u0, u1, u2);
    ShippedVersionV1(u1);
    ShippedInserts();
    CollectLast(rs, DefaultFilenameGroups, "v1");
  }

  /** Discovery under the default path and pattern succeeds on the shipped files. */
  lemma ShippedDiscover(u0: string, u1: string, u2: string)
    ensures DiscoverDefault(ShippedResources(u0, u1, u2)) == Ok(Registry(["", "v1", "v2"], map["v2" := u2, "" := u0, "v1" := u1]))
  {
    ShippedRegistry(u0, u1, u2);
  }

  /** Listing, the latest version and an unknown version for the shipped files:
      `["", "v1", "v2"]`, `v2`, and an invalid-version error for `v999`. */
  lemma ShippedQueries(u0: string, u1: string, u2: string, fetch: Fetcher, parseYaml: OpenApiSpec.YamlParser,
                       resolve: OpenApiSpec.ContextResolver, checkStructure: OpenApiSpec.StructureCheck)
    ensures var reg := Registry(["", "v1", "v2"], map["v2" := u2, "" := u0, "v1" := u1]);
            && Valid(reg)
            && AllVersions(reg) == ["", "v1", "v2"]
            && LatestVersion(reg) == "v2"
            && Get(reg, "v999", fetch, parseYaml, resolve, checkStructure) == Err(InvalidVersion("Invalid version: v999"))
  {
    ShippedOrder();
    var reg := Registry(["", "v1", "v2"], map["v2" := u2, "" := u0, "v1" := u1]);
    assert NaturalOrder.StrictlySorted(reg.versions);
    assert "v999" !in reg.urls;
  }
}
