# Site API OpenAPI validator — a Dafny model

This project models the core of the wcm.io Site API OpenAPI validator. That
library checks JSON responses of a Site API against the OpenAPI 3 (OAS3)
specification of the API.

Three Java classes make up the core, and each becomes a Dafny module of the same name:

- `OpenApiSpecVersions` (`spec_versions.dfy`) scans a resource path for
  specification files.
  - A file whose name matches a filename pattern (by default
    `site-api(-(\w+))?.yaml`) is registered under the version its last capture
    group names.
  - Versions are kept in a sorted set, and each version maps to the URL of its file.
  - Any version, or the latest one, can be loaded as an `OpenApiSpec`.
- `OpenApiSpec` (`spec.dfy`) loads one specification.
  - It rewrites every `"{contentPath}` path key to `"/{contentPath}`, parses
    the YAML, resolves references and checks the OAS3 structure.
  - It resolves a suffix to the first path key that matches `^.+/<suffix>.json$`.
  - It reads that path's schema at the JSON Pointer
    `/get/responses/200/content/application~1json/schema`.
  - It caches one validator per suffix.
- `OpenApiSchemaValidator` (`schema_validator.dfy`) parses a JSON text.
  - It checks the text against the schema bound to one suffix.
  - It reports malformed JSON, or every schema finding, one per line.

Supporting modules:

- `Results` holds the `Option`, `Result` and `Outcome` wrappers. Its `Error`
  type has one case per exception the classes throw.
- `Strings` holds joining and splitting, plus the regex character classes.
- `NaturalOrder` holds `String.compareTo` and the `TreeSet` insertion.
- `Json` holds the document tree, `JsonNode.at`, and the JSON Pointer token
  encoding of section 4 of RFC 6901.

Every library the classes call enters as a function-typed parameter:

- the YAML and JSON parsers;
- the construction of `OAI3Context`;
- `OpenApi3Validator`;
- the openapi4j `SchemaValidator`;
- the class-path scan;
- reading a URL;
- the filename regex for a caller-supplied pattern.

Both regular expressions in the code are hand-encoded as predicates:

- the suffix pattern `^.+/<quoted suffix>.json$`;
- the default filename pattern.

For each one, a lemma shows that the predicate decides exactly the language
the regex describes.

The method comment says a path must end with `/{suffix}.json`. In the code,
however, the `.` before `json` is an unescaped regex dot, so any character
other than a line terminator is accepted there (`index_json` matches too).
The model follows the code, and `OpenApiSpec.SuffixDotIsWildcard` states this.
The default filename pattern has the same unescaped dot before `yaml`.

## Model

| member | source | states |
|---|---|---|
| OpenApiSpec.QuoteFreeStretch | src/main/java/io/wcm/siteapi/openapi/validator/OpenApiSpec.java:118 | text before the first quote passes through the rewrite unchanged and holds no occurrence of a quoted pattern |
| OpenApiSpec.UndoReplace | src/main/java/io/wcm/siteapi/openapi/validator/OpenApiSpec.java:118 | replacing one quoted pattern by another and then back gives the same text as replacing back only: the forward `String.replace` is undone exactly where it acted |
| OpenApiSpec.FixContentPath | src/main/java/io/wcm/siteapi/openapi/validator/OpenApiSpec.java:118 | the rewrite inserts exactly one slash per occurrence of `"{contentPath}`, and no `"{contentPath}` is left afterwards |
| OpenApiSpec.FixIdempotent | src/main/java/io/wcm/siteapi/openapi/validator/OpenApiSpec.java:118 | rewriting twice equals rewriting once: a key that already starts with a slash gets no second slash |
| OpenApiSpec.UnfixFix | src/main/java/io/wcm/siteapi/openapi/validator/OpenApiSpec.java:118 | removing the slash of every `"/{contentPath}` gives the same text whether or not the rewrite ran first |
| OpenApiSpec.FixRoundTrip | src/main/java/io/wcm/siteapi/openapi/validator/OpenApiSpec.java:118 | text without `"/{contentPath}` of its own is recovered from the rewritten text by removing the inserted slashes |
| OpenApiSpec.SuffixMatchIff | src/main/java/io/wcm/siteapi/openapi/validator/OpenApiSpec.java:209-215 | a key matches the suffix pattern exactly when it is a non-empty line-terminator-free head, a slash, the suffix, one non-line-terminator character and `json` |
| OpenApiSpec.PathMatchesSuffix | src/main/java/io/wcm/siteapi/openapi/validator/OpenApiSpec.java:209-215 | the regex test of line 209 as positions counted from the end of the key: `json`, one non-line-terminator character, the literal suffix, a slash, and a non-empty line-terminator-free head |
| OpenApiSpec.SuffixMatchesIndexKey | src/main/java/io/wcm/siteapi/openapi/validator/OpenApiSpec.java:209 | `/a/{x}/index.json` matches the suffix `index` |
| OpenApiSpec.SuffixMatchesDetailKey | src/main/java/io/wcm/siteapi/openapi/validator/OpenApiSpec.java:209 | `/b/{y}/detail.json` matches the suffix `detail` |
| OpenApiSpec.SuffixDotIsWildcard | src/main/java/io/wcm/siteapi/openapi/validator/OpenApiSpec.java:209 | the unescaped dot lets `/content/page/index_json` match the suffix `index` |
| OpenApiSpec.SuffixOtherDoesNotMatch | src/main/java/io/wcm/siteapi/openapi/validator/OpenApiSpec.java:209 | a key for `index` does not match the suffix `detail` |
| OpenApiSpec.SuffixNeedsPrefix | src/main/java/io/wcm/siteapi/openapi/validator/OpenApiSpec.java:209 | `.+` needs at least one character before the slash, so `/index.json` does not match `index` |
| OpenApiSpec.SuffixAnchoredAtEnd | src/main/java/io/wcm/siteapi/openapi/validator/OpenApiSpec.java:209 | `$` anchors the match: `/a/index.json.html` does not match `index` |
| OpenApiSpec.PathEntries | src/main/java/io/wcm/siteapi/openapi/validator/OpenApiSpec.java:210-212 | the keys the loop iterates: exactly the fields of `paths` when the document has an object-valued `paths` field, and none when `paths` is missing or not an object |
| OpenApiSpec.FirstMatchFrom | src/main/java/io/wcm/siteapi/openapi/validator/OpenApiSpec.java:212-220 | the key loop finds the first matching key, and finds none exactly when no key matches |
| OpenApiSpec.FindMatchingPathNode | src/main/java/io/wcm/siteapi/openapi/validator/OpenApiSpec.java:208-221 | nothing exactly when no key of `paths` matches; otherwise the definition under the first matching key |
| OpenApiSpec.FirstOfTwoPaths | src/main/java/io/wcm/siteapi/openapi/validator/OpenApiSpec.java:212-217 | with two path keys, the first key decides when it matches, else the second, else nothing |
| Json.UnescapeEscape | src/main/java/io/wcm/siteapi/openapi/validator/OpenApiSpec.java:193-194 | decoding a reference token undoes its `~0`/`~1` encoding for every key |
| Json.ParsePointer | src/main/java/io/wcm/siteapi/openapi/validator/OpenApiSpec.java:195 | a pointer compiles exactly when it is empty or starts with `/` |
| Json.PointerRoundTrip | src/main/java/io/wcm/siteapi/openapi/validator/OpenApiSpec.java:193-195 | compiling a rendered pointer gives back its tokens |
| Json.Field | src/main/java/io/wcm/siteapi/openapi/validator/OpenApiSpec.java:195 | a field lookup finds a value exactly when some field has the key, and the value belongs to such a field |
| Json.ArrayIndex | src/main/java/io/wcm/siteapi/openapi/validator/OpenApiSpec.java:195 | a token denotes an array index exactly when it is `0` or up to ten digits without a leading zero whose value is at most `Integer.MAX_VALUE`, and the index is that decimal value |
| Json.At | src/main/java/io/wcm/siteapi/openapi/validator/OpenApiSpec.java:195 | the empty pointer selects the node itself; a pointer that compiles yields exactly the node its decoded tokens lead to, if any; a pointer that does not compile yields nothing |
| Json.UnknownEscapeKept | src/main/java/io/wcm/siteapi/openapi/validator/OpenApiSpec.java:195 | an escape other than `~0` or `~1` keeps the `~` and the character after it, as Jackson does: `~~0` stays `~~0` |
| OpenApiSpec.SchemaPointerSegments | src/main/java/io/wcm/siteapi/openapi/validator/OpenApiSpec.java:194 | the pointer text after its slash splits into the six raw tokens `get`, `responses`, `200`, `content`, `application~1json`, `schema` |
| OpenApiSpec.MediaTypeToken | src/main/java/io/wcm/siteapi/openapi/validator/OpenApiSpec.java:193-194 | `application~1json` decodes to `application/json` |
| OpenApiSpec.SchemaPointerTokens | src/main/java/io/wcm/siteapi/openapi/validator/OpenApiSpec.java:193-195 | the fixed pointer addresses the GET operation, response `200`, content `application/json`, then `schema` |
| OpenApiSpec.NavigateNest | src/main/java/io/wcm/siteapi/openapi/validator/OpenApiSpec.java:195 | following the keys of nested objects leads to the value at the bottom |
| OpenApiSpec.SchemaOfResponseItem | src/main/java/io/wcm/siteapi/openapi/validator/OpenApiSpec.java:194-195 | the pointer finds the schema placed under a path item's GET 200 `application/json` response |
| OpenApiSpec.BuildSchemaValidator | src/main/java/io/wcm/siteapi/openapi/validator/OpenApiSpec.java:188-201 | the no-matching-path error exactly when no key matches; the no-schema error exactly when the matched item has nothing at the pointer; otherwise a validator for the suffix holding that schema with the whole document as context |
| OpenApiSpec.ResolutionExampleIndex | src/main/java/io/wcm/siteapi/openapi/validator/OpenApiSpec.java:188-221 | in a document with two endpoints, `index` resolves to the schema of the `index` path |
| OpenApiSpec.ResolutionExampleDetail | src/main/java/io/wcm/siteapi/openapi/validator/OpenApiSpec.java:188-221 | in the same document, `detail` skips the first key and resolves to the second schema |
| OpenApiSpec.ResolutionExampleMissing | src/main/java/io/wcm/siteapi/openapi/validator/OpenApiSpec.java:188-221 | an unknown suffix gives the no-matching-path error with its message |
| OpenApiSpec.GetSchemaValidator | src/main/java/io/wcm/siteapi/openapi/validator/OpenApiSpec.java:178-181 | a cached validator is returned with the cache untouched; otherwise the build result is returned, and only a successful build is cached |
| OpenApiSpec.GetSchemaValidatorCoherent | src/main/java/io/wcm/siteapi/openapi/validator/OpenApiSpec.java:178-181 | on a coherent cache the answer equals a fresh build, the cache stays coherent, and the validator carries the requested suffix |
| OpenApiSpec.GetSchemaValidatorTwice | src/main/java/io/wcm/siteapi/openapi/validator/OpenApiSpec.java:178-181 | a second request for the same suffix gives the same answer and leaves the document unchanged |
| OpenApiSpec.AppendLines | src/main/java/io/wcm/siteapi/openapi/validator/OpenApiSpec.java:137-141 | the builder loop yields the summary and the items joined with newlines |
| OpenApiSpec.SpecInvalidMessageLists | src/main/java/io/wcm/siteapi/openapi/validator/OpenApiSpec.java:136-142 | after its prefix, the invalid-specification message splits at newlines into the summary and then every item, in order |
| OpenApiSpec.Load | src/main/java/io/wcm/siteapi/openapi/validator/OpenApiSpec.java:84-143 | a missing stream gives file-not-found; read, parse and resolution failures each give the wrapped load message with their cause; a structure violation gives the invalid-specification message; a tree that does not bind to the OAS3 model gives the unwrapped conversion error; a document exists exactly when every step succeeded, and it starts with an empty cache |
| OpenApiSchemaValidator.Validate | src/main/java/io/wcm/siteapi/openapi/validator/OpenApiSchemaValidator.java:59-71 | pass exactly when the text parses and no item is error-level; malformed JSON exactly when parsing fails, with the text in the message; otherwise a violation listing the text of every item after the suffix |
| OpenApiSchemaValidator.ValidateAgainstSchema | src/main/java/io/wcm/siteapi/openapi/validator/OpenApiSchemaValidator.java:73-83 | pass exactly when no item is error-level (`isValid()`), even with warnings; otherwise a violation carrying the text of every item, joined with newlines after the suffix prefix |
| OpenApiSchemaValidator.SeverityDecides | src/main/java/io/wcm/siteapi/openapi/validator/OpenApiSchemaValidator.java:75-78 | info and warning items alone never fail a response; one error-level item always does |
| OpenApiSchemaValidator.Texts | src/main/java/io/wcm/siteapi/openapi/validator/OpenApiSchemaValidator.java:79-80 | the rendered text of every item, one per item and in order |
| OpenApiSchemaValidator.GetSuffix | src/main/java/io/wcm/siteapi/openapi/validator/OpenApiSchemaValidator.java:50-52 | the suffix the validator was built for |
| OpenApiSchemaValidator.MalformedIgnoresSchema | src/main/java/io/wcm/siteapi/openapi/validator/OpenApiSchemaValidator.java:59-70 | unparsable text fails the same way whatever the schema evaluator says |
| OpenApiSchemaValidator.ViolationMessageContainsFindings | src/main/java/io/wcm/siteapi/openapi/validator/OpenApiSchemaValidator.java:79-81 | every finding appears verbatim at its line offset in the message, and the join adds exactly one newline between findings |
| OpenApiSchemaValidator.ViolationMessageSplitsIntoFindings | src/main/java/io/wcm/siteapi/openapi/validator/OpenApiSchemaValidator.java:79-81 | when no finding spans lines, splitting the message body at newlines gives back the findings in order |
| Strings.SplitJoin | src/main/java/io/wcm/siteapi/openapi/validator/OpenApiSchemaValidator.java:81 | splitting joined parts that contain no separator recovers the parts |
| Strings.JoinSeparatorCount | src/main/java/io/wcm/siteapi/openapi/validator/OpenApiSchemaValidator.java:81 | joining `k` parts adds exactly `k - 1` separators |
| Strings.JoinContainsPart | src/main/java/io/wcm/siteapi/openapi/validator/OpenApiSchemaValidator.java:81 | every part occurs unchanged at its offset in the joined text |
| NaturalOrder.LessTransitive | src/main/java/io/wcm/siteapi/openapi/validator/OpenApiSpecVersions.java:98 | string order is transitive |
| NaturalOrder.LessTotal | src/main/java/io/wcm/siteapi/openapi/validator/OpenApiSpecVersions.java:98 | distinct strings are always ordered one way or the other |
| NaturalOrder.LessAsymmetric | src/main/java/io/wcm/siteapi/openapi/validator/OpenApiSpecVersions.java:98 | string order is asymmetric |
| NaturalOrder.Insert | src/main/java/io/wcm/siteapi/openapi/validator/OpenApiSpecVersions.java:107 | adding to the sorted set keeps it sorted without duplicates, adds exactly the new element, and leaves the set as it is when the element is present |
| NaturalOrder.LastIsMaximum | src/main/java/io/wcm/siteapi/openapi/validator/OpenApiSpecVersions.java:131 | the last element of the sorted set is greater than every other element |
| OpenApiSpecVersions.FileName | src/main/java/io/wcm/siteapi/openapi/validator/OpenApiSpecVersions.java:103 | the file name is a tail of the path (its separator-free end, as FileNameIsTail adds) |
| OpenApiSpecVersions.FileNameIsTail | src/main/java/io/wcm/siteapi/openapi/validator/OpenApiSpecVersions.java:103 | the file name ends the path and contains no separator |
| OpenApiSpecVersions.FileNameAfterLastSeparator | src/main/java/io/wcm/siteapi/openapi/validator/OpenApiSpecVersions.java:103 | the file name is the whole path or directly follows a separator |
| OpenApiSpecVersions.FileNameAfterSeparator | src/main/java/io/wcm/siteapi/openapi/validator/OpenApiSpecVersions.java:103 | the name of `dir/name` is `name` when `name` has no separator |
| OpenApiSpecVersions.DefaultFilenameGroups | src/main/java/io/wcm/siteapi/openapi/validator/OpenApiSpecVersions.java:77 | a match of the default pattern always reports its two capture groups |
| OpenApiSpecVersions.DefaultFilenameIff | src/main/java/io/wcm/siteapi/openapi/validator/OpenApiSpecVersions.java:77 | a name matches the default pattern exactly when it is `site-api`, an optional dash and word, one non-line-terminator character and `yaml` |
| OpenApiSpecVersions.DefaultVersionOfShape | src/main/java/io/wcm/siteapi/openapi/validator/OpenApiSpecVersions.java:104-106 | the last group gives the empty version without the optional part, and the word after the dash with it |
| OpenApiSpecVersions.DefaultVersionRoundTrip | src/main/java/io/wcm/siteapi/openapi/validator/OpenApiSpecVersions.java:104-106 | `site-api-<w>.yaml` registers as version `w` for every word `w` |
| OpenApiSpecVersions.DefaultVersionUnversioned | src/main/java/io/wcm/siteapi/openapi/validator/OpenApiSpecVersions.java:104-106 | `site-api.yaml` matches with both groups absent and registers as the empty version |
| OpenApiSpecVersions.DefaultVersionV1 | src/main/java/io/wcm/siteapi/openapi/validator/OpenApiSpecVersions.java:104-106 | `site-api-v1.yaml` registers as `v1` |
| OpenApiSpecVersions.DefaultRejectsBareDash | src/main/java/io/wcm/siteapi/openapi/validator/OpenApiSpecVersions.java:77 | `site-api-.yaml` does not match: the dash needs a word after it |
| OpenApiSpecVersions.VersionOf | src/main/java/io/wcm/siteapi/openapi/validator/OpenApiSpecVersions.java:106 | the last capture group, the empty string when that group did not take part, and the whole file name when the pattern has no group (`group(0)`) |
| OpenApiSpecVersions.ResourceVersion | src/main/java/io/wcm/siteapi/openapi/validator/OpenApiSpecVersions.java:103-106 | a resource has a version exactly when its file name matches the pattern, and then it is the version the last group gives |
| OpenApiSpecVersions.Register | src/main/java/io/wcm/siteapi/openapi/validator/OpenApiSpecVersions.java:107-108 | registering keeps the set sorted and in step with the map, adds exactly the version, maps it to the new URL, and keeps every other URL |
| OpenApiSpecVersions.Tagged | src/main/java/io/wcm/siteapi/openapi/validator/OpenApiSpecVersions.java:102-106 | each scanned resource is paired with the version its file name yields, if any, and its URL |
| OpenApiSpecVersions.Fold | src/main/java/io/wcm/siteapi/openapi/validator/OpenApiSpecVersions.java:102-109 | the registry built by the scan loop is always consistent |
| OpenApiSpecVersions.FoldVersions | src/main/java/io/wcm/siteapi/openapi/validator/OpenApiSpecVersions.java:102-109 | a version is registered exactly when some entry carries it |
| OpenApiSpecVersions.FoldLaterWins | src/main/java/io/wcm/siteapi/openapi/validator/OpenApiSpecVersions.java:107-108 | a version maps to the URL of the last entry that carries it |
| OpenApiSpecVersions.CollectLast | src/main/java/io/wcm/siteapi/openapi/validator/OpenApiSpecVersions.java:102-109 | the last matching resource is registered on top of the registry of the resources before it |
| OpenApiSpecVersions.TaggedPrefix | src/main/java/io/wcm/siteapi/openapi/validator/OpenApiSpecVersions.java:102-106 | tagging a prefix of the scan gives the prefix of the tags |
| OpenApiSpecVersions.Collect | src/main/java/io/wcm/siteapi/openapi/validator/OpenApiSpecVersions.java:101-111 | the registry the scan loop builds from the resources in scan order is consistent: sorted without duplicates, with a URL for exactly the registered versions |
| OpenApiSpecVersions.CollectVersions | src/main/java/io/wcm/siteapi/openapi/validator/OpenApiSpecVersions.java:102-109 | exactly the versions of resources whose names match are registered |
| OpenApiSpecVersions.CollectLaterWins | src/main/java/io/wcm/siteapi/openapi/validator/OpenApiSpecVersions.java:107-108 | on a duplicate version the later resource's URL wins |
| OpenApiSpecVersions.Discover | src/main/java/io/wcm/siteapi/openapi/validator/OpenApiSpecVersions.java:96-116 | the no-specs error, naming path and pattern, exactly when no resource matches; otherwise a non-empty consistent registry of the scan |
| OpenApiSpecVersions.DefaultNamedIff | src/main/java/io/wcm/siteapi/openapi/validator/OpenApiSpecVersions.java:103-105 | under the default pattern `site-api(-(\w+))?.yaml` a resource registers exactly when its file name has the default shape |
| OpenApiSpecVersions.DiscoverDefault | src/main/java/io/wcm/siteapi/openapi/validator/OpenApiSpecVersions.java:85-87 | the default scan of `site-api-spec` succeeds exactly when some scanned file name has the default shape (`site-api`, optionally `-` and a word, any one character, `yaml`), yielding the valid registry of that scan; otherwise the no-specs error naming the default path and pattern |
| OpenApiSpecVersions.AllVersions | src/main/java/io/wcm/siteapi/openapi/validator/OpenApiSpecVersions.java:122-124 | the versions come out ascending, without duplicates, and are exactly those with a URL |
| OpenApiSpecVersions.LatestVersion | src/main/java/io/wcm/siteapi/openapi/validator/OpenApiSpecVersions.java:130-132 | the latest version is registered and greater than every other registered version |
| OpenApiSpecVersions.Get | src/main/java/io/wcm/siteapi/openapi/validator/OpenApiSpecVersions.java:147-153 | the invalid-version error exactly when the version is unregistered; otherwise the specification loaded from that version's URL under that version |
| OpenApiSpecVersions.GetLatest | src/main/java/io/wcm/siteapi/openapi/validator/OpenApiSpecVersions.java:138-140 | loads the latest version and never fails with the invalid-version error |
| OpenApiSpecVersions.ShippedRegistry | src/main/java/io/wcm/siteapi/openapi/validator/OpenApiSpecVersions.java:96-116 | scanning `site-api-v2.yaml`, `site-api.yaml` and `site-api-v1.yaml` registers `""`, `v1` and `v2` in that order, each with its own URL |
| OpenApiSpecVersions.ShippedDiscover | src/main/java/io/wcm/siteapi/openapi/validator/OpenApiSpecVersions.java:85-87 | the no-argument constructor succeeds on the three files |
| OpenApiSpecVersions.ShippedQueries | src/main/java/io/wcm/siteapi/openapi/validator/OpenApiSpecVersions.java:122-153 | for those files the listing is `""`, `v1`, `v2`, the latest is `v2`, and `v999` is an invalid version |

## Left out

- Class-path scanning (ClassGraph), `URL.openStream`, UTF-8 decoding and closing streams are I/O. The scan result and the fetched text are parameters.
- The YAML and JSON parsers, `OAI3Context`, `OpenApi3Validator`, Jackson's `convertValue` to `OpenApi3`, and openapi4j's `SchemaValidator` are foreign libraries. Each is an uninterpreted parameter; only their outcomes (a tree, a failure message, the validation items) are modelled.
- `getURL` and `getVersion` are plain accessors: the model reads the `SpecDoc` fields directly.
- The `OpenApiSpec(String path, String version)` style constructors that only turn a path into a URL are not part of this model.
- `validators` is a `ConcurrentHashMap`: the atomicity of `computeIfAbsent` under concurrent calls is not modelled, only its sequential meaning.
- OpenApiSpec.BuildSchemaValidator: the validator's reference context is the document tree alone. `OAI3Context` is also given the specification URL (OpenApiSpec.java lines 90-91) to resolve relative references, but reference resolution is a parameter of the model, so the URL is not part of the context.
- OpenApiSpec.PathEntries: `rootNode.findValue("paths")` searches depth-first: for each top-level field in order it checks the name and then the field's subtree before moving on. The model reads only the top-level `paths` field, so a field named `paths` nested inside an earlier top-level entry (which Jackson would return instead) is not modelled.
- OpenApiSpec.FindMatchingPathNode: `paths.findValue(path)` searches the same way, so if an earlier path item contains, at any depth, a field named exactly like the matching key, Jackson returns that nested value. The model returns the direct child under the key.
- Json.Field: for a duplicated object key Jackson keeps the last value, while the model takes the first field. The parsers are parameters, so the tree they produce is taken as given.
- Json.ParsePointer: Jackson keeps a `/` that directly follows `~` inside the current token, and throws on a non-empty pointer without a leading `/`. The model splits at every `/` and yields nothing for such a pointer. The only pointer the core compiles, the constant of line 194, has neither form.
- A caller-supplied version `Comparator` is not modelled: only the natural ordering (`null` comparator) is, which is what the no-argument constructor uses.
- NaturalOrder.Less compares `char` values, while `String.compareTo` compares UTF-16 code units. The two differ only for characters outside the Basic Multilingual Plane.
- OpenApiSpecVersions.FileName: `FilenameUtils.getName` also rejects names containing a NUL character. That check is not modelled.
- A general regular-expression engine is out of scope. The two patterns in the code are encoded by hand, and a caller-supplied pattern is a parameter.
- `ContentValidationException`, `SpecInvalidException` and `IllegalArgumentException` become `Error` cases. Exception chaining (the `cause`) is not modelled.
