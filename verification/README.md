# jspm npm registry: package conversion and registry client, in Dafny

This project models the core of the jspm registry for npm. That core has two parts.

The first part is the conversion that makes an npm package load under SystemJS with Node's resolution rules. `convertPackage` reads the package descriptor (`package.json`), the package's file tree and an analysis of every file. From these it infers:
- a `map` of aliases: directory indexes, `.json` requests, self-references, browser replacements and Node core modules;
- a `meta` table of module formats and `Buffer` globals, collapsed into folder wildcards where the files of a folder agree;
- the core modules to add as peer dependencies.

The second part is the registry client. It covers:
- reading the npm configuration: the two `.npmrc` files, deep-merged, and the older single-file reader;
- the registry and scope settings, and which hosts credentials may be sent to;
- the decision to authenticate a request, and the credential precedence;
- how lookups classify responses and errors;
- how a version document becomes a resolution;
- the streaming base-64 framing of a publish body;
- the credential encoding helpers.

Everything is pure functions over immutable values. A JavaScript object is a table of names in enumeration order, `undefined` is `None`, and a thrown error is a `Failure`.

The modules follow the source files:
- `conversion`, `require_rules`, `node_resolve`, `core_modules`, `browser_map`, `package_meta`, `collapse`, `meta` and `pragma` model `lib/node-conversion.js`;
- `transformer` models `lib/node-transformer.js`;
- `npm_endpoint`, `npm_auth`, `npm_lookup` and `publish_stream` model `npm.js`;
- `npmrc_config` models `npmrc.js`;
- `legacy_npmrc` models `lib/npmrc.js`;
- `credentials` models `lib/utils.js`.

The remaining modules model the JavaScript and Node built-ins those files rely on:
- `jsstring`, `jsnumber`, `jsobject`, `json` and `sorting` for strings, numbers, objects and `sort()`;
- `uri` for the merge and dot-segment removal of RFC 3986, section 5.2, that `url.resolve` performs once its parser has escaped the request (the escaping is not modelled);
- `uri_component` for `encodeURIComponent` and `decodeURIComponent`;
- `base64` for the alphabet of RFC 4648, section 4;
- `utf8` and `bytes` for `Buffer` text conversions;
- `wrappers` for `Option` and `Result`.

## Model

| member | source | states |
|---|---|---|
| CoreModules.Lookup | lib/node-conversion.js:9-43 | a name in the shim list maps to `nodelibs/<name>`; any other name is found exactly when it is listed with an npm package, and then maps to `npm:` plus that package's version range |
| CoreModules.FindPackage | lib/node-conversion.js:9-43 | the table lookup finds nothing exactly when no entry carries the name, and otherwise returns the value of an entry that does |
| CoreModules.ShimNamesHaveNoColon | lib/node-conversion.js:12-41 | no shim path contains `:` |
| CoreModules.ShimIffListed | lib/node-conversion.js:9-43 | a found value has no `:` exactly when the name is one of the shim entries |
| CoreModules.BufferIsDependency | lib/node-conversion.js:11 | `buffer` is served by the npm package `buffer@^3.5.3` |
| CoreModules.NamesAreBare | lib/node-conversion.js:9-43 | every core module name is non-empty and does not start with `.`, so a require of it is never taken as relative |
| NodeResolve.ResolvePath | lib/node-conversion.js:468 | with a leading `/`, the resolved path is the RFC 3986 section 5.2.3 merge of the request onto `/` + parent, after remove_dot_segments (section 5.2.4) |
| NodeResolve.ResolveFromRoot | lib/node-conversion.js:467-468 | `./path` from the package root resolves to `path` when `path` has no dot segments |
| NodeResolve.ResolveFromRootFile | lib/node-conversion.js:467-468 | a request from a file at the package root resolves as from the root itself |
| NodeResolve.ResolveFromSubfolder | lib/node-conversion.js:467-468 | `../path` from a file one folder down climbs back to the root and resolves to `path` |
| NodeResolve.Folder | lib/node-conversion.js:480 | the folder form ends in `/`, extends the path and adds at most one character |
| NodeResolve.Probe | lib/node-conversion.js:470-486 | probing order: the path itself, then `.js`, then `.json`, then the folder, which yields `index.js` in it without checking that file; no result exactly when none of the four is in the tree |
| NodeResolve.Resolve | lib/node-conversion.js:459-491 | an absolute name gives nothing; a name that is neither `./` nor (`../` from a file in a folder) comes back unchanged; a relative name gives the probe result of its resolved path, with `./` in front when asked |
| NodeResolve.ResolvesListedFile | lib/node-conversion.js:467-471 | a file in the tree requested as `./` + its path from the root resolves to itself |
| Uri.RemoveDotSegmentsIdempotent | lib/node-conversion.js:468 | removing dot segments twice equals removing them once |
| Uri.RemoveDotSegmentsAbsolute | lib/node-conversion.js:468 | the result for a path that starts with `/` also starts with `/` |
| Uri.RemoveDotsOfClean | lib/node-conversion.js:468 | a path without `.` or `..` segments passes through dot-segment removal unchanged, segment by segment |
| Uri.SegmentsOfConcat | lib/node-conversion.js:468 | the output buffer read back as a string splits into the same segments |
| RequireRules.SetMap | lib/node-conversion.js:237-238 | `if (map) map[k] = v`: only the inferred map changes, and only at `k` |
| RequireRules.AddCoreDep | lib/node-conversion.js:252-253 | the dependency is listed afterwards, nothing else is added, and the list stays free of repeats |
| RequireRules.MarkMeta | lib/node-conversion.js:278 | an existing meta entry is kept; a missing one becomes `true`; nothing else changes |
| RequireRules.IndexAlias | lib/node-conversion.js:231-232 | a CommonJS `D/index.js` whose `D.js` is not in the tree adds the alias `./D.js` to `./D/index.js`; otherwise nothing changes |
| RequireRules.SelfReferenceIff | lib/node-conversion.js:236 | the self-reference test accepts `name/…` and every request exactly as long as the name, and nothing else |
| RequireRules.ApplyRequire | lib/node-conversion.js:234-288 | a non-string request or a nameless package throws; a self-reference sets `map[name] = '.'` and nothing else; a bare name leaves meta alone; a relative request from a non-CommonJS file changes nothing; relative requests never add core dependencies; tables only grow |
| RequireRules.CoreRequire | lib/node-conversion.js:243-257 | a bare name absent from the table changes nothing; a shim is mapped directly; an npm-served core module is added once to the core dependencies |
| RequireRules.AddedJsonExtensionIff | lib/node-conversion.js:271 | the `.json` test is true exactly when the resolution ends in `.json` and the request does not |
| RequireRules.RelativeRequire | lib/node-conversion.js:264-287 | an unresolved request changes nothing; a `.json` resolution the request did not name aliases the stem to the JSON file; any other resolution goes to the meta marking |
| RequireRules.ResolvedRequire | lib/node-conversion.js:275-287 | with an inferred meta, a resolution that does not end in `.js`, or ends in `.js.js` or `.json.js`, is marked; otherwise nothing changes |
| RequireRules.ApplyRequires | lib/node-conversion.js:234 | the requests of one file fail exactly when some request is not a string or the package has no name; otherwise the tables only grow |
| RequireRules.JsonRequireAlias | lib/node-conversion.js:264-274 | `./p` from a root file, with only `p.json` in the tree, maps `./p` to `./p.json` |
| RequireRules.JsonAliasOf | lib/node-conversion.js:271-273 | a request resolving to its own path plus `.json` produces exactly that alias |
| RequireRules.ExtensionlessFileMarked | lib/node-conversion.js:276-278 | a request for an existing file not ending in `.js` marks that file `true` in meta |
| RequireRules.ShimRequire | lib/node-conversion.js:243-251 | a shimmed core module maps to `nodelibs/<name>` from any file, whatever its format |
| RequireRules.ServedRequire | lib/node-conversion.js:243-256 | a core module served by an npm package, required by name from any file, is added to the core dependencies |
| RequireRules.RequiredServedIsDependency | lib/node-conversion.js:234-288 | through a file's whole list of requires, such a module among them is a core dependency afterwards, whatever follows it |
| RequireRules.ApplyRequireKeepsShim | lib/node-conversion.js:234-288 | no require but a self-reference changes the shim entry of a core module |
| RequireRules.CoreRequireKeepsShim | lib/node-conversion.js:243-251 | a bare name writes its own entry only, and a shim's entry is always the same |
| RequireRules.RelativeRequireKeepsShim | lib/node-conversion.js:259-288 | a relative require writes `./` paths only, so a core module's entry stays |
| RequireRules.RequiredShimMapped | lib/node-conversion.js:234-288 | through a file's whole list of requires, a shimmed module among them, or one already sent to its shim, is sent to its shim afterwards |
| RequireRules.DotSlashKeepsSuffix | lib/node-conversion.js:271 | a `./` prefix never creates or removes a dotted extension at the end of a name |
| Meta.ExtendKeys | lib/node-conversion.js:439-445 | after copying the names `ks`, the object has exactly its old names and `ks`; a copied name holds `b`'s value unless prepending found it already set; every other name keeps its value |
| Meta.Extend | lib/node-conversion.js:439-445 | `extend(a, b, prepend)`: the same facts over every enumerable name of `b` |
| Meta.MergeValue | lib/node-conversion.js:428-436 | a plain new value replaces the old unless prepending; prepending keeps a plain old value; two arrays are concatenated, the new one first when prepending |
| Meta.ExtendMetaKeys | lib/node-conversion.js:427-437 | the names after the merge are the old ones and `ks`; names not in `ks` keep their values; a new plain value is set; plain values of `b` win unless prepending, in which case plain values already present win |
| Meta.ExtendMeta | lib/node-conversion.js:426-438 | `extendMeta(a, b, prepend)`: the same facts over every enumerable name of `b` |
| Meta.WildcardMatchesIff | lib/node-conversion.js:411-412 | the wildcard test holds exactly when the path starts with the text before the `*` and ends with the text after it |
| Meta.ApplyWildcards | lib/node-conversion.js:405-418 | the deepest match depth never decreases, and without any pattern containing `*` nothing changes |
| Meta.ReadMeta | lib/node-conversion.js:401-425 | it fails exactly when the merged wildcard metadata has a truthy property named by the path itself (the reference to the undefined `load`); on success the result is an object with no such property, so exact entries are never applied |
| Meta.ExactEntriesIgnored | lib/node-conversion.js:407-424 | a configuration without wildcard patterns gives every file `{}`, even a file it names exactly |
| Meta.StarAppliesEverywhere | lib/node-conversion.js:407-417 | a lone `*` pattern gives every file that pattern's plain values |
| Meta.ApplyOne | lib/node-conversion.js:408-417 | one matching pattern updates the best depth and merges its metadata, prepending exactly when it is shallower than the best depth seen |
| Meta.DeeperPatternWins | lib/node-conversion.js:413-416 | of two matching patterns, the one with more `/`-separated parts decides the plain values it sets, whichever is listed first |
| Meta.ApplyTwo | lib/node-conversion.js:407-417 | two matching patterns applied from `{}`: the first merges into `{}` at its own depth, then the second applies |
| Meta.DeepSecond | lib/node-conversion.js:413-416 | a deeper pattern listed second overrides the first's plain values |
| Meta.DeepFirst | lib/node-conversion.js:413-416 | a deeper pattern listed first keeps its plain values against a shallower second |
| PackageMeta.InitialMeta | lib/node-conversion.js:98-107 | the inferred meta starts with `*` giving the `process` global and `*.json` giving the JSON loader, in that order |
| PackageMeta.Recorded | lib/node-conversion.js:194 | a file's recorded metadata is found exactly when its entry is an object, and is that object |
| PackageMeta.GlobalsOrEmpty | lib/node-conversion.js:204-209 | `globals || {}` keeps a present object and otherwise gives `{}` |
| PackageMeta.FileConfig | lib/node-conversion.js:194-213 | nothing is recorded exactly when there was nothing, the format is the package's, the file is not global and no CommonJS `Buffer` use is seen; otherwise a differing format is recorded, a global file gets a `globals` object, a CommonJS `Buffer` user gets `Buffer: nodelibs/buffer` added to its globals, and the loader is kept |
| PackageMeta.FileConfigBase | lib/node-conversion.js:196-199 | a format other than the package's is recorded on a copy of the existing metadata; the same format changes nothing |
| PackageMeta.Prefixes | lib/node-conversion.js:216-218 | the prefixes are exactly the texts before each `/` of the path, shortest first |
| PackageMeta.CommonStep | lib/node-conversion.js:219-223 | a prefix's format stays truthy exactly when it was and equals the file's format; its globals survive exactly when the file's globals are the same; the loader is untouched |
| PackageMeta.AddCommon | lib/node-conversion.js:217-224 | after one file, the common table holds the old prefixes and the file's; others are unchanged; old keys keep their order |
| PackageMeta.AddCommonValue | lib/node-conversion.js:217-224 | each prefix of the file ends up exactly one update on from its value before the file |
| PackageMeta.CommonOfVisits | lib/node-conversion.js:219-223 | a prefix visited by at least one file has common metadata; an unvisited one keeps what it had |
| PackageMeta.CommonKeptIff | lib/node-conversion.js:219-223 | a prefix keeps a format exactly when every file under it has that format, and keeps globals exactly when every file under it has the same globals |
| PackageMeta.PrefixesListed | lib/node-conversion.js:217-219 | each prefix of a file is listed after every folder of it |
| PackageMeta.AddCommonFoldersFirst | lib/node-conversion.js:217-219 | adding a file's prefixes keeps every folder listed before whatever lies in it |
| CollapseMeta.UnderIff | lib/node-conversion.js:301 | the collapse's substring test says exactly that the path lies inside the folder |
| CollapseMeta.Strip | lib/node-conversion.js:302-305 | a format equal to the folder's truthy format is deleted, and so are globals equal to the folder's; nothing else is removed and the loader stays |
| CollapseMeta.StripUnder | lib/node-conversion.js:300-307 | only the object entries under the folder are stripped; keys, their order and `true` entries stay |
| CollapseMeta.CollapseOne | lib/node-conversion.js:296-308 | a folder that keeps neither format nor globals changes nothing; otherwise its `p/*` entry is added with the common metadata; entries outside the folder and `true` entries are kept; existing keys keep their order |
| CollapseMeta.CollapseAll | lib/node-conversion.js:295-309 | every folder whose common metadata keeps a format or globals gets its `p/*` entry, a metadata object; no other key is added and none is lost; a metadata object stays one; entries outside every folder are unchanged; `true` entries stay; old keys keep their places |
| CollapseMeta.Reverse | lib/node-conversion.js:295 | the keys in reverse order |
| CollapseMeta.Collapse | lib/node-conversion.js:295-309 | every folder of the common table whose metadata keeps a format or globals gets its `p/*` entry, a metadata object; the only new keys are such wildcards; no key is lost, a metadata object stays one, and the old keys keep their places |
| CollapseMeta.DeepestFirst | lib/node-conversion.js:295 | in reverse insertion order every folder comes after every folder inside it |
| CollapseMeta.StripsAgreeingFormat | lib/node-conversion.js:302-308 | a file with the same format as its folder's wildcard loses its own format entry |
| Pragma.DirectiveFormat | lib/node-conversion.js:371-388 | the format found is the one given, or some leading part opens with a quote |
| Pragma.DirectiveWithSemicolon | lib/node-conversion.js:375-385 | `"format f";` names `f` in full |
| Pragma.DirectiveWithoutSemicolon | lib/node-conversion.js:373-385 | `"format f"` without a semicolon yields `f` without its last character, since the adjusted length is never used |
| Pragma.LaterDirectiveWins | lib/node-conversion.js:371-388 | of two format directives the later one decides |
| Pragma.BundleIsRegister | lib/node-conversion.js:386-387 | the directive `'bundle'` selects the register format |
| Pragma.CommentsIgnored | lib/node-conversion.js:379-380 | leading parts that do not open with a quote leave the format alone |
| Pragma.ParseModule | lib/node-conversion.js:347-397 | an empty file gives the empty CommonJS analysis; a known format is passed to the transformer unchanged; without one, the directive scan chooses it |
| BrowserMap.StringProp | lib/node-conversion.js:119 | a string property reads as itself; a missing or non-string one reads as `""`, which the source's `typeof … == 'string' && …` treats as false |
| BrowserMap.MainText | lib/node-conversion.js:120 | `'./' + main` writes an unresolved main as `undefined` |
| BrowserMap.BrowserMainName | lib/node-conversion.js:119 | the browser main is named by `browser`, then `browserify` (each only when a non-empty string), then the resolved main |
| BrowserMap.AddBrowserMaps | lib/node-conversion.js:118-145 | it fails exactly when nothing names a browser main; when the browser main resolves to a non-empty path other than the main, `./<main>` maps to `./<browser main>`, and the loop leaves it so; every entry is a browser replacement, and every entry except the main's comes from the `browser` object |
| BrowserMap.BrowserEntries | lib/node-conversion.js:125-144 | the loop keeps every entry, leaves truthy entries alone, and adds only browser replacements of its own paths where the path or the replacement starts with `./` |
| BrowserMap.BrowserEntriesExact | lib/node-conversion.js:125-144 | over distinct paths, entry by entry: a path reached with no truthy entry is mapped to the resolution the loop holds there whenever that is non-empty and the path or it starts with `./`; every other path, listed or not, keeps exactly what it had |
| BrowserMap.Resolutions | lib/node-conversion.js:125-142 | the value `mapResolve` holds at each path, one per path; a path skipped by `if (map[b]) continue` leaves the previous value |
| BrowserMap.Replacement | lib/node-conversion.js:131-137 | `false` means `@empty`; a string is resolved from the root with `./` added; any other value leaves the previous iteration's resolution in place |
| BrowserMap.AddReplacement | lib/node-conversion.js:140-143 | the entry is set exactly when the resolution is truthy and the path or the resolution starts with `./`; otherwise nothing changes |
| BrowserMap.AddReplacementTo | lib/node-conversion.js:140-143 | the same with the source's double-negated `substr` test |
| BrowserMap.FalseIsEmpty | lib/node-conversion.js:134-135 | a path replaced by `false` maps to `@empty` |
| BrowserMap.StaleReplacement | lib/node-conversion.js:132-137 | a replacement that is neither `false` nor a string repeats the previous path's replacement |
| BrowserMap.FirstEntry | lib/node-conversion.js:126-143 | a path not yet mapped whose replacement resolves to `x` is mapped to `x`, and `x` carries to the next path |
| Conversion.SystemConfig | lib/node-conversion.js:51 | `pjson.systemjs` when truthy, else the descriptor itself |
| Conversion.PackageFormat | lib/node-conversion.js:90 | the configured format when it is a non-empty string, else `cjs` |
| Conversion.PackageMain | lib/node-conversion.js:87 | the main (`index.js` by default) resolved from the root: nothing exactly when it does not resolve, and a plain name is kept as it is |
| Conversion.Files | lib/node-conversion.js:180-182 | the files are exactly the listed paths that do not end in `/` |
| Conversion.ExistingFormat | lib/node-conversion.js:184-185 | without configured meta the package format; with it, failure exactly when `readMeta` fails, else the matching metadata's format before the package's |
| Conversion.ExistingFormats | lib/node-conversion.js:180-187 | every file's known format, and failure exactly when some file's lookup fails |
| Conversion.Analyse | lib/node-conversion.js:187 | a listed file missing from the sources fails; otherwise its analysis is `parseModule` with its known format |
| Conversion.UpdateMeta | lib/node-conversion.js:193-228 | the file's entry becomes its metadata when there is some, and otherwise is left as it was; the common table receives the file's prefixes; `buffer` is recorded exactly for a CommonJS `Buffer` user; folders stay listed before their contents |
| Conversion.FlagReplacedByFileMeta | lib/node-conversion.js:194-227 | a `true` mark left by an earlier request is replaced once the file records its own format |
| Conversion.BufferGlobal | lib/node-conversion.js:207-213 | a CommonJS file that uses `Buffer` gets `Buffer: nodelibs/buffer`, and `buffer` becomes a core dependency |
| Conversion.ProcessFile | lib/node-conversion.js:188-290 | one file fails exactly when it has a non-string request or the package has no name; otherwise the tables only grow |
| Conversion.ProcessFiles | lib/node-conversion.js:180-291 | every file must be readable; the tables only grow; without inferred meta the common table is untouched |
| Conversion.PeerFrom | lib/node-conversion.js:313-317 | the peers are exactly the npm-served core dependencies that the configured map does not map, each with its table value |
| Conversion.PeerFromSorted | lib/node-conversion.js:313 | sorted core dependencies give peer dependencies in key order |
| Conversion.PeerDependencies | lib/node-conversion.js:312-317 | after `coreDeps.sort()`, the peer dependencies are in key order and are exactly the npm-served core dependencies not mapped by the configured map |
| Conversion.KeepNonEmpty | lib/node-conversion.js:331-333 | exactly the `true` entries and the metadata objects with a property are kept |
| Conversion.KeepNonEmptySorted | lib/node-conversion.js:330-333 | dropping entries keeps the rest in key order |
| Conversion.MetaSection | lib/node-conversion.js:328-335 | the configured meta is kept as given; an inferred one is written in key order with exactly its kept entries; an empty one is left out |
| Conversion.MapSection | lib/node-conversion.js:320-325 | the configured map is kept as given; an inferred one is written in key order with all its entries; an empty one is left out |
| Conversion.PackageName | lib/node-conversion.js:49 | the name is known exactly when `pjson.name` is a string |
| Conversion.InitialState | lib/node-conversion.js:94-145 | meta and map are inferred exactly when the configuration gives none; inferred meta starts as the two default entries; nothing is common yet and there are no core dependencies; it fails exactly when map is inferred and nothing names a browser main |
| Conversion.Finish | lib/node-conversion.js:294-337 | main and format as given; `dependencies` empty, as created at line 53; configured meta or map kept; inferred tables sorted by key; peer dependencies sorted, each an npm-served core module, and every core dependency not mapped by the configured map among them |
| Conversion.ConvertPackage | lib/node-conversion.js:48-340 | a successful conversion has the main and format of the system configuration, its own meta and map when it gives them, inferred tables sorted by key, and sorted peer dependencies on npm-served core modules; an unreadable listed file fails it |
| Conversion.ConvertFiles | lib/node-conversion.js:180-337 | the same, once the initial tables are ready; and the result is `Finish` of tables grown from the initial ones, so it keeps every promise of `Finish`, among them that every core dependency the configured `map` does not map is a peer dependency |
| Conversion.RequiredServedIsPeer | lib/node-conversion.js:180-316 | a core module served by an npm package that some file requires by name, and that is no self-reference and is not mapped by the configured `map`, is among the peer dependencies of the result |
| Conversion.ConvertFilesPeer | lib/node-conversion.js:180-316 | the same, once the initial tables are ready |
| Conversion.RequiredShimIsMapped | lib/node-conversion.js:180-323 | a shimmed core module that some file requires by name, and that is no self-reference, is in the inferred `map`, sent to `nodelibs/<name>` |
| Conversion.ConvertFilesShim | lib/node-conversion.js:180-323 | the same, once the initial tables are ready |
| Conversion.ProcessedServedIsDependency | lib/node-conversion.js:180-291 | such a module, required by any processed file, is a core dependency once every file is processed |
| Conversion.ProcessFileServed | lib/node-conversion.js:226-288 | one file makes each served core module it requires by name a core dependency |
| Conversion.ProcessedShimMapped | lib/node-conversion.js:180-291 | such a shimmed module, required by any processed file, is sent to its shim once every file is processed |
| Conversion.ProcessFileKeepsShim | lib/node-conversion.js:226-288 | one file, its directory alias and its requires included, keeps a shim entry, and sets it when the file requires the module |
| Conversion.ProcessFilesKeepsShim | lib/node-conversion.js:180-291 | no file of the package overwrites the shim entry of a core module that is no self-reference |
| Transformer.Walked | lib/node-transformer.js:79-108 | the walk keeps a prefix of the nodes without any error, and stops exactly at the first node that throws |
| Transformer.PushUnique | lib/node-transformer.js:135-156 | the value is in the list afterwards, and nothing else is added |
| Transformer.Collect | lib/node-transformer.js:134-160 | the list stays free of repeats, holds exactly the old values and the new ones, and keeps the old ones in front |
| Transformer.RequireOf | lib/node-transformer.js:148-157 | a call yields a module exactly when its callee is the identifier `require` and it has exactly one literal argument |
| Transformer.RequireCalls | lib/node-transformer.js:148-160 | the values met are exactly the literals of the `require` calls in the walk |
| Transformer.Specifiers | lib/node-transformer.js:134-139 | the values met are exactly the module specifiers in the walk |
| Transformer.GlobalStateUsed | lib/node-transformer.js:163-191 | the state ends `true` exactly when it was `true` or a use of the name is met, it did not start `false`, and no function is declared with the name |
| Transformer.GlobalStateFalse | lib/node-transformer.js:168-189 | once `false`, the state stays `false` |
| Transformer.DetectFormat | lib/node-transformer.js:23-65 | a given format is returned unchanged; otherwise the result is one of register, esm, cjs and amd; a clean module parse with an import or export never gives cjs or amd; amd requires the AMD pattern and neither CommonJS pattern |
| Transformer.DetectionCascade | lib/node-transformer.js:23-65 | each outcome holds exactly when every earlier test fails and its own succeeds; CommonJS is also the fallback |
| Transformer.RegisterAfterLeadingParts | lib/node-transformer.js:25-28 | `System.register` right after the leading comments and directives selects register |
| Transformer.Transform | lib/node-transformer.js:14-113 | the format is the detected one; requires are the `require` literals (CommonJS) or the module specifiers (ESM) of the walk up to its first error; a file that does not parse reports nothing; only CommonJS can use `Buffer`; other formats report no requires |
| Transformer.RequiredDistinct | lib/node-transformer.js:155 | no module is reported twice |
| Transformer.UsesBufferIff | lib/node-transformer.js:86-91 | a CommonJS file uses `Buffer` exactly when the walk meets a use of it before any error and no function named `Buffer` |
| Transformer.RequiredInWalkOrder | lib/node-transformer.js:77-109 | the reported modules are the first occurrences of the walk's values, in walk order |
| Transformer.FirstOccurrencesElements | lib/node-transformer.js:135-155 | removing later repeats keeps every value |
| Transformer.CollectAppend | lib/node-transformer.js:155-156 | collecting `a` then `b` is collecting `a + b` |
| Transformer.CollectIsFirstOccurrences | lib/node-transformer.js:134-160 | the push-unless-present loop computes the first occurrences of its input, in order |
| Transformer.EmptyAnalysis | lib/node-conversion.js:353-361 | an empty file reports no requires, CommonJS and no `Buffer` |
| NpmEndpoint.RegistrySetting | npm.js:17 | the default registry is `config.registry`, else the npmrc `registry`, else `https://registry.npmjs.org`; a truthy setting that is not a string fails |
| NpmEndpoint.ScopeName | npm.js:28-33 | the scope is the key without `:registry` and starts with `@` |
| NpmEndpoint.ScopeNameInjective | npm.js:33 | different registry keys configure different scopes |
| NpmEndpoint.ScopeHost | npm.js:35 | the host pushed for a scope is the URL from its first `//` on, or its last character when it has none |
| NpmEndpoint.HostOfKey | npm.js:39-43 | a `//host…:prop` key names the text before its last `:` with one trailing `/` removed, and nothing when it has no `:` |
| NpmEndpoint.AddHost | npm.js:44-45 | a host is pushed unless already listed; the old hosts stay in front and the list stays free of repeats |
| NpmEndpoint.AddScope | npm.js:28-36 | a scope value ending in `/` (or `null`) throws; a string value sets the scope's registry; hosts are only appended, and the scope's host is pushed exactly when the whole URL is not already listed |
| NpmEndpoint.AddKey | npm.js:27-48 | one key fails exactly when it is a scope key with a throwing value; a scope key goes to the scope rule; a host key with a `:` adds its host; any other key changes nothing |
| NpmEndpoint.AddKeys | npm.js:27-48 | the loop fails exactly when some scope key's value throws; otherwise every string-valued scope key sets its scope, earlier scopes survive unless reset, and the hosts grow by exactly what host and scope keys contribute |
| NpmEndpoint.AddedStep | npm.js:27 | the first key's effect followed by the rest's is the effect of all the keys |
| NpmEndpoint.NewEndpoint | npm.js:12-49 | the constructor fails exactly when the registry setting or a scope value throws; otherwise every scope is set from its key, no scope appears without one, every host key's host is listed, and every listed host comes from some key |
| NpmEndpoint.GetRegistryUrl | npm.js:188-197 | an unscoped name uses the default registry; any name uses the default or some configured scope registry |
| NpmEndpoint.ScopedRegistry | npm.js:191-194 | `@scope/name` uses the registry configured for `@scope` |
| NpmEndpoint.UnconfiguredScope | npm.js:191-196 | a scope without a configured registry falls back to the default |
| NpmEndpoint.ScopeWithoutSlash | npm.js:192 | `@name` with no `/` selects the empty scope and so the default registry |
| NpmEndpoint.HostOfTokenKey | npm.js:38-43 | the token key `auth` reads for `//host` registers that same host |
| NpmEndpoint.SharedRegistryListedTwice | npm.js:34-35 | two scopes on one registry push its host twice, since the membership test compares whole URLs |
| NpmLookup.EscapeFirstSlash | npm.js:245 | a name without `/` is unchanged; otherwise the result is two characters longer |
| NpmLookup.EscapeFirstSlashAt | npm.js:245 | only the first `/` becomes `%2F` |
| NpmLookup.RequestUrl | npm.js:245 | the document URL starts with the registry URL and `/` |
| NpmLookup.ScopedRequestUrl | npm.js:245 | a scoped name is one path segment, followed by `/version` when a version is given |
| NpmLookup.RequestHeaders | npm.js:234-243 | the headers always carry the accept header; `if-none-match` follows it exactly when the entity tag is truthy, holding that tag |
| NpmLookup.MarkFetchError | npm.js:247-258 | connection resets, time-outs and `ENOTFOUND` from `getaddrinfo` become retriable with a hidden stack; every other error passes through unchanged |
| NpmLookup.MarkIdempotent | npm.js:247-258 | marking an error twice is marking it once |
| NpmLookup.NotFoundElsewhere | npm.js:249-251 | `ENOTFOUND` without `getaddrinfo` in its text is passed on untouched |
| NpmLookup.LookupResult | npm.js:244-293 | a failed fetch is rethrown after marking; a lookup succeeds exactly for 200 with a parsable body, 304 or 404; only 200 yields a document, with the body and `etag`; 200 with an unparsable body throws the parse message; every other status throws with a hidden stack, its message formatted by the given `highlight` and `bold` |
| NpmLookup.OtherStatus | npm.js:279-282 | an unlisted status is reported with its number in bold, the highlighted package name and the status text |
| NpmLookup.ListedStatusMessages | npm.js:267-278 | 406 highlights the package name, 401 puts it in bold, 429 names no package |
| NpmLookup.OptText | npm.js:410 | a string reads as itself and a missing value as `undefined` |
| NpmLookup.Prune | npm.js:399-404 | pruning names from missing or `null` dependencies throws; otherwise exactly the names listed with a truthy entry are deleted, other entries and their order kept |
| NpmLookup.VersionDataToResolved | npm.js:393-414 | `null` version data throws; the override is absent exactly when no dependency field is truthy; `deprecated` is copied; success needs a string tarball URL |
| NpmLookup.Override | npm.js:394-405 | the override is absent exactly when no dependency field is truthy |
| NpmLookup.Source | npm.js:407-410 | a source needs a `dist` object whose tarball is a string |
| NpmLookup.SourceHash | npm.js:407-410 | the source is the rehosted tarball, `#`, and the integrity hash, else the SHA-1 sum, else `undefined` |
| NpmLookup.OptionalsRemoved | npm.js:395-404 | with truthy optional dependencies, the override is the version object whose dependencies lose exactly the names listed with a truthy entry |
| NpmLookup.OptionalsWithoutDependencies | npm.js:399-402 | named optional dependencies without any dependencies make the lookup throw |
| NpmAuth.Setting | npm.js:95-121 | the host-scoped setting is used whenever it is defined, and the global one only when it is `undefined` |
| NpmAuth.Either | npm.js:89 | `a \|\| b` is truthy exactly when either is, and is `a` when `a` is truthy |
| NpmAuth.BufferText | npm.js:131-143 | a string is read as base 64, then as UTF-8; any other value fails |
| NpmAuth.ReadText | npm.js:105 | reading a file succeeds exactly when the path is a string naming an existing file, and gives its UTF-8 text |
| NpmAuth.Transport | npm.js:88-112 | headers and basic credentials are untouched; the proxy, `strict-ssl` and certificate follow their settings unless already set; a configured `ca` is taken as it is, and an existing truthy one is kept |
| NpmAuth.Identity | npm.js:118-149 | only headers and basic credentials change; headers change only when a token is configured, and basic credentials only when none is |
| NpmAuth.Auth | npm.js:63-152 | with unauthorized headers the answer is yes exactly for an OTP challenge, which adds the entered `npm-otp` header and changes nothing else; an unpermitted request is refused with the credentials untouched; a permitted one is authorised; credentials are applied only for `PUT` or always-auth |
| NpmAuth.ParsedText | npm.js:70 | text that does not parse reads as `NaN` |
| NpmAuth.ValidateOtp | npm.js:69-72 | an answer passes exactly when it is six digits, or a minus sign and five digits not starting with `0` |
| NpmAuth.OtpShape | npm.js:70 | the validator's three tests together hold exactly for those answers |
| NpmAuth.OtpDigits | npm.js:70 | a digit string survives `parseInt`, `toString` and zero-padding to its own length |
| NpmAuth.OtpNegative | npm.js:70 | a minus sign before digits not starting with `0` survives the same round trip |
| NpmAuth.OtpRejected | npm.js:70 | every other six-character answer fails it |
| NpmAuth.PaddedValue | npm.js:70 | padding the numeral of a digit string's value back to its length restores the string |
| NpmAuth.ProtocolWithColon | npm.js:84-85 | since a parsed protocol ends in `:`, only a publish or the default registry's origin lets credentials through |
| NpmAuth.BearerToken | npm.js:118-124 | with a token for the host, or else a global one, exactly the bearer header is sent and the basic credentials are untouched |
| NpmAuth.SendsIdentity | npm.js:88-151 | a permitted request that sends credentials gets the identity settings on top of the transport ones |
| NpmAuth.EmptyHostTokenHidesGlobal | npm.js:119-122 | a host token that is set but empty hides the global token, so no bearer header is sent |
| NpmAuth.LegacyAuthRoundTrip | npm.js:126-133 | `_auth` written as base 64 of `user:password` gives back both parts when neither holds a colon |
| NpmAuth.LegacyAuthDecoded | npm.js:127-133 | the identity step alone decodes `_auth` into the user and the password |
| NpmAuth.StoredText | npm.js:131-143 | text stored as base 64 of its UTF-8 reads back as the text |
| NpmAuth.PasswordDecoded | npm.js:134-146 | `username` with a base-64 `_password` sends the decoded password |
| NpmAuth.CaFileRead | npm.js:100-106 | without a `ca` setting, `cafile` names the file whose text becomes the certificate authority, and a missing file throws |
| NpmAuth.HostCaReadAsPath | npm.js:100-105 | when the certificate authority is set but empty, the host's `ca` setting is read as a file name |
| Credentials.Raw | lib/utils.js:3 | the stored text is plain ASCII |
| Credentials.EncodeCredentials | lib/utils.js:2-5 | the stored value is whole base-64 groups |
| Credentials.DecodedText | lib/utils.js:7 | the text read back from base 64 as ASCII is plain ASCII |
| Credentials.DecodeCredentials | lib/utils.js:6-12 | decoding succeeds exactly when the first piece unescapes and the second does too, a missing second piece counting as `undefined` |
| Credentials.RawSplits | lib/utils.js:3-7 | the stored text splits at its one colon into the two escaped parts |
| Credentials.TextOfEncoded | lib/utils.js:4-7 | the base-64 form reads back as the stored text |
| Credentials.RoundTrip | lib/utils.js:2-12 | decoding what was encoded gives both parts back, whatever characters they hold |
| Credentials.NoColonPassword | lib/utils.js:7-10 | decoded text without a colon gives the password `undefined` |
| Credentials.ExtraPiecesIgnored | lib/utils.js:7-10 | pieces after the second colon are ignored |
| Credentials.SameLeadingPieces | lib/utils.js:9-10 | only the first two pieces of the decoded text matter |
| Credentials.PlainDecodes | lib/utils.js:9-10 | text without `%` unescapes to itself |
| Credentials.PlainEncodes | lib/utils.js:3 | text of unreserved characters escapes to itself |
| Credentials.FooBar | lib/utils.js:2-12 | `foo` and `bar` are stored as `Zm9vOmJhcg==` and decode back |
| Credentials.FooBarBase64 | lib/utils.js:4 | the base-64 encoding of `foo:bar` is `Zm9vOmJhcg==` |
| UriComponent.Encode | lib/utils.js:3 | `encodeURIComponent` writes only unreserved characters and `%` |
| UriComponent.NoColon | lib/utils.js:3 | an escaped component never contains a colon |
| UriComponent.EncodeIsAscii | lib/utils.js:3 | an escaped component is plain ASCII |
| UriComponent.DecodeEscapeOf | lib/utils.js:9-10 | the escapes of a character's UTF-8 bytes decode to that character |
| UriComponent.DecodeEncode | lib/utils.js:3-10 | `decodeURIComponent(encodeURIComponent(s))` is `s` |
| UriComponent.DecodeEscape | lib/utils.js:9-10 | an escape decodes to one character with its length, or fails where `decodeURIComponent` throws |
| Base64.Letter | lib/utils.js:4 | alphabet letters are never the pad character |
| Base64.ValueOfLetter | lib/utils.js:4-7 | the decoder reads each letter as the value it was written for |
| Base64.Quad | lib/utils.js:4 | a full group is four characters without padding |
| Base64.Encode | lib/utils.js:4 | the encoding is four characters per started group of three bytes, with `=` only in the last two places and only after a partial group |
| Base64.BytesOf | lib/utils.js:7 | the decoder gives three bytes for every four values and one or two for a final two or three |
| Base64.ValueOf | lib/utils.js:7 | the decoder gives the pad character no value |
| Base64.ValuesOfEncode | lib/utils.js:4-7 | the decoder reads from an encoding exactly the values its groups were written from |
| Base64.BytesOfSextets | lib/utils.js:4-7 | the values of the groups give back the bytes |
| Base64.DecodeEncode | lib/utils.js:4-7 | decoding the encoding of any bytes gives them back |
| Base64.EncodeAppend | npm.js:460-467 | encodings of whole groups concatenate |
| Utf8.Encode | lib/utils.js:4 | `Buffer.from` of text gives at least one byte per character |
| Utf8.EncodeChar | lib/utils.js:4 | a character takes one to four bytes, one exactly when it is ASCII, and every byte after the first is a continuation byte |
| Utf8.Decode | npm.js:131 | `toString()` of a buffer never gives more characters than there are bytes |
| Utf8.DecodeOneEncoded | npm.js:131 | the bytes of one character read back as that character, whatever follows |
| Utf8.DecodeEncode | npm.js:131-143 | decoding what `Buffer.from` encoded gives the text back |
| Utf8.EncodeAscii | lib/utils.js:3-4 | for ASCII text, as the escaped credentials are, `Buffer.from` gives the character codes |
| Utf8.DecodeAscii | npm.js:131 | ASCII bytes read as UTF-8 give the characters of those codes |
| Bytes.AsciiRoundTrip | lib/utils.js:4-7 | reading ASCII bytes back as ASCII gives the text they came from |
| PublishStream.EncodeChunks | npm.js:449-473 | the pieces together are the base-64 encoding of the whole tarball; every chunk's piece has no padding; there is one extra piece exactly when the length is not a multiple of three; `bufferLength` is the total length |
| PublishStream.WholeGroups | npm.js:460-464 | a chunk splits into whole groups of three and the one or two bytes carried |
| PublishStream.Advance | npm.js:456-467 | after one chunk, the bytes read are the bytes encoded plus the bytes carried, and the pieces are the encoding of what was emitted |
| PublishStream.Finish | npm.js:469-473 | the last piece encodes what is carried, and exists exactly when the stream is not whole groups |
| PublishStream.EncodeUnpadded | npm.js:465 | the encoding of whole groups has no padding |
| NpmrcConfig.Write | npmrc.js:25-27 | `a[p] = v` sets the property on an object; on an array it sets that element or appends the next one and leaves the others |
| NpmrcConfig.Target | npmrc.js:25 | the merge descends into `a[p]` when that is of type `object` and into a new `{}` otherwise |
| NpmrcConfig.Dextend | npmrc.js:19-30 | a merge that succeeds keeps the kind of `a`; merging into `null` succeeds exactly when `b` has no properties, and then gives `null` |
| NpmrcConfig.MergeProps | npmrc.js:20-28 | the loop over an object's names keeps the kind of `a`; on `null` it succeeds only with no names |
| NpmrcConfig.MergeItems | npmrc.js:20-28 | the loop over an array's indices keeps the kind of `a`; on `null` it succeeds only with no elements left |
| NpmrcConfig.Assign | npmrc.js:23-27 | one iteration throws on `null`, and on an object sets `p` to the merged or copied value |
| NpmrcConfig.Merged | npmrc.js:24-27 | a value not of type `object` is copied as it is; a merged value stays of type `object` |
| NpmrcConfig.Appended | npmrc.js:25-27 | assigning names in turn keeps the old names first, in order, and holds exactly the old and the new names |
| NpmrcConfig.MergePropsSpec | npmrc.js:19-30 | merging names into an object succeeds exactly when each value merges; names keep their order with new ones last, other names keep their values, and each merged name holds its merged value |
| NpmrcConfig.MergedElsewhere | npmrc.js:25-27 | setting one name does not change how another name merges |
| NpmrcConfig.DextendObjects | npmrc.js:19-30 | `dextend` of two objects fails exactly when some value of `b` cannot be merged; otherwise a name only `a` has is untouched, values not of type `object` are copied, object values are merged into `a`'s value or `{}`, and new names follow in `b`'s order |
| NpmrcConfig.SelfMerge | npmrc.js:19-30 | merging a value into itself changes nothing, at any depth |
| NpmrcConfig.ProjectArrayBecomesObject | npmrc.js:25-43 | an array in the project file under a name the home file lacks becomes an object keyed `"0"`, … |
| NpmrcConfig.ArrayIntoEmpty | npmrc.js:25 | a one-element array merged into `{}` is `{"0": …}` |
| NpmrcConfig.NullBlocksMerge | npmrc.js:25 | a `null` in the home file under a name whose project value is a non-empty object or array makes the merge throw |
| NpmrcConfig.ReadNpmrcFiles | npmrc.js:31-47 | the module-level `npmrc` is always set afterwards and is the configuration when reading succeeds; only a merge over an earlier value can throw, and then `npmrc` is the home file or the earlier value |
| NpmrcConfig.ConfigGet | npmrc.js:49-53 | `get(name)` reads the files again and answers the named setting of the configuration, throwing when the reading throws |
| NpmrcConfig.ConfigJson | npmrc.js:55-58 | `json()` reads the files again and answers the stored object, which cannot fail without a project file |
| NpmrcConfig.HomeAlone | npmrc.js:34-45 | the home file alone is the configuration, whatever an earlier call left |
| NpmrcConfig.FirstCallOneFile | npmrc.js:39-46 | on a first call the project file alone is the configuration, and no file at all gives `{}` |
| NpmrcConfig.ProjectOverridesHome | npmrc.js:34-44 | with both files the project's plain values win, names only in the home file keep their values, and the names are those of both files |
| NpmrcConfig.EveryCallRereads | npmrc.js:49-51 | with a home file present, nothing an earlier call left changes the result |
| NpmrcConfig.RemovedHomeStillSeen | npmrc.js:34-45 | a home file that has gone away keeps its settings through the module-level value |
| NpmrcConfig.RereadStable | npmrc.js:31-47 | after a first call that succeeds, reading the same files again gives the same result |
| LegacyNpmrc.LineEnd | lib/npmrc.js:15 | the end of the line `.+` can reach lies between the start and the end of the text |
| LegacyNpmrc.EqualsAt | lib/npmrc.js:15 | ` ?` before `=` takes at most one character |
| LegacyNpmrc.ValueAt | lib/npmrc.js:15 | ` ?` after `=` takes at most one character |
| LegacyNpmrc.MatchAt | lib/npmrc.js:15-18 | a capture of `(.+)` is never empty |
| LegacyNpmrc.SearchSpec | lib/npmrc.js:16 | `match` finds nothing exactly when no position matches, and otherwise the capture at the leftmost position that does |
| LegacyNpmrc.GetOption | lib/npmrc.js:11-19 | `undefined` for missing or empty contents, `null` exactly when the pattern matches nowhere, and otherwise the non-empty capture at the leftmost match |
| LegacyNpmrc.MatchShape | lib/npmrc.js:15 | a match is the key, one of `=`, ` =`, `= `, ` = `, and the non-empty rest of the line |
| LegacyNpmrc.WrittenSettingRead | lib/npmrc.js:15-18 | a setting written `key = value` is read back when nothing before it could start the key |
| LegacyNpmrc.SearchFinds | lib/npmrc.js:16 | the search stops at the first position where the pattern matches |
| LegacyNpmrc.ScopedAuthReadAsGlobal | lib/npmrc.js:15-41 | the pattern is not anchored, so `//host/:_auth = …` is read as the global `_auth` |
| LegacyNpmrc.Init | lib/npmrc.js:32-35 | `init` marks the object initialized and stores the file in `content`, leaving `contents` alone |
| LegacyNpmrc.GetAuth | lib/npmrc.js:37-44 | `getAuth` runs `init` only when not yet initialized, and answers the `_auth` found in `contents` when it is a non-empty text |
| LegacyNpmrc.GetRegistry | lib/npmrc.js:46-51 | `getRegistry` runs `init` only when not yet initialized, and answers `getOption` of `contents` for `registry` |
| LegacyNpmrc.Run | lib/npmrc.js:32-51 | a sequence of calls gives one answer per call |
| LegacyNpmrc.NothingIsFound | lib/npmrc.js:33-50 | whatever the file says, `getAuth` and `getRegistry` answer `undefined`: `init` writes `content` but the getters read `contents` |
| LegacyNpmrc.GettersKeepObject | lib/npmrc.js:38-48 | once initialized, the getters leave the object alone |
| LegacyNpmrc.FirstReadKept | lib/npmrc.js:32-39 | through the getters alone the file is read once, on the first call, and kept however it changes later |
| JsNumber.Decimal | npm.js:70 | the numeral of a number is digits only, without a superfluous leading zero, and one digit exactly below ten |
| JsNumber.DecimalValue | npm.js:70 | reading back the numeral of a number gives the number |
| JsNumber.DecimalInjective | npmrc.js:20 | distinct numbers have distinct numerals, so distinct array indices give distinct property names |
| JsNumber.DecimalOfDigits | npm.js:70 | a digit string without a superfluous leading zero is the numeral of its own value |
| JsNumber.LeadingZeros | npm.js:70 | leading zeros do not change the value `parseInt` reads |
| JsNumber.NumberToString | npm.js:70 | `toString()` of an integer is digits, with a `-` and no leading zero when negative |
| JsNumber.TrimStart | npm.js:70 | `parseInt` drops leading white space: what is left is a suffix that starts with no white space |
| JsNumber.LeadingDigits | npm.js:70 | the digits `parseInt` reads are the longest run of digits at the start |
| JsNumber.ParseInt | npm.js:70 | `parseInt(s, 10)` is `NaN` exactly when no digit follows the white space and sign |
| Sorting.LessEqTotal | lib/node-conversion.js:313 | the order `sort()` uses compares any two strings |
| Sorting.LessEqAntisymmetric | lib/node-conversion.js:313 | two strings each sorting before the other are equal |
| Sorting.LessEqTransitive | lib/node-conversion.js:313 | the order `sort()` uses is transitive |
| Sorting.Insert | lib/node-conversion.js:313 | inserting into a sorted list keeps it sorted and adds exactly the one element |
| Sorting.Sort | lib/node-conversion.js:313-330 | `sort()` gives a sorted permutation of its input |
| Sorting.SortedUnique | lib/node-conversion.js:313-330 | two sorted arrangements of the same elements are equal |
| Sorting.SortOrderIndependent | lib/node-conversion.js:313-330 | lists with the same elements sort to the same list, whatever order they were found in |
| JsObject.OrdMap.Get | lib/node-conversion.js:426-445 | a lookup finds exactly the keys the table holds, with their values |
| JsObject.OrdMap.Put | lib/node-conversion.js:441-443 | `o[k] = v` keeps the table valid, sets the value, keeps an existing key's place and puts a new key last |
| JsObject.OrdMap.EntriesOf | lib/node-conversion.js:322-324 | the entries for the given keys, in that order, with their values |
| JsObject.OrdMap.SortedEntries | lib/node-conversion.js:322-334 | `Object.keys(o).sort()` with each key's value: sorted keys, each key once, each with its value |
| JsObject.SortedEntriesMembers | lib/node-conversion.js:322-334 | the sorted entries are exactly the entries of the table |
| JsString.Substr | lib/node-conversion.js:375-385 | `substr` gives no more characters than the string has or than were asked for |
| JsString.SubstrPrefix | lib/node-conversion.js:236 | `s.substr(0, p.length) == p` is exactly a prefix test |
| JsString.SubstrSuffix | lib/node-conversion.js:271-285 | `s.substr(s.length - t.length, t.length) == t` is exactly a suffix test, shorter strings included |
| JsString.CharAt | lib/node-conversion.js:236 | `s[i]` is the character inside the string and `undefined` outside it |
| JsString.IndexOf | npm.js:192 | `indexOf` gives the first occurrence, or -1 exactly when there is none |
| JsString.LastIndexOf | npm.js:39 | `lastIndexOf` gives the last occurrence, or -1 exactly when there is none |
| JsString.IndexOfSub | npm.js:35 | `indexOf` of a longer string gives the first position it occurs at, or -1 exactly when it occurs nowhere |
| JsString.SplitCount | lib/node-conversion.js:413 | `split(c).length` is at least one, and one when `c` does not occur |
| JsString.PadStart | npm.js:70 | `padStart` fills on the left up to the length, keeping the string at the end |
| JsString.Split | lib/utils.js:7 | the pieces of `split` hold no separator, there is at least one, and a string without the separator is its own only piece |
| JsString.SplitPair | lib/utils.js:3-7 | two pieces without the separator, joined by it, split back into the two |
| JsString.JoinSplit | lib/utils.js:7 | joining the pieces of `split` with the separator gives the string back |
| Json.Indices | npmrc.js:20 | `for (p in array)` visits the numerals `0`, `1`, … of the indices |
| Json.IndicesDistinct | npmrc.js:20 | `for (p in array)` visits each property name once: no two indices share a numeral |
| Json.ArrayIndex | npmrc.js:23 | a property name denotes an element only when it is that element's numeral |
| Json.ArrayIndexOfDecimal | npmrc.js:23 | every index is named by its numeral |
| Json.Get | npmrc.js:52 | `v[k]` finds an object's own names and an array's elements by numeral, and nothing on `null` and the other primitives |
| Json.GetIndex | npmrc.js:23 | the element at index `i` is the property named by the numeral of `i` |
| Json.ForInKeys | npmrc.js:20 | `for (p in v)` visits an object's names in order, an array's or a string's indices, and nothing for the other primitives |
| Json.Put | npmrc.js:25-27 | `o[k] = v` sets the value and puts a new name last |
| Json.Delete | npm.js:402 | `delete o[k]` removes exactly that name |
| Json.Text | npm.js:410 | a template literal writes a string as it is |
| Json.EmptyObject | npmrc.js:46 | `{}` has no names |
| Json.Remove | npm.js:402 | removing a name from a list leaves exactly the other names |
| Uri.Merge | lib/node-conversion.js:468 | section 5.2.3 of RFC 3986: the merged path ends with the reference, and starts with `/` when the base does |
| Uri.RemoveDots | lib/node-conversion.js:468 | the loop of section 5.2.4 of RFC 3986 leaves no `.` or `..` segment in its output |
| Uri.DotRuleIffDotSegment | lib/node-conversion.js:468 | steps 2A-2D of section 5.2.4 apply exactly when the first segment of the input is a dot segment |
| Uri.RemoveDotsAbsolute | lib/node-conversion.js:468 | an input starting with `/` leaves a non-empty output of segments that all start with `/` |
| NodeResolve.ResolvesAs | lib/node-conversion.js:467-468 | a request whose merged, cleaned path equals a clean path resolves to that path |
| RequireRules.ResolvesFromRootFile | lib/node-conversion.js:467-470 | `./p` from a file at the package root is probed as `p` |
| RequireRules.JsonExtensionAdded | lib/node-conversion.js:271-273 | the resolution `p.json` of the request `./p` passes the `.json` test, and cutting the last five characters gives `p` |
| CoreModules.BufferNotShim | lib/node-conversion.js:11-41 | `buffer` is not among the shimmed modules |
| NpmLookup.WithETag | npm.js:239-242 | adding the entity tag puts `if-none-match` after `accept`, which keeps its value |

## Left out

- File-system access is not modelled: directory traversal with `readdirp`, the reads and writes in `parseModule`, including rewriting an empty file to `' '`, and every `.npmrc` read. The file tree, the file contents and the `.npmrc` files are inputs. For `npmrc.js` only the "file missing" case (`ENOENT`, which reads as empty) is modelled; other read errors propagate in the source and are not modelled.
- `ini.decode`, the home-directory and environment lookups, and `Npmrc.prototype.exists` are foreign or environment code. A decoded `.npmrc` is an input object.
- Files are processed one after another, in listing order. In the source every read starts at once and each file is processed when its read completes; the order in which the reads complete is not modelled.
- Traceur parsing, the scope-tracking transformer and the detection regular expressions are not modelled. A file is described by the facts the analysis reads from it: whether each pattern matches, and its syntax-tree nodes in walk order. `lib/deps-transformer.js` is not part of this model.
- NodeResolve.ResolvePath: `url.resolve` runs Node's legacy URL parser first, and that parser is not modelled. It trims surrounding whitespace, turns `\` into `/` ahead of any `?`, and percent-escapes tab, CR, LF, space, `"`, `'`, `<`, `>`, `^`, backtick, `{`, `|` and `}`; it also splits off a `?` query and a `#` fragment. Here the parent and the request are plain paths, and only the merge and the dot-segment removal of RFC 3986, section 5.2, apply. So a require of `./a b` next to `a b.json` resolves to that file here, while the source looks up `a%20b` and finds nothing.
- Conversion.PackageName: a `name` that is not a string (a number, a boolean, an object or an array) counts as no name, so any file with a require fails the conversion. In the source only an undefined or null name throws at line 236. For a number or a boolean the self-reference test there is simply false; an array or an object with a `length` behaves in yet other ways.
- Sorting.Sort: strings here are sequences of Unicode code points, while JavaScript strings are sequences of UTF-16 code units. `sort()` compares code units, so a key holding U+1F600 sorts before one holding U+FF01 in the source and after it here. The same difference affects the length test of the self-reference rule at line 236 (in a package named `ab`, a require of the single character U+1F600 has length 2 in the source and 1 here) and every `substr` offset.
- JavaScript's prototype chain is not modelled: `p in a` is treated as an own-property test. So `nodeCoreModules[req]` at lib/node-conversion.js:244 is falsy here for `require('constructor')`, `require('toString')` or `require('__proto__')`, and CoreModules.Lookup treats these names as absent; in the source the inherited value is truthy, the `.indexOf` call that follows throws, and the conversion fails.
- JSON numbers are integers (`Json.JNum` holds an `int`). A non-integral number in a package descriptor or an `.npmrc` cannot be represented; numbers are only tested for truthiness, copied, or written out as text (`Json.Text`), and `NaN`, infinities and `-0` do not arise.
- `Object.keys` ordering of integer-like names is not modelled: names stay in insertion order.
- PackageMeta.CommonStep: the `JSON.stringify` comparison of two `globals` objects is modelled as equality of the name-to-module tables. Two objects with the same entries in a different order compare unequal in the source and equal here.
- Non-string `format` values in a descriptor or in per-file metadata are treated as absent.
- NpmrcConfig.Dextend: an array given a property that is neither an element nor the next index, which JavaScript would store as a sparse or named property, ends the merge with `Unrepresentable`. Changes made before a `TypeError` are not kept, because the failing call leaves nothing behind in this model.
- URL parsing and formatting are not modelled. This covers `new URL` and its validity checks: for example, a scope value `""` makes `new URL` throw in the source. It also covers `url.parse` and `url.format` in `ensureSourceUrlRegistry`, which is a parameter (`rehost`) of the resolution.
- HTTP fetching, the publish request, gzip, SHA-1 and ssri hashing, and the `toReadable` adapter are network and stream code. Of the publish body only the streamed base-64 `data` field and its `bufferLength` are modelled; the JSON text around them is not.
- Semver validation, dist-tag handling, `lookup`, `resolve` and the other registry operations outside `npmLookup` and `versionDataToResolved` are not modelled.
- The interactive one-time-password prompt is a parameter. Only its validator is modelled.
- NpmAuth.BufferText: every value that is not a string fails. Node copies an array's elements as bytes instead, and an `.npmrc` written `_auth[] = …` decodes to an array.
- NpmLookup.Prune: dependencies that are an array or a string are returned unchanged. Deleting an array element, which leaves a hole, is not modelled.
- Node's limit on buffer sizes is not modelled: byte sequences are unbounded.
