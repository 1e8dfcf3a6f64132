# Offline VSIX downloader: a verified model of its core

The program downloads Visual Studio Code marketplace extensions (`.vsix` packages) and VS Code
server releases for machines without network access. This project models its core logic in Dafny
and proves properties of that model:

- **Extension specifiers**, in `extension.dfy` and `extension_list.dfy`. A specifier has the form
  `publisher.package[@version][=platform]`. It comes from an inline token, a line of a listing
  file, or a descriptor of an `extensions.json` manifest. The collected specifiers are sorted by
  name and deduplicated by name.
- **The marketplace side of a download**, in `marketplace.dfy`:
  - the platform allow-list
  - the path to data in the query reply
  - version selection over the reply's `versions` array
  - the download URL and the curl arguments
  - the scan of the saved response headers for the content encoding
  - the "already downloaded, skip" decision
- **The VS Code server release helpers**, in `server.dfy`:
  - platform and architecture normalisation
  - the latest commit from the update service's reply
  - the archive's path, URL and extension
  - the target directory and archive-format dispatch of the extraction step
- **The two HTTP header parsers**, in `httpheaders.dfy`. One reads the `content-encoding` value of a
  saved header file. The other reads the file name of its `content-disposition` header: the
  `filename`/`filename*` parameters of RFC 6266 section 4.1, with `filename*` preferred as section
  4.3 asks, and the `charset'language'` prefix of an RFC 8187 section 3.2.1 ext-value removed.

Supporting modules:
- `Wrappers`: `Option`, `Result`, `Outcome`.
- `Json`: the values the code reads from `serde_json`.
- `Process`: how a spawned command ended.
- `Text`: the Rust string operations the code relies on, with their exact edge cases:
  - `trim` uses the Unicode White_Space set
  - `split` always yields at least one piece
  - `lines` drops a `\r` before each `\n`
  - `find`, `rfind` and `replacen(.., 1)`
  - byte-wise lexicographic order

Step-by-step code is modelled as methods with loops and their invariants. Each such method is proved
equal to a specification function, and the behaviour the code promises is proved about those
functions as lemmas. Examples: the key walk of `parse_ext_dict`, the version scan of
`query_version`, the header loops, the table scans of `get_platform_info`, and the push loop of
`list_extensions`. Curl, the filesystem and the network are not modelled; their outcomes are
parameters.

## Model

| member | source | states |
|---|---|---|
| Extension.SplitAtMark | src/extension.rs:300-306 | Cuts at the first occurrence of the mark. Without a mark the line comes back whole. With one, the line is the part before, the mark and the part after, and the part before holds no mark. |
| Extension.SplitAtMarkOf | src/extension.rs:300-306 | When `a` holds no mark, `a + mark + b` is cut into exactly `a` and `b`. |
| Extension.ParseExtLineRoundTrip | src/extension.rs:307-322 | Let the normalized line be the trimmed line minus one trailing `.vsix`. `parse_ext_line` accepts exactly when the part of it before the first `=` and first `@` holds a `.`. The accepted extension's name is the normalized line, and its publisher, package and version hold no mark that was cut earlier. |
| Extension.BlankLineDropped | src/extension.rs:315-316 | An all-whitespace line yields no extension: it is dropped rather than rejected. |
| Extension.ExtensionName | src/extension.rs:165-181 | Definition: `publisher.package`, then `@version` and `=platform` when present. `Extension.ParseNameRoundTrip` states that parsing it gives the extension back. |
| Extension.Normalized | src/extension.rs:308-312 | Definition: the line trimmed, then one trailing `.vsix` removed. `Extension.ParseExtLineRoundTrip` states what is parsed from it. |
| Extension.IdPart | src/extension.rs:313-314 | Definition: the part before the first `=`, and of that the part before the first `@`. `Extension.ParseExtLineRoundTrip` states that a line parses exactly when this part holds a `.`. |
| Extension.ParseExtLine | src/extension.rs:307-322 | Definition: the line trimmed, one `.vsix` tail removed, and cut at the first `=`, `@` and `.`. `Extension.ParseExtLineRoundTrip` and `Extension.BlankLineDropped` state what it accepts and yields. |
| Extension.DescriptorExtension | src/extension.rs:324-354 | Definition: the extension of a manifest descriptor. `Extension.DescriptorFields` and `Extension.DescriptorPlatformCases` state its fields, and `Extension.ParseExtDict` computes it with the code's loop. |
| Extension.Walk | src/extension.rs:331-340 | Definition: the descent through `metadata` and `targetPlatform` that stops at the first missing key. `Extension.ParseExtDict` computes it with the code's loop, and `Extension.DescriptorPlatformCases` states its outcomes. |
| Extension.DescriptorPlatform | src/extension.rs:341-347 | Definition: the value the descent reaches, when it is a string other than "undefined" and "none". `Extension.DescriptorPlatformCases` states its cases. |
| Extension.ParseNameRoundTrip | src/extension.rs:165-181 | The `get_extension_name` of an extension without stray marks, surrounding whitespace or a `.vsix` tail parses back to that same extension. |
| Extension.DescriptorFields | src/extension.rs:324-354 | A descriptor gives an extension exactly when `identifier.id` is a string that parses. Publisher and package come from the id. Version and platform come from the descriptor's own fields, overriding the id's. |
| Extension.DescriptorPlatformCases | src/extension.rs:331-347 | `metadata.targetPlatform` is the platform unless it is "undefined" or "none". With no `metadata`, there is no platform. When `metadata` has no `targetPlatform`, the walk stops at `metadata`: that value, if a string, becomes the platform. |
| Extension.ParseExtDict | src/extension.rs:324-354 | The loop over `metadata`, `targetPlatform` that stops at the first missing key computes the descriptor's extension. |
| ExtensionList.TokenExtensions | src/extension.rs:356-393 | One token's loop body pushes its candidates: an inline specifier, the descriptors of a JSON array or object, or the lines of a listing. It panics when an existing file cannot be read or its JSON cannot be parsed, with the `expect` text followed by `: ` and the error's `Debug` text. |
| ExtensionList.ManifestExtensions | src/extension.rs:371-377 | The loop over a JSON array pushes, in order, the extension of every descriptor that gives one. |
| ExtensionList.ListingExtensions | src/extension.rs:387-392 | The loop over the lines of a listing pushes, in order, the extension of every line that parses. |
| ExtensionList.TokenCandidates | src/extension.rs:359-393 | Definition: one token's candidates: an inline specifier, the descriptors of a JSON array, a JSON object read as one descriptor, or the lines of a listing file. A file that cannot be read or parsed gives the panic message: the `expect` text, `: ` and the error's `Debug` text. `ExtensionList.TokenPanics` states both messages, and `ExtensionList.TokenExtensions` computes it with the code's loop body. |
| ExtensionList.TokenPanics | src/extension.rs:366-370 | An existing file that cannot be read panics with "read file P failed: " followed by the error's `Debug` text. A text starting with `[` or `{` that does not parse panics with "parse json failed from P: " followed by the parse error's `Debug` text. |
| ExtensionList.Candidates | src/extension.rs:359-393 | Definition: the tokens' candidates, in token order, and the first failing token's message. `ExtensionList.CandidatesFailureStays` and `ExtensionList.ListExtensions` state its properties. |
| ExtensionList.LineCandidates | src/extension.rs:387-392 | Definition: the extensions of the lines that parse, in line order. `ExtensionList.ListingExtensions` computes it with the code's loop. |
| ExtensionList.DescriptorCandidates | src/extension.rs:371-377 | Definition: the extensions of the descriptors that give one, in array order. `ExtensionList.ManifestExtensions` computes it with the code's loop. |
| ExtensionList.CandidatesFailureStays | src/extension.rs:366-370 | A panic on one token aborts the whole collection with that token's message. |
| ExtensionList.SortByName | src/extension.rs:395 | The sort by name only reorders the candidates (same multiset). |
| ExtensionList.InsertSorted | src/extension.rs:395 | Inserting into a name-sorted sequence keeps it sorted. |
| ExtensionList.SortByNameSorted | src/extension.rs:395 | The sort's output is ordered by name. |
| ExtensionList.InsertFirstNamed | src/extension.rs:395 | Insertion goes before equal names, so for each name the first element bearing it is unchanged, unless the inserted element carries that name. |
| ExtensionList.SortByNameStable | src/extension.rs:395 | The sort is stable: for every name, the first element bearing it is the same before and after. |
| ExtensionList.DedupByName | src/extension.rs:396 | Definition: `dedup_by_key` on the name, which keeps the first of each run of equal names. The lemmas below state its properties. |
| ExtensionList.DedupKeepsFirst | src/extension.rs:396 | `dedup_by_key` on a sorted sequence keeps, for each name, the first element bearing it. |
| ExtensionList.DedupSortedDistinct | src/extension.rs:396 | Deduplicating a sorted sequence leaves it sorted, with every name once. |
| ExtensionList.DedupKeepsNames | src/extension.rs:396 | Deduplication loses no name. |
| ExtensionList.SortDedup | src/extension.rs:395-396 | After sorting and deduplicating: the result is sorted; every name appears once; each element is the first candidate of its name; every candidate's name is present. |
| ExtensionList.ListExtensions | src/extension.rs:355-397 | `list_extensions` succeeds exactly when no token panics, and then its output is sorted, duplicate-free, made of the first candidate of each name, and covers every candidate's name. Otherwise it fails with the first panic. |
| Marketplace.ValidPlatformIds | src/extension.rs:39-51 | The identifiers of the allow-list, in table order. |
| Marketplace.CheckPlatform | src/extension.rs:38-71 | Passes exactly when no platform is pinned or the pinned platform is one of the eleven identifiers. Otherwise the error names the platform and lists every identifier, comma-separated, in table order. |
| Marketplace.QueryExtension | src/extension.rs:213-226 | A request that cannot be sent fails with the HTTP client's own message, unchanged. An error status or a body that is not JSON fails with "query extension P.Q info failed". A parsed body gives `results[0].extensions[0]` when that path exists, and "no data found in query response" otherwise. |
| Marketplace.QueryExtensionFound | src/extension.rs:218-224 | A reply of the documented shape yields its first extension. |
| Marketplace.Entries | src/extension.rs:119-125 | One entry per element of `versions`, in reply order, with its string `version` and `targetPlatform`. A missing or non-array `versions` gives none. |
| Marketplace.VersionItems | src/extension.rs:119-121 | Definition: the `versions` array, or nothing when it is missing or not an array. `Marketplace.Entries` states the entries read from it. |
| Marketplace.Admits | src/extension.rs:123-151 | Definition: an entry the scan settles on has a version, equal to a pinned one, and either no target platform or the pinned one. `Marketplace.FirstAdmitted` and `Marketplace.SelectVersion` state the selection in terms of it. |
| Marketplace.FirstAdmitted | src/extension.rs:123-153 | The position of the first entry the scan settles on, with no earlier entry admitted. None means no entry is admitted. |
| Marketplace.SelectVersion | src/extension.rs:117-162 | Success is the first admitted entry's version and own target platform. An entry is admitted when it has a version, equal to any pinned version, and when it either has no target platform or has the pinned one. Failure means no entry is admitted, with "query extension P.Q for version failed". |
| Marketplace.QueryVersion | src/extension.rs:117-162 | The scan with `continue` and early `return` computes the query followed by the selection. |
| Marketplace.AdmittedPlatform | src/extension.rs:138-151 | A selected platform is never other than the pinned one; an unpinned request always resolves to no platform. |
| Marketplace.DownloadUrl | src/extension.rs:238-243 | Definition: the three `replacen` calls on the URL pattern, then `?targetPlatform=` when a platform is given. `Marketplace.DownloadUrlParts` states the URL's shape. |
| Marketplace.CurlArgs | src/extension.rs:247-257 | Definition: `-fSL`, then `-C -` when cached, then the URL, `-o` with the `.downloading` file and `-D` with the `.header` file. `Marketplace.CurlRequest` computes it the way the code does. |
| Marketplace.DownloadUrlParts | src/extension.rs:238-243 | Publisher, package and version fill the three `{}` slots of the URL pattern in order. `?targetPlatform=p` is appended only when a platform is given. |
| Marketplace.FilledSlots | src/extension.rs:238-240 | The three `replacen` calls put publisher, package and version into the slots in that order. |
| Marketplace.FillTemplate | src/extension.rs:238-243 | The `replacen` chain and the optional `?targetPlatform=` compute the download URL. |
| Marketplace.CurlRequest | src/extension.rs:238-257 | The URL is built by three `replacen` calls and the optional platform parameter. The arguments are `-fSL`, then `-C -` when cached, then the URL and the `.downloading` and `.header` files. |
| Marketplace.EncodingOf | src/extension.rs:276-281 | A header line announces an encoding exactly when its trimmed, lower-cased form starts with "content-encoding". |
| Marketplace.EncodingValue | src/extension.rs:279-280 | The announced value is the lower-cased text after the last `:` (the whole line without one), untrimmed. |
| Marketplace.LastEncodingWins | src/extension.rs:275-282 | The scan's result is "" when no line announces an encoding. Otherwise it is the value of an announcing line after which no line announces one: the last line wins. |
| Marketplace.LastEncodingStep | src/extension.rs:276-281 | Each line either replaces the encoding found so far or leaves it. |
| Marketplace.LastEncoding | src/extension.rs:275-282 | Definition: the value of the last announcing line, or "" without one. `Marketplace.LastEncodingWins` states that, and `Marketplace.ScanEncoding` computes it with the code's loop. |
| Marketplace.EncodingStep | src/extension.rs:277-281 | The loop body replaces the encoding found so far exactly when the line announces one. |
| Marketplace.ScanEncoding | src/extension.rs:275-282 | The loop that overwrites `encoding` computes the last announced value. |
| Marketplace.WriteBody | src/extension.rs:283-296 | Succeeds exactly when reading the body, decoding it (only when gzip is announced), writing the output and removing both temporary files all succeed. Otherwise it gives the first failing step's error. |
| Marketplace.SaveBody | src/extension.rs:275-296 | The body is gzip-decoded exactly when the last announced encoding contains "gzip". The result is an unreadable header's error, or what `WriteBody` gives. |
| Marketplace.DownloadExtension | src/extension.rs:229-297 | The curl call is the download URL of the given publisher, package, version and platform, with the arguments for the given output file and cache flag. The call succeeds exactly when curl exits successfully and every later step succeeds, and it reports whether the body was decoded. A non-zero exit gives "exec command curl ARGS failed" with those arguments. A spawn error is passed on, and a later failure gives its own error. |
| Marketplace.Download | src/extension.rs:73-115 | The platform check, then version resolution (the pinned version and platform, or the query's), each fail with their own error. `Success(false)` exactly when cached (the default) and `<dir>/<name>.vsix` exists. A failed directory creation gives its error. Curl is invoked exactly when none of these stopped the download. The invocation fetches the resolved version and platform of this publisher and package, writes to `<dir>/<name>.vsix`, and passes `-C -` exactly when caching is on. `Success(true)` exactly when that download succeeds; otherwise its error is passed on. |
| Marketplace.OutputFile | src/extension.rs:82-97 | Definition: `<dir>/<name>.vsix`, named after the extension as requested. `Marketplace.Download` states the skip and the curl target in terms of it. |
| Marketplace.RequestFor | src/extension.rs:97-111 | Definition: the curl invocation `download` asks for, built from the resolved version and platform, the output file and the cache flag. `Marketplace.Download` states that it is the one made. |
| Marketplace.Resolve | src/extension.rs:84-96 | Definition: the pinned version with the pinned platform, or else the query's selection. `Marketplace.Download` states each of its outcomes. |
| Marketplace.Resolvable | src/extension.rs:82-96 | Definition: the platform check passes and a version is resolved. `Marketplace.Download` states when it stops before this point. |
| Marketplace.Skipped | src/extension.rs:97-101 | Definition: caching is on (the default) and the output file exists. `Marketplace.Download` states that exactly then it returns `Success(false)`. |
| HttpHeaders.FirstEncodingNone | src/utils.rs:16-30 | No encoding is found exactly when no line qualifies. |
| HttpHeaders.FirstEncodingFirst | src/utils.rs:16-28 | A found encoding is that of the first qualifying line, with no earlier line qualifying. |
| HttpHeaders.LineEncodingValue | src/utils.rs:17-25 | A line's encoding is lower-case and has no surrounding whitespace. |
| HttpHeaders.ContentEncodingLowercase | src/utils.rs:8-31 | Any encoding returned is lower-case. |
| HttpHeaders.EncodingInLine | src/utils.rs:17-27 | The loop body gives the trimmed text after the first `:` of a line starting with "content-encoding" and holding a `:`. Otherwise it continues. |
| HttpHeaders.EncodingFound | src/utils.rs:16-28 | A qualifying line after only non-qualifying ones decides the result. |
| HttpHeaders.ScanForEncoding | src/utils.rs:16-30 | The loop with `continue` and early `return` gives the first qualifying line's encoding. |
| HttpHeaders.ParseContentEncoding | src/utils.rs:8-31 | An unreadable header gives None. Otherwise the result is the first qualifying line's encoding. |
| HttpHeaders.ContentEncodingOf | src/utils.rs:8-31 | Definition: no encoding for an unreadable header, otherwise the first line's encoding that gives one. `HttpHeaders.ParseContentEncoding` computes it, and `HttpHeaders.ContentEncodingLowercase` states it is lower-case. |
| HttpHeaders.LineEncoding | src/utils.rs:17-27 | Definition: the trimmed text after the first `:` of a trimmed, lower-cased line that starts with "content-encoding". `HttpHeaders.LineEncodingValue` and `HttpHeaders.EncodingInLine` state its properties. |
| HttpHeaders.FirstEncoding | src/utils.rs:16-30 | Definition: the encoding of the first line that gives one. `HttpHeaders.FirstEncodingNone` and `HttpHeaders.FirstEncodingFirst` state its properties, and `HttpHeaders.ScanForEncoding` computes it with the code's loop. |
| HttpHeaders.DispositionInLine | src/utils.rs:43-52 | The loop head gives the text after the first `:` of a trimmed, lower-cased line starting with "content-disposition". Otherwise it continues. |
| HttpHeaders.DispositionParams | src/utils.rs:43-52 | Definition: the text after the first `:` of a trimmed, lower-cased line that starts with "content-disposition". `HttpHeaders.DispositionInLine` computes it with the code's loop head, and `HttpHeaders.FirstDispositionDecides` states that the first line giving it decides the result. |
| HttpHeaders.FirstDispositionNone | src/utils.rs:42-79 | Without a qualifying line there is no file name. |
| HttpHeaders.FirstDispositionDecides | src/utils.rs:42-78 | Only the first qualifying line counts: its parameters give the result, even when they name no file and a later line would. |
| HttpHeaders.Ranked | src/utils.rs:60-64 | Every rank is 1 or 4. `HttpHeaders.RankedValues` states which values survive. |
| HttpHeaders.RankedValues | src/utils.rs:60-64 | Every ranked value is the value of a `filename` parameter with rank 4, or of a `filename*` parameter with rank 1. Every such parameter's value is ranked. |
| HttpHeaders.Parameters | src/utils.rs:53-59 | Definition: each `;`-separated piece in order, trimmed and split at its first `=`, with key and value trimmed. A piece without a `=` gives no parameter. `HttpHeaders.ParametersValues` and `HttpHeaders.ParametersAppend` state its properties. |
| HttpHeaders.ParametersValues | src/utils.rs:53-59 | A pair is a parameter exactly when some piece parses to it. |
| HttpHeaders.ParametersAppend | src/utils.rs:53-59 | The parameters of consecutive pieces follow in the pieces' order. |
| HttpHeaders.SortByRank | src/utils.rs:65-66 | Definition: a stable insertion sort by rank, standing for `sort_by`. `HttpHeaders.SortByRankPermutes` and `HttpHeaders.SortByRankHead` state its properties. |
| HttpHeaders.SortByRankPermutes | src/utils.rs:65-66 | The sort by rank only reorders. |
| HttpHeaders.SortByRankHead | src/utils.rs:65-71 | The sorted head is an element of least rank, and every element before it in the input ranks strictly higher: the sort is stable. |
| HttpHeaders.RankedFirst | src/utils.rs:53-64 | The first rank-1 element is the first `filename*` value. The first rank-4 element is the first `filename` value. None survive exactly when neither parameter occurs. |
| HttpHeaders.RankedFirstKey | src/utils.rs:60-64 | For `filename*` with rank 1 and for `filename` with rank 4, the first parameter of that name is the first element of that rank. |
| HttpHeaders.RankedEmpty | src/utils.rs:60-64 | No element survives exactly when neither `filename*` nor `filename` occurs. |
| HttpHeaders.PreferredHead | src/utils.rs:53-72 | The sorted head is the first `filename*` value if there is one, else the first `filename` value. It is empty exactly when neither occurs. |
| HttpHeaders.StripCharset | src/utils.rs:73-76 | Without "''" the name is unchanged. With one, the name is its text before the first "''", then "''", then the result. |
| HttpHeaders.FileNamePreferred | src/utils.rs:53-77 | A parameter text names the preferred file name (RFC 6266 section 4.3) with its ext-value prefix removed. |
| HttpHeaders.FileNameIn | src/utils.rs:53-77 | Definition: the first value of the stable rank sort, with everything up to its first `''` removed. `HttpHeaders.FileNamePreferred` states which parameter that is. |
| HttpHeaders.Preferred | src/utils.rs:60-72 | Definition: the first `filename*` value, else the first `filename` value, as RFC 6266 section 4.3 prefers. `HttpHeaders.PreferredHead` states that the rank sort picks it. |
| HttpHeaders.FirstDisposition | src/utils.rs:42-78 | Definition: the file name of the first `content-disposition` line with a `:`. `HttpHeaders.FirstDispositionNone` and `HttpHeaders.FirstDispositionDecides` state its properties, and `HttpHeaders.ScanForDisposition` computes it with the code's loop. |
| HttpHeaders.FirstDispositionLowercase | src/utils.rs:43-77 | Any file name found is lower-case. |
| HttpHeaders.ScanForDisposition | src/utils.rs:42-79 | The loop computes the file name of the first qualifying line. |
| HttpHeaders.ParseContentDisposition | src/utils.rs:33-80 | An unreadable header gives None. Otherwise it gives the first qualifying line's file name. |
| HttpHeaders.ContentDispositionOf | src/utils.rs:33-80 | Definition: no file name for an unreadable header, otherwise the first disposition's. `HttpHeaders.ParseContentDisposition` computes it. |
| Server.Normalize | src/server.rs:23-30 | The table scan with `break` gives the first entry's value for the key, or the key itself when no entry has it. |
| Server.Translate | src/server.rs:24-29 | Definition: the value of the first table entry for the name, or the name itself. `Server.Normalize` computes it with the code's loop, and `Server.OsNamesCases`/`Server.ArchNamesCases` give it for the two tables. |
| Server.GetPlatformInfo | src/server.rs:12-47 | An override is returned verbatim. Only without one is the host's OS or architecture looked up in its table. |
| Server.OsNamesCases | src/server.rs:13-18 | linux→linux, windows→win32, macos→darwin, alpine→alpine; any other name unchanged. |
| Server.ArchNamesCases | src/server.rs:19 | x86_64→x64, aarch64→arm64, arm→armhf; any other name unchanged. |
| Server.NormalizeIdempotent | src/server.rs:13-19 | A normalised name normalises to itself. |
| Server.LatestRelease | src/server.rs:49-73 | Definition: the commit from the update service's reply, or the error of each way the query can fail. `Server.LatestReleaseFound` and `Server.LatestReleaseUnusable` state its properties. |
| Server.CommitsUrl | src/server.rs:50-53 | Definition: the update service's commits query for a platform and architecture. `Server.CommitsUrlText` writes it out. |
| Server.CommitsUrlText | src/server.rs:50-53 | The query URL is `https://update.code.visualstudio.com/api/commits/stable/<platform>-<arch>`. |
| Server.CommitOf | src/server.rs:65-68 | Definition: the first array element, when it is a string. `Server.LatestReleaseFound` and `Server.LatestReleaseUnusable` state both outcomes. |
| Server.LatestReleaseFound | src/server.rs:49-73 | A commit is returned exactly when curl ran and exited successfully and the parsed reply is an array whose first element is that commit as a string. |
| Server.LatestReleaseUnusable | src/server.rs:65-70 | Three replies fail with "query vscode server commit id failed, url U": a non-array, an empty array, or a non-string first element. |
| Server.PathJoin | src/server.rs:82 | `Path::join` on Unix: an absolute name replaces the base. A relative name follows the base. A '/' is put between them exactly when the base is non-empty and does not already end in one. |
| Server.ArchivePath | src/server.rs:81-82 | Definition: `vscode-<prefix>-<arch>-<commit>` joined onto the output directory. `Server.ArchivePathOf` writes it out. |
| Server.ArchivePathOf | src/server.rs:81-82 | The archive path is the output directory, then a `/` unless that directory is empty or already ends in one, then `vscode-<prefix>-<arch>-<commit>`. |
| Server.ReleaseUrl | src/server.rs:86-89 | Definition: the release download for a commit, prefix and architecture. `Server.ReleaseUrlText` writes it out. |
| Server.ReleaseUrlText | src/server.rs:86-89 | The download URL is `https://update.code.visualstudio.com/commit:<commit>/<prefix>-<arch>/stable`. |
| Server.ReleaseCurlArgs | src/server.rs:90-101 | Definition: `-fSL -C -`, the URL, `-o` with the `.downloading` file and `-D` with the `.header` file. `Server.DownloadReleaseFile` states that this call is the one made. |
| Server.ArchiveExtension | src/server.rs:116-128 | Definition: the extension taken from the announced file name, or `.tar.gz` without one or for a name without `.`. `Server.ArchiveExtensionDefault` states the default. `Server.ArchiveExtensionSuffix` and `Server.ArchiveExtensionOf` state the extension of a name with a `.`. |
| Server.ArchiveExtensionSuffix | src/server.rs:116-127 | A name ending in `.` plus a dot-free piece gets `.piece` as its extension. It gets `.tar.piece` when the text before ends with `.tar`. |
| Server.ArchiveExtensionOf | src/server.rs:116-127 | A name with a `.` gets its last dot-separated piece, with `.tar` in front when the stem ends with `.tar`. The extension is a suffix of the name. |
| Server.ArchiveExtensionDefault | src/server.rs:116-128 | Without an announced file name, or with one holding no `.`, the extension is `.tar.gz`. |
| Server.DownloadReleaseFile | src/server.rs:75-134 | Succeeds exactly when creating the directory, curl, the rename and the removal all succeed. The result is `output_dir/vscode-prefix-arch-commit` plus the extension: taken from the announced file name, with `.tar.gz` as the default. Each failing step gives its own error, including "exec command curl ARGS failed" for a non-zero exit. The curl call is returned. It is made exactly when the directory is created, and it fetches the release URL with the `ReleaseCurlArgs` arguments for the archive path. |
| Server.PrepareReleaseDir | src/server.rs:136-161 | Extraction starts exactly when the directory is ready and the name ends with `.tar.gz` or `.zip`. Readiness means removed if it existed, then created. The extraction targets `output_dir/bin/commit`, uses the matching format, and always strips the top level. An unknown extension fails with "unable to extract file F" without extracting. A started extraction's outcome is the result. |
| Server.CommitDir | src/server.rs:142-144 | Definition: `bin` and then the commit joined onto the output directory. `Server.CommitDirPath` writes it out. |
| Server.CommitDirPath | src/server.rs:142-144 | For an output directory that does not end in `/` and a relative commit name, the directory is `<outputDir>/bin/<commit>`. |
| Server.DirReady | src/server.rs:145-150 | Definition: the commit directory is removed if it existed, and then created. `Server.PrepareReleaseDir` states each failure. |
| Server.FormatOf | src/server.rs:153-159 | Definition: tgz for a name ending in `.tar.gz`, zip for one ending in `.zip`, and none otherwise. `Server.PrepareReleaseDir` dispatches on it. |
| Server.DefaultArchiveExtracts | src/server.rs:128 | An archive saved under the default extension is extracted as tgz. |
| Server.ZipArchiveExtracts | src/server.rs:155-156 | An announced name ending in `.zip` gives an archive extracted as zip. |
| Server.TgzArchiveExtracts | src/server.rs:153-154 | An announced name ending in `.tar.gz` gives an archive extracted as tgz. |

## Left out

External steps:
- The curl, tar and zip subprocesses and libraries (src/extension.rs:258-274, src/server.rs:54-62 and 105-115, src/utils.rs:82-121). They are foreign code. How a process ended is a `Process.Status` parameter, and extraction is modelled only as the `Extraction` `prepare_release_dir` starts, with its outcome as a parameter.
- Gzip decoding. Only the decision to decode, and the decoder's outcome, are modelled.
- The HTTP request of `query_extension` and its JSON payload (src/extension.rs:188-212). For that step the model starts from what the POST came back with (`Marketplace.QueryReply`). That is one of three things: a send error carrying the HTTP client's own message, an error status or a body that is not JSON, or the parsed body.
- JSON parsing, UTF-8 decoding and `shellexpand`. These are foreign; the parsed value or the error's `Debug` text, the decoded text and the expansion are inputs. Curl's standard error that is not valid UTF-8 is the empty string, as in the code.
- Filesystem effects: existence, reading, directory creation, writing, rename and removal. Their outcomes are parameters. The headers are read as text; the payload bytes are not modelled.

The host and the rest of the program:
- `env::consts::OS`, `env::consts::ARCH`. They are parameters. The `server-`/`cli-` prefix is chosen elsewhere and is a parameter as well.
- src/cli.rs and src/main.rs. They hold argument parsing and the entry point only.
- Logging (`debug!`, `info!`).

Modelling choices:
- `Text.ToLower`: lower-cases ASCII letters only. Rust's `to_lowercase` also folds non-ASCII letters, and that Unicode table is not modelled.
- Positions and string lengths are counted in characters, not UTF-8 bytes. For the ASCII marks searched for here the results are the same.
- Paths follow Unix rules only: `/` is the separator, and an absolute name replaces the base in `Path::join`.
- JSON numbers are integers. No number is read by the modelled code.
- The in-place `sort_by` and `dedup_by_key` of the Rust standard library are modelled by what they compute: a stable insertion sort (`ExtensionList.SortByName`, `HttpHeaders.SortByRank`) and a keep-first-of-each-run function (`ExtensionList.DedupByName`) on sequences. The library's own algorithm and the in-place update are not modelled.
- The `expect` panics of `list_extensions` are modelled as a `Failure` carrying the panic message `"{msg}: {err:?}"`. The `Debug` text of the foreign `io::Error` or `serde_json::Error` is an input, held by the failed read or parse in `ExtensionList.FileView`.
- The code can never reach the "query version for X failed" error of `Extension::download` (src/extension.rs:88-92), because `query_version` only succeeds with a version. The model has no such state.
- `Marketplace.DownloadUrlParts`: requires that publisher and package hold no `{}`. A `{}` inside one of them would itself be replaced by the next `replacen`; `Marketplace.DownloadUrl` models that case as written, but the slot-by-slot equation is proved only without it.

Behaviour the model keeps exactly as the code has it:
- `query_version`'s platform rule. With a pinned platform, an entry without `targetPlatform` is accepted, and it resolves to no platform. Without a pinned platform, every entry that has a `targetPlatform` is skipped, so the result never carries one (src/extension.rs:138-151).
- `strip_suffix` cuts at the first `=`, `@` and `.`, not the last, because it uses `find` (src/extension.rs:300-306). A publisher therefore never contains `.`.
- `parse_ext_line` trims the line before removing `.vsix`.
