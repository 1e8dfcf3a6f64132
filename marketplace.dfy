/** The marketplace side of `src/extension.rs`: the platform allow-list, the query response path,
    version selection, the download URL and curl arguments, the content-encoding scan of the saved
    response headers, and the cached-skip decision of `Extension::download`. Network replies, the
    curl process and every filesystem step are inputs. */
module Marketplace {
  import opened Wrappers
  import opened Text
  import opened Json
  import opened Extension
  import opened Process

  // ---------------------------------------------------------------- check_platform

  /** The platforms the marketplace knows, with their descriptions, in the order they are listed. */
  const ValidPlatforms: seq<(string, string)> := [
    ("win32-x64", "Windows x64"),
    ("win32-ia32", "Windows ia32"),
    ("win32-arm64", "Windows ARM"),
    ("linux-x64", "Linux x64"),
    ("linux-arm64", "Linux ARM64"),
    ("linux-armhf", "Linux ARM32"),
    ("darwin-x64", "macOS Intel"),
    ("darwin-arm64", "macOS Apple Silicon"),
    ("alpine-x64", "Alpine Linux 64 bit"),
    ("web", "Web"),
    ("alpine-arm64", "Alpine Linux ARM64")
  ]

  function PlatformIds(table: seq<(string, string)>): seq<string> {
    seq(|table|, k requires 0 <= k < |table| => table[k].0)
  }

  /** The identifiers of the table, in table order. */
  lemma ValidPlatformIds()
    ensures PlatformIds(ValidPlatforms) == ["win32-x64", "win32-ia32", "win32-arm64", "linux-x64", "linux-arm64",
      "linux-armhf", "darwin-x64", "darwin-arm64", "alpine-x64", "web", "alpine-arm64"]
  {
  }

  /** `Extension::check_platform`: no platform, or one of the eleven identifiers, passes; any
      other platform fails with a message listing every identifier, comma-separated, in table order. */
  function CheckPlatform(ext: Extension): (r: Outcome)
    ensures r.Pass? <==> (ext.platform.None? || ext.platform.value in
      {"win32-x64", "win32-ia32", "win32-arm64", "linux-x64", "linux-arm64", "linux-armhf",
       "darwin-x64", "darwin-arm64", "alpine-x64", "web", "alpine-arm64"})
    ensures r.Fail? ==> (r.error == "invalid platform " + ext.platform.value + ", choices in ("
      + Join(["win32-x64", "win32-ia32", "win32-arm64", "linux-x64", "linux-arm64", "linux-armhf",
              "darwin-x64", "darwin-arm64", "alpine-x64", "web", "alpine-arm64"], ", ") + ")")
  {
    ValidPlatformIds();
    if ext.platform.None? || ext.platform.value in PlatformIds(ValidPlatforms) then Pass
    else Fail("invalid platform " + ext.platform.value + ", choices in (" + Join(PlatformIds(ValidPlatforms), ", ") + ")")
  }

  // ---------------------------------------------------------------- query_extension

  /** What the POST of `query_extension` comes back with: the request could not be sent (with the
      HTTP client's own error message), the service answered with an error status or with a body that
      is not JSON, or the parsed body. */
  datatype QueryReply = SendFailed(message: string) | Unreadable | Body(data: Json)

  /** `query_extension` after the request. A send failure passes on its message unchanged; an error
      status or an unreadable body fails with "query extension P.Q info failed"; a parsed body gives the
      first extension of the first result. */
  function QueryExtension(publisher: string, package: string, reply: QueryReply): (r: Result<Json>)
    ensures reply.SendFailed? ==> r == Failure(reply.message)
    ensures reply.Unreadable? ==> r == Failure("query extension " + publisher + "." + package + " info failed")
    ensures reply.Body? && r.Success? ==>
      exists results, extensions ::
        && Get(reply.data, "results") == Some(results) && At(results, 0).Some?
        && Get(At(results, 0).value, "extensions") == Some(extensions)
        && At(extensions, 0) == Some(r.value)
    ensures reply.Body? && r.Failure? ==> r.error == "no data found in query response"
  {
    match reply
    case SendFailed(message) => Failure(message)
    case Unreadable =>
      var name := ExtensionName(publisher, package, None, None);
      assert name == publisher + "." + package;
      assert "query extension " + name + " info failed" == "query extension " + publisher + "." + package + " info failed";
      Failure("query extension " + name + " info failed")
    case Body(data) =>
      match Get(data, "results")
      case None => Failure("no data found in query response")
      case Some(results) =>
        match At(results, 0)
        case None => Failure("no data found in query response")
        case Some(first) =>
          match Get(first, "extensions")
          case None => Failure("no data found in query response")
          case Some(extensions) =>
            match At(extensions, 0)
            case None => Failure("no data found in query response")
            case Some(x) => Success(x)
  }

  /** A reply of the documented shape yields its first extension. */
  lemma QueryExtensionFound(publisher: string, package: string, x: Json, otherExtensions: seq<Json>,
                            firstResult: map<string, Json>, otherResults: seq<Json>, reply: map<string, Json>)
    requires reply == reply["results" := Arr([Obj(firstResult["extensions" := Arr([x] + otherExtensions)])] + otherResults)]
    ensures QueryExtension(publisher, package, Body(Obj(reply))) == Success(x)
  {
    assert "results" in reply;
  }

  // ---------------------------------------------------------------- query_version

  /** One element of the `versions` array of the query reply, as `query_version` reads it. */
  datatype VersionEntry = VersionEntry(version: Option<string>, targetPlatform: Option<string>)

  /** A resolved download: the version to fetch and the platform to ask for. */
  datatype Resolved = Resolved(version: string, platform: Option<string>)

  function EntryOf(item: Json): VersionEntry {
    VersionEntry(StrAt(item, "version"), StrAt(item, "targetPlatform"))
  }

  /** The `versions` array of the reply, or nothing when it is missing or is not an array. */
  function VersionItems(allData: Json): seq<Json> {
    match Get(allData, "versions")
    case None => []
    case Some(v) => if v.Arr? then v.items else []
  }

  /** The entries of the `versions` array, in reply order. */
  function Entries(allData: Json): (es: seq<VersionEntry>)
    ensures |es| == |VersionItems(allData)|
    ensures forall k :: 0 <= k < |es| ==> es[k] == EntryOf(VersionItems(allData)[k])
  {
    var items := VersionItems(allData);
    seq(|items|, k requires 0 <= k < |items| => EntryOf(items[k]))
  }

  /** An entry `query_version` settles on: it has a version, equal to the pinned one if any; and if
      it names a target platform, the extension pins that same platform. */
  predicate Admits(ext: Extension, e: VersionEntry) {
    && e.version.Some?
    && (ext.version.Some? ==> ext.version.value == e.version.value)
    && (e.targetPlatform.Some? ==> ext.platform == e.targetPlatform)
  }

  /** The position of the first admitted entry. */
  function FirstAdmitted(ext: Extension, es: seq<VersionEntry>): (r: Option<nat>)
    ensures r.Some? ==> r.value < |es| && Admits(ext, es[r.value]) && forall j :: 0 <= j < r.value ==> !Admits(ext, es[j])
    ensures r.None? ==> forall j :: 0 <= j < |es| ==> !Admits(ext, es[j])
  {
    if es == [] then None
    else if Admits(ext, es[0]) then Some(0)
    else match FirstAdmitted(ext, es[1..])
      case None => None
      case Some(k) => Some(k + 1)
  }

  /** Version selection on a reply's extension: the first admitted entry, in reply order, gives the
      version and its own target platform; without one, the query fails. */
  function SelectVersion(ext: Extension, allData: Json): (r: Result<Resolved>)
    ensures var es := Entries(allData);
      && (r.Success? ==>
            exists k :: (&& 0 <= k < |es| && Admits(ext, es[k])
                         && (forall j :: 0 <= j < k ==> !Admits(ext, es[j]))
                         && r.value == Resolved(es[k].version.value, es[k].targetPlatform)))
      && (r.Failure? ==>
            && (forall k :: 0 <= k < |es| ==> !Admits(ext, es[k]))
            && r.error == "query extension " + ext.publisher + "." + ext.package + " for version failed")
  {
    var es := Entries(allData);
    match FirstAdmitted(ext, es)
    case None => Failure("query extension " + ExtensionName(ext.publisher, ext.package, None, None) + " for version failed")
    case Some(k) => Success(Resolved(es[k].version.value, es[k].targetPlatform))
  }

  function VersionFromReply(ext: Extension, reply: QueryReply): Result<Resolved> {
    match QueryExtension(ext.publisher, ext.package, reply)
    case Failure(e) => Failure(e)
    case Success(allData) => SelectVersion(ext, allData)
  }

  /** `Extension::query_version`: the scan over the reply's versions, entry by entry. */
  method QueryVersion(ext: Extension, reply: QueryReply) returns (r: Result<Resolved>)
    ensures r == VersionFromReply(ext, reply)
  {
    var allData := QueryExtension(ext.publisher, ext.package, reply);
    if allData.Failure? {
      return Failure(allData.error);
    }
    var items := VersionItems(allData.value);
    ghost var es := Entries(allData.value);
    for k := 0 to |items|
      invariant forall j :: 0 <= j < k ==> !Admits(ext, es[j])
    {
      var version := StrAt(items[k], "version");
      var platform := StrAt(items[k], "targetPlatform");
      assert es[k] == VersionEntry(version, platform);
      var chosen: string;
      if ext.version.Some? && version.Some? {
        if ext.version.value != version.value {
          continue;
        }
        chosen := version.value;
      } else if version.None? {
        continue;
      } else {
        chosen := version.value;
      }
      if ext.platform.Some? && platform.Some? {
        if ext.platform.value != platform.value {
          continue;
        }
        FirstAdmittedAt(ext, es, k);
        return Success(Resolved(chosen, Some(platform.value)));
      } else if ext.platform.None? && platform.Some? {
        continue;
      } else {
        FirstAdmittedAt(ext, es, k);
        return Success(Resolved(chosen, None));
      }
    }
    r := Failure("query extension " + ExtensionName(ext.publisher, ext.package, None, None) + " for version failed");
  }

  lemma FirstAdmittedAt(ext: Extension, es: seq<VersionEntry>, k: nat)
    requires k < |es| && Admits(ext, es[k]) && forall j :: 0 <= j < k ==> !Admits(ext, es[j])
    ensures FirstAdmitted(ext, es) == Some(k)
  {
  }

  // ---------------------------------------------------------------- download_extension

  /** The marketplace. */
  const MarketplaceSite: string := "https://marketplace.visualstudio.com"

  /** The gallery path in front of the publisher slot of the download URL pattern. */
  const GalleryPublishers: string := MarketplaceSite + "/_apis/public/gallery/publishers/"

  /** The download URL pattern, with three `{}` slots for publisher, package and version. */
  const DownloadTemplate: string := GalleryPublishers + "{}" + ("/vsextensions/" + "{}" + ("/" + "{}" + "/vspackage"))

  /** The URL `download_extension` fetches: each `{}` of the pattern replaced in turn, then the
      platform as a query parameter when there is one. */
  function DownloadUrl(publisher: string, package: string, version: string, platform: Option<string>): string {
    var url := ReplaceFirst(ReplaceFirst(ReplaceFirst(DownloadTemplate, "{}", publisher), "{}", package), "{}", version);
    if platform.Some? then url + "?targetPlatform=" + platform.value else url
  }

  /** No `{}` starts inside `a` when `a` holds none and none straddles the join with `b`. */
  lemma NoSlotIn(a: string, b: string)
    requires !Contains(a, "{}") && (a != [] && b != [] ==> a[|a| - 1] != '{' || b[0] != '}')
    ensures forall j :: 0 <= j < |a| ==> !OccursAt(a + b, "{}", j)
  {
    forall j | 0 <= j < |a| ensures !OccursAt(a + b, "{}", j) {
      assert !OccursAt(a, "{}", j);
      if j + 1 < |a| {
        assert (a + b)[j..j + 2] == a[j..j + 2];
      } else if b != [] {
        assert (a + b)[j..j + 2] == [a[|a| - 1], b[0]];
      }
    }
  }

  lemma NoBraceNoSlot(a: string)
    requires '{' !in a
    ensures !Contains(a, "{}")
  {
    forall j | 0 <= j <= |a| ensures !OccursAt(a, "{}", j) {
      if j + 2 <= |a| {
        assert a[j..j + 2][0] == a[j];
      }
    }
  }

  /** When no `{}` starts inside `a`, the first `{}` of `a + b` is the first of `b`, moved along. */
  lemma FindPast(a: string, b: string)
    requires !Contains(a, "{}") && (a != [] && b != [] ==> a[|a| - 1] != '{' || b[0] != '}')
    ensures Find(a + b, "{}") == if Find(b, "{}").Some? then Some(|a| + Find(b, "{}").value) else None
  {
    NoSlotIn(a, b);
    match Find(b, "{}")
    case Some(i) => FindPastSome(a, b, "{}", i);
    case None => FindPastNone(a, b, "{}");
  }

  lemma FindPastSome(a: string, b: string, pat: string, i: nat)
    requires forall j :: 0 <= j < |a| ==> !OccursAt(a + b, pat, j)
    requires Find(b, pat) == Some(i)
    ensures Find(a + b, pat) == Some(|a| + i)
  {
    NoneBefore(a, b, pat, i);
    OccursPast(a, b, pat, i);
    assert Find(a + b, pat) == Some(|a| + i);
  }

  lemma FindPastNone(a: string, b: string, pat: string)
    requires forall j :: 0 <= j < |a| ==> !OccursAt(a + b, pat, j)
    requires Find(b, pat) == None
    ensures Find(a + b, pat) == None
  {
    NoneBefore(a, b, pat, |b| + 1);
    assert Find(a + b, pat) == None;
  }

  /** No occurrence starts in `a`, nor in `b` before `i` (when `b` has none there). */
  lemma NoneBefore(a: string, b: string, pat: string, i: nat)
    requires forall j :: 0 <= j < |a| ==> !OccursAt(a + b, pat, j)
    requires forall j :: 0 <= j < i && j <= |b| ==> !OccursAt(b, pat, j)
    ensures forall j :: 0 <= j < |a| + i && j <= |a| + |b| ==> !OccursAt(a + b, pat, j)
  {
    forall j | |a| <= j < |a| + i && j <= |a| + |b| ensures !OccursAt(a + b, pat, j) {
      OccursPast(a, b, pat, j - |a|);
    }
  }

  /** An occurrence in `b` is one in `a + b`, moved along by `|a|`. */
  lemma OccursPast(a: string, b: string, pat: string, i: nat)
    requires i <= |b|
    ensures OccursAt(a + b, pat, |a| + i) <==> OccursAt(b, pat, i)
  {
    if i + |pat| <= |b| {
      assert (a + b)[|a| + i..|a| + i + |pat|] == b[i..i + |pat|];
    }
  }

  /** Two texts without `{}` give one without `{}` when none straddles the join. */
  lemma NoSlotJoin(a: string, b: string)
    requires !Contains(a, "{}") && !Contains(b, "{}") && (a != [] && b != [] ==> a[|a| - 1] != '{' || b[0] != '}')
    ensures !Contains(a + b, "{}")
  {
    FindPast(a, b);
  }

  /** Replacing the first `{}` of `a + "{}" + b` when `a` holds none and does not end in '{'. */
  lemma ReplaceSlot(a: string, b: string, v: string)
    requires !Contains(a, "{}") && (a != [] ==> a[|a| - 1] != '{')
    ensures ReplaceFirst(a + "{}" + b, "{}", v) == a + v + b
  {
    var s := a + "{}" + b;
    assert s == a + ("{}" + b);
    assert OccursAt("{}" + b, "{}", 0);
    FindPast(a, "{}" + b);
    assert s[..|a|] == a && s[|a| + 2..] == b;
  }

  /** The publisher fills the first slot. */
  lemma PublisherSlot(publisher: string)
    ensures ReplaceFirst(DownloadTemplate, "{}", publisher)
         == GalleryPublishers + publisher + "/vsextensions/" + "{}" + ("/" + "{}" + "/vspackage")
  {
    GalleryNoSlot();
    ReplaceSlot(GalleryPublishers, "/vsextensions/" + "{}" + ("/" + "{}" + "/vspackage"), publisher);
    assert GalleryPublishers + publisher + ("/vsextensions/" + "{}" + ("/" + "{}" + "/vspackage"))
        == GalleryPublishers + publisher + "/vsextensions/" + "{}" + ("/" + "{}" + "/vspackage");
  }

  /** The gallery path holds no `{}` and ends in '/'. */
  lemma GalleryNoSlot()
    ensures !Contains(GalleryPublishers, "{}") && GalleryPublishers[|GalleryPublishers| - 1] == '/'
  {
    NoBraceNoSlot(GalleryPublishers);
  }

  /** The text in front of the package slot holds no `{}` and ends in '/'. */
  lemma PackagePrefix(publisher: string)
    requires !Contains(publisher, "{}")
    ensures var p := GalleryPublishers + publisher + "/vsextensions/"; !Contains(p, "{}") && p[|p| - 1] == '/'
  {
    GalleryNoSlot();
    SlotFreePrefix(GalleryPublishers, publisher);
  }

  /** A slot-free text ending in '/', then a slot-free name, then "/vsextensions/", holds no `{}`. */
  lemma SlotFreePrefix(gallery: string, publisher: string)
    requires !Contains(gallery, "{}") && gallery != [] && gallery[|gallery| - 1] == '/'
    requires !Contains(publisher, "{}")
    ensures var p := gallery + publisher + "/vsextensions/"; !Contains(p, "{}") && p[|p| - 1] == '/'
  {
    NoBraceNoSlot("/vsextensions/");
    NoSlotJoin(gallery, publisher);
    NoSlotJoin(gallery + publisher, "/vsextensions/");
  }

  /** The package fills the second slot. */
  lemma PackageSlot(publisher: string, package: string)
    requires !Contains(publisher, "{}")
    ensures ReplaceFirst(GalleryPublishers + publisher + "/vsextensions/" + "{}" + ("/" + "{}" + "/vspackage"), "{}", package)
         == GalleryPublishers + publisher + "/vsextensions/" + package + "/" + "{}" + "/vspackage"
  {
    var p := GalleryPublishers + publisher + "/vsextensions/";
    PackagePrefix(publisher);
    ReplaceSlot(p, "/" + "{}" + "/vspackage", package);
    assert p + package + ("/" + "{}" + "/vspackage") == p + package + "/" + "{}" + "/vspackage";
  }

  /** The version fills the third slot. */
  lemma VersionSlot(publisher: string, package: string, version: string)
    requires !Contains(publisher, "{}") && !Contains(package, "{}")
    ensures ReplaceFirst(GalleryPublishers + publisher + "/vsextensions/" + package + "/" + "{}" + "/vspackage", "{}", version)
         == GalleryPublishers + publisher + "/vsextensions/" + package + "/" + version + "/vspackage"
  {
    var p := GalleryPublishers + publisher + "/vsextensions/";
    PackagePrefix(publisher);
    NoBraceNoSlot("/");
    NoSlotJoin(p, package);
    NoSlotJoin(p + package, "/");
    ReplaceSlot(p + package + "/", "/vspackage", version);
  }

  /** Publisher, package and version fill the three slots in that order when publisher and package
      hold no `{}` of their own; the platform, when present, follows as `?targetPlatform=`. */
  lemma DownloadUrlParts(publisher: string, package: string, version: string, platform: Option<string>)
    requires !Contains(publisher, "{}") && !Contains(package, "{}")
    ensures DownloadUrl(publisher, package, version, platform) ==
      GalleryPublishers + publisher + "/vsextensions/" + package + "/" + version + "/vspackage"
      + (if platform.Some? then "?targetPlatform=" + platform.value else "")
  {
    var filled := GalleryPublishers + publisher + "/vsextensions/" + package + "/" + version + "/vspackage";
    FilledSlots(publisher, package, version);
    if platform.Some? {
      assert DownloadUrl(publisher, package, version, platform) == filled + "?targetPlatform=" + platform.value;
    } else {
      assert DownloadUrl(publisher, package, version, platform) == filled;
    }
  }

  /** The three `replacen` calls fill the slots in order. */
  lemma FilledSlots(publisher: string, package: string, version: string)
    requires !Contains(publisher, "{}") && !Contains(package, "{}")
    ensures ReplaceFirst(ReplaceFirst(ReplaceFirst(DownloadTemplate, "{}", publisher), "{}", package), "{}", version)
         == GalleryPublishers + publisher + "/vsextensions/" + package + "/" + version + "/vspackage"
  {
    PublisherSlot(publisher);
    PackageSlot(publisher, package);
    VersionSlot(publisher, package, version);
  }

  /** The arguments `download_extension` gives curl: fail on HTTP errors and follow redirects, resume
      when cached, write the body to `<output>.downloading` and the headers to `<output>.header`. */
  function CurlArgs(url: string, outputFile: string, cached: bool): seq<string> {
    ["-fSL"] + (if cached then ["-C", "-"] else []) + [url, "-o", outputFile + ".downloading", "-D", outputFile + ".header"]
  }

  // ---------------------------------------------------------------- the content-encoding scan

  /** The encoding a saved header line announces, when its trimmed, lower-cased form starts with
      "content-encoding". */
  function EncodingOf(line: string): (r: Option<string>)
    ensures r.Some? <==> StartsWith(ToLower(Trim(line)), "content-encoding")
  {
    var low := ToLower(Trim(line));
    if StartsWith(low, "content-encoding") then Some(LastPiece(low, ':')) else None
  }

  /** The announced value is the text after the last ':' of the lower-cased line (all of it when it
      has no ':'), untrimmed; it is therefore lower-case. */
  lemma EncodingValue(line: string)
    requires EncodingOf(line).Some?
    ensures var low := ToLower(Trim(line)); var v := EncodingOf(line).value;
      && ':' !in v && EndsWith(low, v) && Lowercase(v)
      && (|v| < |low| ==> low[|low| - |v| - 1] == ':')
  {
    var low := ToLower(Trim(line));
    var v := LastPiece(low, ':');
    ToLowerIsLowercase(Trim(line));
    LowercaseSlice(low, |low| - |v|, |low|);
  }

  /** The position of the last `true`. */
  function LastTrue(flags: seq<bool>): (r: Option<nat>)
    ensures r.Some? ==> r.value < |flags| && flags[r.value] && forall j :: r.value < j < |flags| ==> !flags[j]
    ensures r.None? ==> forall j :: 0 <= j < |flags| ==> !flags[j]
  {
    if flags == [] then None
    else if flags[|flags| - 1] then Some(|flags| - 1)
    else LastTrue(flags[..|flags| - 1])
  }

  /** Which lines announce an encoding. */
  function Announcing(lines: seq<string>): (flags: seq<bool>)
    ensures |flags| == |lines|
  {
    seq(|lines|, k requires 0 <= k < |lines| => EncodingOf(lines[k]).Some?)
  }

  /** What the scan leaves in `encoding`: the value of the last announcing line, or "" when no line
      announces one. */
  function LastEncoding(lines: seq<string>): string {
    match LastTrue(Announcing(lines))
    case None => ""
    case Some(k) => EncodingOf(lines[k]).value
  }

  /** The last announcing line wins: the result is "" when no line announces an encoding, and
      otherwise the value of a line after which none does. */
  lemma LastEncodingWins(lines: seq<string>)
    ensures (forall k :: 0 <= k < |lines| ==> EncodingOf(lines[k]).None?) ==> LastEncoding(lines) == ""
    ensures (exists k :: 0 <= k < |lines| && EncodingOf(lines[k]).Some?) ==>
      exists k :: 0 <= k < |lines| && EncodingOf(lines[k]) == Some(LastEncoding(lines))
        && forall j :: k < j < |lines| ==> EncodingOf(lines[j]).None?
  {
    var flags := Announcing(lines);
    match LastTrue(flags)
    case None =>
      forall k | 0 <= k < |lines| ensures EncodingOf(lines[k]).None? {
        assert !flags[k];
      }
    case Some(k) =>
      assert flags[k] == EncodingOf(lines[k]).Some?;
      assert LastEncoding(lines) == EncodingOf(lines[k]).value;
      forall j | k < j < |lines| ensures EncodingOf(lines[j]).None? {
        assert !flags[j];
      }
  }

  /** One more line: it either announces the new encoding or leaves the old one. */
  lemma LastEncodingStep(lines: seq<string>, k: nat)
    requires k < |lines|
    ensures LastEncoding(lines[..k + 1]) ==
      if EncodingOf(lines[k]).Some? then EncodingOf(lines[k]).value else LastEncoding(lines[..k])
  {
    var flags := Announcing(lines[..k + 1]);
    var before := Announcing(lines[..k]);
    assert flags == before + [flags[k]];
    LastTrueSnoc(before, flags[k]);
  }

  lemma LastTrueSnoc(flags: seq<bool>, b: bool)
    ensures LastTrue(flags + [b]) == if b then Some(|flags|) else LastTrue(flags)
  {
    assert (flags + [b])[..|flags|] == flags;
  }

  /** The header scan of `download_extension`. */
  method ScanEncoding(header: string) returns (encoding: string)
    ensures encoding == LastEncoding(Lines(header))
  {
    encoding := "";
    var lines := Lines(header);
    for k := 0 to |lines|
      invariant encoding == LastEncoding(lines[..k])
    {
      LastEncodingStep(lines, k);
      encoding := EncodingStep(lines[k], encoding);
    }
    assert lines[..|lines|] == lines;
  }

  /** The body of that loop for one line: the announced encoding replaces the one found so far. */
  method EncodingStep(raw: string, encoding: string) returns (r: string)
    ensures r == if EncodingOf(raw).Some? then EncodingOf(raw).value else encoding
  {
    r := encoding;
    var line := ToLower(Trim(raw));
    if StartsWith(line, "content-encoding") {
      var data := Split(line, ':');
      r := data[|data| - 1];
    }
  }

  /** The outcomes of the steps of `download_extension` after curl, in order: reading the saved
      headers, reading the body, decoding gzip, writing the output file, removing the body and the
      header files. */
  datatype FetchSteps = FetchSteps(
    headerText: Result<string>,
    readBody: Outcome,
    gunzip: Outcome,
    writeOutput: Outcome,
    removeBody: Outcome,
    removeHeader: Outcome)

  /** The body is decoded exactly when the announced encoding contains "gzip". */
  predicate Gzipped(steps: FetchSteps) {
    steps.headerText.Success? && Contains(LastEncoding(Lines(steps.headerText.value)), "gzip")
  }

  /** Every step of `download_extension` succeeds: curl exits successfully, and so do the reads, the
      decoding (when it happens), the write and the two removals. */
  predicate FetchSucceeds(curl: Status, steps: FetchSteps) {
    curl == Exited(true) && StepsSucceed(steps)
  }

  /** Every step after curl succeeds. */
  predicate StepsSucceed(steps: FetchSteps) {
    steps.headerText.Success? && BodySaved(steps, Gzipped(steps))
  }

  /** Every step after the header scan succeeds, the body being decoded exactly when `gz`. */
  predicate BodySaved(steps: FetchSteps, gz: bool) {
    && steps.readBody.Pass? && (gz ==> steps.gunzip.Pass?)
    && steps.writeOutput.Pass? && steps.removeBody.Pass? && steps.removeHeader.Pass?
  }

  /** The error `download_extension` passes on when a step after curl fails: that of the first
      failing step, in the order the steps run. */
  function FirstFailure(steps: FetchSteps): string {
    if steps.headerText.Failure? then steps.headerText.error else BodyFailure(steps, Gzipped(steps))
  }

  /** The error of the first failing step after the header scan. */
  function BodyFailure(steps: FetchSteps, gz: bool): string {
    if steps.readBody.Fail? then steps.readBody.error
    else if gz && steps.gunzip.Fail? then steps.gunzip.error
    else if steps.writeOutput.Fail? then steps.writeOutput.error
    else if steps.removeBody.Fail? then steps.removeBody.error
    else if steps.removeHeader.Fail? then steps.removeHeader.error
    else ""
  }

  /** The URL and the curl arguments `download_extension` builds. */
  method CurlRequest(publisher: string, package: string, version: string, platform: Option<string>,
                     outputFile: string, cached: bool)
    returns (url: string, args: seq<string>)
    ensures url == DownloadUrl(publisher, package, version, platform)
    ensures args == CurlArgs(url, outputFile, cached)
  {
    url := FillTemplate(publisher, package, version, platform);
    var headFile := outputFile + ".header";
    var bodyFile := outputFile + ".downloading";
    args := ["-fSL"];
    if cached {
      args := args + ["-C", "-"];
    }
    args := args + [url, "-o", bodyFile, "-D", headFile];
    assert args == CurlArgs(url, outputFile, cached);
  }

  /** The `replacen` chain of `download_extension` and the optional platform parameter. */
  method FillTemplate(publisher: string, package: string, version: string, platform: Option<string>)
    returns (url: string)
    ensures url == DownloadUrl(publisher, package, version, platform)
  {
    url := ReplaceFirst(DownloadTemplate, "{}", publisher);
    url := ReplaceFirst(url, "{}", package);
    url := ReplaceFirst(url, "{}", version);
    if platform.Some? {
      url := url + "?targetPlatform=" + platform.value;
    }
  }

  /** The steps of `download_extension` after curl: read the saved headers and find the announced
      encoding, read the body, decode it when the encoding contains "gzip", write the output file and
      remove the two temporary files. The result is whether the body was decoded. */
  method SaveBody(steps: FetchSteps) returns (r: Result<bool>)
    ensures r.Success? <==> StepsSucceed(steps)
    ensures r.Success? ==> r.value == Gzipped(steps)
    ensures !StepsSucceed(steps) ==> r == Failure(FirstFailure(steps))
  {
    if steps.headerText.Failure? {
      return Failure(steps.headerText.error);
    }
    var encoding := ScanEncoding(steps.headerText.value);
    r := WriteBody(steps, Contains(encoding, "gzip"));
  }

  /** The steps after the header scan: read the body, decode it when `gz`, write the output file and
      remove the two temporary files. The result is whether the body was decoded. */
  method WriteBody(steps: FetchSteps, gz: bool) returns (r: Result<bool>)
    ensures r.Success? <==> BodySaved(steps, gz)
    ensures r.Success? ==> r.value == gz
    ensures !BodySaved(steps, gz) ==> r == Failure(BodyFailure(steps, gz))
  {
    if steps.readBody.Fail? {
      return Failure(steps.readBody.error);
    }
    var decoded := false;
    if gz {
      if steps.gunzip.Fail? {
        return Failure(steps.gunzip.error);
      }
      decoded := true;
    }
    if steps.writeOutput.Fail? {
      return Failure(steps.writeOutput.error);
    }
    if steps.removeBody.Fail? {
      return Failure(steps.removeBody.error);
    }
    if steps.removeHeader.Fail? {
      return Failure(steps.removeHeader.error);
    }
    r := Success(decoded);
  }

  /** `download_extension`. `call` is the curl invocation, which is built before anything runs; the
      result is whether the body was gzip-decoded before it was written. */
  method DownloadExtension(publisher: string, package: string, version: string, platform: Option<string>,
                           outputFile: string, cached: bool, curl: Status, steps: FetchSteps)
    returns (call: CurlCall, r: Result<bool>)
    ensures call == CurlCall(DownloadUrl(publisher, package, version, platform),
                             CurlArgs(DownloadUrl(publisher, package, version, platform), outputFile, cached))
    ensures r.Success? <==> FetchSucceeds(curl, steps)
    ensures r.Success? ==> r.value == Gzipped(steps)
    ensures curl == Exited(false) ==> r == Failure("exec command curl " + Join(call.args, " ") + " failed")
    ensures curl.SpawnFailed? ==> r == Failure(curl.message)
    ensures curl == Exited(true) && !StepsSucceed(steps) ==> r == Failure(FirstFailure(steps))
  {
    var url, args := CurlRequest(publisher, package, version, platform, outputFile, cached);
    call := CurlCall(url, args);
    match curl {
      case SpawnFailed(message) => return call, Failure(message);
      case Exited(success) =>
        if !success {
          return call, Failure("exec command curl " + Join(args, " ") + " failed");
        }
    }
    r := SaveBody(steps);
  }

  // ---------------------------------------------------------------- Extension::download

  /** Where `download` keeps an extension: `<dir>/<name>.vsix`, named after the extension as it was
      requested (before any version was looked up). */
  function OutputFile(downloadDir: string, ext: Extension): string {
    downloadDir + "/" + ext.Name() + ".vsix"
  }

  /** The version and platform `download` fetches: the pinned version with the pinned platform, or
      what the query selects. */
  function Resolve(ext: Extension, reply: QueryReply): Result<Resolved> {
    if ext.version.Some? then Success(Resolved(ext.version.value, ext.platform)) else VersionFromReply(ext, reply)
  }

  /** The platform check passes and a version to fetch is known. */
  predicate Resolvable(ext: Extension, reply: QueryReply) {
    CheckPlatform(ext).Pass? && Resolve(ext, reply).Success?
  }

  /** The cached skip of `download`: caching is on (the default) and the output file exists. */
  predicate Skipped(ext: Extension, downloadDir: string, cached: Option<bool>, existing: set<string>) {
    cached.GetOr(true) && OutputFile(downloadDir, ext) in existing
  }

  /** The curl invocation `download` asks for once it gets that far: the resolved version and
      platform in the URL, the output file, and `-C -` exactly when caching is on. */
  function RequestFor(ext: Extension, downloadDir: string, cached: Option<bool>, resolved: Resolved): CurlCall {
    var url := DownloadUrl(ext.publisher, ext.package, resolved.version, resolved.platform);
    CurlCall(url, CurlArgs(url, OutputFile(downloadDir, ext), cached.GetOr(true)))
  }

  /** `Extension::download`. `cached` defaults to true; `existing` holds the paths that exist;
      `createDir` is the outcome of creating the download directory. `request` is the curl invocation
      made, if the download got that far; the result is whether a download took place (false: the file
      was already there). */
  method Download(ext: Extension, downloadDir: string, cached: Option<bool>, reply: QueryReply,
                  existing: set<string>, createDir: Outcome, curl: Status, steps: FetchSteps)
    returns (request: Option<CurlCall>, r: Result<bool>)
    ensures CheckPlatform(ext).Fail? ==> r == Failure(CheckPlatform(ext).error)
    ensures CheckPlatform(ext).Pass? && Resolve(ext, reply).Failure? ==> r == Failure(Resolve(ext, reply).error)
    ensures r == Success(false) <==> Resolvable(ext, reply) && Skipped(ext, downloadDir, cached, existing)
    ensures Resolvable(ext, reply) && !Skipped(ext, downloadDir, cached, existing) && createDir.Fail? ==>
      r == Failure(createDir.error)
    ensures request.Some? <==> Resolvable(ext, reply) && !Skipped(ext, downloadDir, cached, existing) && createDir.Pass?
    ensures request.Some? ==> request.value == RequestFor(ext, downloadDir, cached, Resolve(ext, reply).value)
    ensures request.Some? ==> (r == Success(true) <==> FetchSucceeds(curl, steps))
    ensures request.Some? && curl == Exited(false) ==>
      r == Failure("exec command curl " + Join(request.value.args, " ") + " failed")
    ensures request.Some? && curl.SpawnFailed? ==> r == Failure(curl.message)
    ensures request.Some? && curl == Exited(true) && !StepsSucceed(steps) ==> r == Failure(FirstFailure(steps))
    ensures r == Success(true) ==> request.Some?
  {
    request := None;
    var useCache := if cached.Some? then cached.value else true;
    var check := CheckPlatform(ext);
    if check.Fail? {
      return None, Failure(check.error);
    }
    var version: string;
    var platform: Option<string>;
    if ext.version.Some? {
      version, platform := ext.version.value, ext.platform;
    } else {
      var resolved := QueryVersion(ext, reply);
      if resolved.Failure? {
        return None, Failure(resolved.error);
      }
      version, platform := resolved.value.version, resolved.value.platform;
    }
    var outputFile := downloadDir + "/" + ext.Name() + ".vsix";
    if useCache && outputFile in existing {
      return None, Success(false);
    }
    if createDir.Fail? {
      return None, Failure(createDir.error);
    }
    var call, fetched := DownloadExtension(ext.publisher, ext.package, version, platform, outputFile, useCache, curl, steps);
    request := Some(call);
    if fetched.Failure? {
      return request, Failure(fetched.error);
    }
    r := Success(true);
  }

  /** A selected platform is never other than the pinned one. */
  lemma AdmittedPlatform(ext: Extension, reply: QueryReply)
    requires VersionFromReply(ext, reply).Success?
    ensures var p := VersionFromReply(ext, reply).value.platform; p.Some? ==> p == ext.platform
  {
    var allData := QueryExtension(ext.publisher, ext.package, reply).value;
    var es := Entries(allData);
    var k :| 0 <= k < |es| && Admits(ext, es[k]) && VersionFromReply(ext, reply).value == Resolved(es[k].version.value, es[k].targetPlatform);
  }
}
