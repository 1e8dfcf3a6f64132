/** The VS Code server release helpers of `src/server.rs`: normalising the platform and
    architecture names, picking the latest commit from the update service's reply, naming the
    release archive and its URL, and preparing the directory the archive is extracted into. Paths are
    Unix paths. */
module Server {
  import opened Wrappers
  import opened Text
  import opened Json
  import opened Process
  import opened HttpHeaders

  // ---------------------------------------------------------------- get_platform_info

  /** Host operating-system names and the update service's names for them. */
  const OsNames: seq<(string, string)> := [("linux", "linux"), ("windows", "win32"), ("macos", "darwin"), ("alpine", "alpine")]

  /** Host architecture names and the update service's names for them. */
  const ArchNames: seq<(string, string)> := [("x86_64", "x64"), ("aarch64", "arm64"), ("arm", "armhf")]

  /** What a lookup of `get_platform_info` leaves: the value of the first entry for `key`, and `key`
      itself when the table has none. */
  function Translate(table: seq<(string, string)>, key: string): string {
    match FirstKey(table, key)
    case None => key
    case Some(i) => table[i].1
  }

  /** The table scan of `get_platform_info`. */
  method Normalize(table: seq<(string, string)>, key: string) returns (r: string)
    ensures r == Translate(table, key)
  {
    r := key;
    for i := 0 to |table|
      invariant forall j :: 0 <= j < i ==> table[j].0 != key
    {
      if table[i].0 == key {
        assert FirstKey(table, key) == Some(i);
        r := table[i].1;
        break;
      }
    }
  }

  /** `get_platform_info`, with the host's `env::consts::OS` and `env::consts::ARCH` as parameters:
      an override is taken verbatim, and the host's names are looked up only without one. */
  method GetPlatformInfo(platform: Option<string>, arch: Option<string>, hostOs: string, hostArch: string)
    returns (p: string, a: string)
    ensures p == if platform.Some? then platform.value else Translate(OsNames, hostOs)
    ensures a == if arch.Some? then arch.value else Translate(ArchNames, hostArch)
  {
    if platform.Some? {
      p := platform.value;
    } else {
      p := Normalize(OsNames, hostOs);
    }
    if arch.Some? {
      a := arch.value;
    } else {
      a := Normalize(ArchNames, hostArch);
    }
  }

  /** The operating-system table, case by case; any other name passes through unchanged. */
  lemma OsNamesCases(os: string)
    ensures Translate(OsNames, os) ==
      if os == "linux" then "linux"
      else if os == "windows" then "win32"
      else if os == "macos" then "darwin"
      else if os == "alpine" then "alpine"
      else os
  {
    assert OsNames[1..][1..][1..][1..] == [];
  }

  /** The architecture table, case by case; any other name passes through unchanged. */
  lemma ArchNamesCases(arch: string)
    ensures Translate(ArchNames, arch) ==
      if arch == "x86_64" then "x64"
      else if arch == "aarch64" then "arm64"
      else if arch == "arm" then "armhf"
      else arch
  {
    assert ArchNames[1..][1..][1..] == [];
  }

  /** Normalised names normalise to themselves, so normalising twice changes nothing. */
  lemma NormalizeIdempotent(os: string, arch: string)
    ensures Translate(OsNames, Translate(OsNames, os)) == Translate(OsNames, os)
    ensures Translate(ArchNames, Translate(ArchNames, arch)) == Translate(ArchNames, arch)
  {
    OsNamesCases(os);
    OsNamesCases(Translate(OsNames, os));
    ArchNamesCases(arch);
    ArchNamesCases(Translate(ArchNames, arch));
  }

  // ---------------------------------------------------------------- get_latest_release

  /** The update service. */
  const UpdateSite: string := "https://update.code.visualstudio.com"

  /** Where `get_latest_release` asks for the stable commits of a platform and architecture. */
  function CommitsUrl(platform: string, arch: string): string {
    UpdateSite + "/api/commits/stable/" + platform + "-" + arch
  }

  /** How the curl query of `get_latest_release` ended: it could not be started, or it exited, with
      its standard error decoded (empty when not UTF-8) and its standard output decoded and parsed as
      JSON (or the decoding or parsing error). */
  datatype Query = QueryFailed(message: string) | Queried(success: bool, stderr: string, stdout: Result<Json>)

  /** The commit a reply names: the first element of the array, when it is a string. */
  function CommitOf(data: Json): Option<string> {
    match AsArray(data)
    case None => None
    case Some(items) => if items == [] then None else AsStr(items[0])
  }

  /** `get_latest_release`. */
  function LatestRelease(platform: string, arch: string, query: Query): Result<string> {
    var url := CommitsUrl(platform, arch);
    match query
    case QueryFailed(message) => Failure(message)
    case Queried(success, stderr, stdout) =>
      if !success then Failure("exec command curl " + Join(["-fsSL", url], " ") + " failed: " + stderr)
      else match stdout
        case Failure(e) => Failure(e)
        case Success(data) =>
          match CommitOf(data)
          case None => Failure("query vscode server commit id failed, url " + url)
          case Some(commit) => Success(commit)
  }

  /** A commit is found exactly when the query succeeded and its reply is an array whose first
      element is that commit, as a string. */
  lemma LatestReleaseFound(platform: string, arch: string, query: Query, commit: string)
    ensures LatestRelease(platform, arch, query) == Success(commit) <==>
      && query.Queried? && query.success && query.stdout.Success?
      && query.stdout.value.Arr? && |query.stdout.value.items| > 0
      && query.stdout.value.items[0] == Str(commit)
  {
  }

  /** A reply the code cannot use is reported with the URL it came from. */
  lemma LatestReleaseUnusable(platform: string, arch: string, data: Json)
    requires !data.Arr? || data.items == [] || !data.items[0].Str?
    ensures LatestRelease(platform, arch, Queried(true, "", Success(data))) ==
      Failure("query vscode server commit id failed, url " + CommitsUrl(platform, arch))
  {
  }

  // ---------------------------------------------------------------- download_release_file

  /** `Path::join` on Unix: a name starting with '/' replaces the base; otherwise it follows the
      base, with a '/' between them unless the base is empty or already ends with one. */
  function PathJoin(base: string, name: string): (r: string)
    ensures StartsWith(name, "/") ==> r == name
    ensures !StartsWith(name, "/") ==>
      && StartsWith(r, base) && EndsWith(r, name)
      && (|r| == |base| + |name| || (|r| == |base| + |name| + 1 && r[|base|] == '/'))
    ensures !StartsWith(name, "/") ==>
      (|r| == |base| + |name| <==> base == [] || base[|base| - 1] == '/')
  {
    if StartsWith(name, "/") then name
    else if base == [] || base[|base| - 1] == '/' then base + name
    else base + "/" + name
  }

  /** The archive's path without its extension: `vscode-<prefix>-<arch>-<commit>` in `outputDir`. */
  function ArchivePath(outputDir: string, prefix: string, arch: string, commit: string): string {
    PathJoin(outputDir, "vscode-" + prefix + "-" + arch + "-" + commit)
  }

  /** Where the release archive of a commit is downloaded from. */
  function ReleaseUrl(commit: string, prefix: string, arch: string): string {
    UpdateSite + "/commit:" + commit + "/" + prefix + "-" + arch + "/stable"
  }

  /** The curl arguments of `download_release_file`: resume, write the body to `<path>.downloading`
      and the headers to `<path>.header`. */
  function ReleaseCurlArgs(url: string, archivePath: string): seq<string> {
    ["-fSL", "-C", "-", url, "-o", archivePath + ".downloading", "-D", archivePath + ".header"]
  }

  /** The commits query URL, written out. */
  lemma CommitsUrlText(platform: string, arch: string)
    ensures CommitsUrl(platform, arch) == "https://update.code.visualstudio.com/api/commits/stable/" + platform + "-" + arch
  {
  }

  /** The release download URL, written out. */
  lemma ReleaseUrlText(prefix: string, arch: string, commit: string)
    ensures ReleaseUrl(commit, prefix, arch) ==
      "https://update.code.visualstudio.com/commit:" + commit + "/" + prefix + "-" + arch + "/stable"
  {
  }

  /** The archive is `vscode-<prefix>-<arch>-<commit>` in `outputDir`, with a '/' between them unless
      `outputDir` is empty or already ends with one. */
  lemma ArchivePathOf(outputDir: string, prefix: string, arch: string, commit: string)
    ensures ArchivePath(outputDir, prefix, arch, commit) ==
      (if outputDir == [] || outputDir[|outputDir| - 1] == '/' then outputDir else outputDir + "/")
      + ("vscode-" + prefix + "-" + arch + "-" + commit)
  {
    var name := "vscode-" + prefix + "-" + arch + "-" + commit;
    assert name[0] == 'v';
  }

  /** The directory a commit is extracted into, written out for an `outputDir` that does not end in
      '/' and a relative commit name: `<outputDir>/bin/<commit>`. */
  lemma CommitDirPath(outputDir: string, commit: string)
    requires outputDir != [] && outputDir[|outputDir| - 1] != '/'
    requires !StartsWith(commit, "/")
    ensures CommitDir(outputDir, commit) == outputDir + "/bin/" + commit
  {
    assert "bin"[..1] == "b";
    var bin := PathJoin(outputDir, "bin");
    assert bin == outputDir + "/bin";
    assert bin[|bin| - 1] == 'n';
  }

  /** The archive's extension, from the file name the server announced: from its last '.' on,
      with ".tar" in front when the name before that '.' ends with ".tar"; ".tar.gz" without a name or
      without a '.' in it. */
  function ArchiveExtension(fileName: Option<string>): string {
    match fileName
    case None => ".tar.gz"
    case Some(name) =>
      match RFindChar(name, '.')
      case None => ".tar.gz"
      case Some(pos) => if EndsWith(name[..pos], ".tar") then ".tar" + name[pos..] else name[pos..]
  }

  /** Without an announced name, or with one holding no '.', the archive is a ".tar.gz". */
  lemma ArchiveExtensionDefault(fileName: Option<string>)
    requires fileName.None? || '.' !in fileName.value
    ensures ArchiveExtension(fileName) == ".tar.gz"
  {
  }

  /** `rfind` finds a character that no later character equals. */
  lemma RFindAt(s: string, c: char, p: nat)
    requires p < |s| && s[p] == c
    requires forall q :: p < q < |s| ==> s[q] != c
    ensures RFindChar(s, c) == Some(p)
  {
    assert c in s;
    var pos := RFindChar(s, c).value;
    forall q | pos < q < |s| ensures s[q] != c {
      assert s[q] == s[pos + 1..][q - pos - 1];
    }
  }

  /** A name ending in '.' and a '.'-free piece gets that piece with a '.' in front as its extension,
      and ".tar" in front of that when what precedes ends with ".tar". */
  lemma ArchiveExtensionSuffix(name: string, piece: string)
    requires '.' !in piece && EndsWith(name, "." + piece)
    ensures ArchiveExtension(Some(name)) ==
      if EndsWith(name[..|name| - |piece| - 1], ".tar") then ".tar." + piece else "." + piece
  {
    var p := |name| - |piece| - 1;
    assert name[p..] == "." + piece;
    forall q | p < q < |name| ensures name[q] != '.' {
      assert name[q] == piece[q - p - 1];
    }
    RFindAt(name, '.', p);
    assert ".tar" + ("." + piece) == ".tar." + piece;
  }

  /** For a name with a '.', the extension is its last '.'-separated piece with a '.' in front, and
      ".tar" in front of that when what precedes the piece ends with ".tar"; it is a suffix of the
      name. */
  lemma ArchiveExtensionOf(name: string)
    requires '.' in name
    ensures var tail := LastPiece(name, '.');
      && |tail| < |name|
      && var stem := name[..|name| - |tail| - 1];
         var r := ArchiveExtension(Some(name));
         && r == (if EndsWith(stem, ".tar") then ".tar." + tail else "." + tail)
         && EndsWith(name, r)
  {
    var tail := LastPiece(name, '.');
    LastPieceSplit(name);
    var stem := name[..|name| - |tail| - 1];
    ArchiveExtensionSuffix(name, tail);
    if EndsWith(stem, ".tar") {
      assert name == stem[..|stem| - 4] + (".tar." + tail);
    }
  }

  /** A name with a '.' is what precedes its last piece, a '.', and that piece. */
  lemma LastPieceSplit(name: string)
    requires '.' in name
    ensures var tail := LastPiece(name, '.');
      |tail| < |name| && name == name[..|name| - |tail| - 1] + ("." + tail)
  {
    var tail := LastPiece(name, '.');
    var start := |name| - |tail|;
    assert name[start..] == tail;
    forall q | start <= q < |name| ensures name[q] != '.' {
      assert name[q] == tail[q - start];
    }
    var k :| 0 <= k < |name| && name[k] == '.';
    assert k < start;
  }

  /** `download_release_file`. The header file's text is `header` (`None` when it cannot be read);
      `createDir`, `rename` and `removeHeader` are the outcomes of the filesystem steps. `call` is the
      curl invocation, made once the directory exists; the result is the archive's path. */
  method DownloadReleaseFile(commit: string, prefix: string, arch: string, outputDir: string,
                             createDir: Outcome, curl: Status, header: Option<string>,
                             rename: Outcome, removeHeader: Outcome)
    returns (call: Option<CurlCall>, r: Result<string>)
    ensures call.Some? <==> createDir.Pass?
    ensures call.Some? ==> call.value == CurlCall(ReleaseUrl(commit, prefix, arch),
      ReleaseCurlArgs(ReleaseUrl(commit, prefix, arch), ArchivePath(outputDir, prefix, arch, commit)))
    ensures r.Success? <==> createDir.Pass? && curl == Exited(true) && rename.Pass? && removeHeader.Pass?
    ensures r.Success? ==>
      r.value == ArchivePath(outputDir, prefix, arch, commit) + ArchiveExtension(ContentDispositionOf(header))
    ensures createDir.Fail? ==> r == Failure(createDir.error)
    ensures createDir.Pass? && curl == Exited(false) ==>
      r == Failure("exec command curl " + Join(ReleaseCurlArgs(ReleaseUrl(commit, prefix, arch),
                                                                ArchivePath(outputDir, prefix, arch, commit)), " ") + " failed")
    ensures createDir.Pass? && curl.SpawnFailed? ==> r == Failure(curl.message)
    ensures createDir.Pass? && curl == Exited(true) && rename.Fail? ==> r == Failure(rename.error)
    ensures createDir.Pass? && curl == Exited(true) && rename.Pass? && removeHeader.Fail? ==>
      r == Failure(removeHeader.error)
  {
    var archivePath := PathJoin(outputDir, "vscode-" + prefix + "-" + arch + "-" + commit);
    if createDir.Fail? {
      return None, Failure(createDir.error);
    }
    var url := ReleaseUrl(commit, prefix, arch);
    var bodyFile := archivePath + ".downloading";
    var headFile := archivePath + ".header";
    var curlArgs := ["-fSL", "-C", "-", url, "-o", bodyFile, "-D", headFile];
    call := Some(CurlCall(url, curlArgs));
    var progText := "curl " + Join(curlArgs, " ");
    match curl {
      case SpawnFailed(message) => return call, Failure(message);
      case Exited(success) =>
        if !success {
          return call, Failure("exec command " + progText + " failed");
        }
    }
    var fileName := ParseContentDisposition(header);
    var archiveFile := archivePath + ArchiveExtension(fileName);
    if rename.Fail? {
      return call, Failure(rename.error);
    }
    if removeHeader.Fail? {
      return call, Failure(removeHeader.error);
    }
    r := Success(archiveFile);
  }

  // ---------------------------------------------------------------- prepare_release_dir

  /** The archive formats `prepare_release_dir` extracts. */
  datatype Format = Tgz | Zip

  /** The format an archive's name selects: ".tar.gz" first, then ".zip". */
  function FormatOf(archiveFile: string): Option<Format> {
    if EndsWith(archiveFile, ".tar.gz") then Some(Tgz)
    else if EndsWith(archiveFile, ".zip") then Some(Zip)
    else None
  }

  /** An extraction `prepare_release_dir` starts: the format, the archive, the target directory and
      whether the archive's top-level directory is stripped. */
  datatype Extraction = Extraction(format: Format, archive: string, target: string, stripTopLevel: bool)

  /** The directory a commit is extracted into: `<outputDir>/bin/<commit>`. */
  function CommitDir(outputDir: string, commit: string): string {
    PathJoin(PathJoin(outputDir, "bin"), commit)
  }

  /** The commit directory is ready: it is removed first if it exists, and then created. */
  predicate DirReady(dirExists: bool, removeDir: Outcome, createDir: Outcome) {
    (!dirExists || removeDir.Pass?) && createDir.Pass?
  }

  /** `prepare_release_dir`. `dirExists` says whether the commit directory exists; `removeDir` and
      `createDir` are the outcomes of removing and creating it (once removed, it no longer exists, so
      it is always created); `extracted` is the outcome of the extraction. Besides the outcome, the
      result is the extraction started, if any. */
  method PrepareReleaseDir(commit: string, archiveFile: string, outputDir: string,
                           dirExists: bool, removeDir: Outcome, createDir: Outcome, extracted: Outcome)
    returns (extraction: Option<Extraction>, r: Outcome)
    ensures extraction.Some? <==> DirReady(dirExists, removeDir, createDir) && FormatOf(archiveFile).Some?
    ensures extraction.Some? ==>
      extraction.value == Extraction(FormatOf(archiveFile).value, archiveFile, CommitDir(outputDir, commit), true)
    ensures r.Pass? <==> DirReady(dirExists, removeDir, createDir) && FormatOf(archiveFile).Some? && extracted.Pass?
    ensures extraction.Some? ==> r == extracted
    ensures dirExists && removeDir.Fail? ==> r == Fail(removeDir.error)
    ensures (!dirExists || removeDir.Pass?) && createDir.Fail? ==> r == Fail(createDir.error)
    ensures DirReady(dirExists, removeDir, createDir) && FormatOf(archiveFile).None? ==>
      r == Fail("unable to extract file " + archiveFile)
  {
    var commitDir := PathJoin(PathJoin(outputDir, "bin"), commit);
    if dirExists && removeDir.Fail? {
      return None, Fail(removeDir.error);
    }
    if createDir.Fail? {
      return None, Fail(createDir.error);
    }
    if EndsWith(archiveFile, ".tar.gz") {
      extraction := Some(Extraction(Tgz, archiveFile, commitDir, true));
      r := extracted;
    } else if EndsWith(archiveFile, ".zip") {
      extraction := Some(Extraction(Zip, archiveFile, commitDir, true));
      r := extracted;
    } else {
      extraction := None;
      r := Fail("unable to extract file " + archiveFile);
    }
  }

  /** An archive downloaded without a usable file name is a ".tar.gz" and is extracted as such. */
  lemma DefaultArchiveExtracts(archivePath: string)
    ensures FormatOf(archivePath + ArchiveExtension(None)) == Some(Tgz)
  {
    var f := archivePath + ".tar.gz";
    assert f[|f| - 7..] == ".tar.gz";
  }

  /** An announced file name ending in ".zip" gives an archive extracted as zip. */
  lemma ZipArchiveExtracts(archivePath: string, name: string)
    requires EndsWith(name, ".zip")
    ensures FormatOf(archivePath + ArchiveExtension(Some(name))) == Some(Zip)
  {
    assert "." + "zip" == ".zip";
    ArchiveExtensionEnds(name, "zip");
    EndsWithAfter(archivePath, ArchiveExtension(Some(name)), ".zip");
    ZipFormat(archivePath + ArchiveExtension(Some(name)));
  }

  /** The extension of such a name ends with the '.' and the piece. */
  lemma ArchiveExtensionEnds(name: string, piece: string)
    requires '.' !in piece && EndsWith(name, "." + piece)
    ensures EndsWith(ArchiveExtension(Some(name)), "." + piece)
  {
    ArchiveExtensionSuffix(name, piece);
    var t := ".tar." + piece;
    assert t[|t| - |piece| - 1..] == "." + piece;
  }

  /** A suffix of `r` is a suffix of `a + r`. */
  lemma EndsWithAfter(a: string, r: string, suffix: string)
    requires EndsWith(r, suffix)
    ensures EndsWith(a + r, suffix)
  {
    assert (a + r)[|a + r| - |suffix|..] == r[|r| - |suffix|..];
  }

  /** A name ending in ".zip" is extracted as zip. */
  lemma ZipFormat(f: string)
    requires EndsWith(f, ".zip")
    ensures FormatOf(f) == Some(Zip)
  {
    assert f[|f| - 1] == 'p';
  }

  /** An announced file name ending in ".tar.gz" gives an archive extracted as tgz. */
  lemma TgzArchiveExtracts(archivePath: string, name: string)
    requires EndsWith(name, ".tar.gz")
    ensures FormatOf(archivePath + ArchiveExtension(Some(name))) == Some(Tgz)
  {
    var n := |name|;
    assert "." + "gz" == name[n - 3..];
    assert name[..n - 3][n - 7..] == ".tar";
    ArchiveExtensionSuffix(name, "gz");
    var f := archivePath + ".tar.gz";
    assert f[|f| - 7..] == ".tar.gz";
  }
}
