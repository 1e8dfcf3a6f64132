/** Extension specifiers of `src/extension.rs`: the `Extension` record, its canonical name
    `publisher.package[@version][=platform]`, and the two ways a specifier is read — from an inline
    token or a line of text (`parse_ext_line`) and from one `extensions.json` descriptor
    (`parse_ext_dict`). */
module Extension {
  import opened Wrappers
  import opened Text
  import opened Json

  /** A request for one marketplace extension. */
  datatype Extension = Extension(
    publisher: string,
    package: string,
    version: Option<string>,
    platform: Option<string>)
  {
    /** `Extension::get_extension_name`. */
    function Name(): string {
      ExtensionName(publisher, package, version, platform)
    }
  }

  /** `get_extension_name`: `publisher.package`, then `@version` and `=platform` when present. */
  function ExtensionName(publisher: string, package: string, version: Option<string>, platform: Option<string>): string {
    var base := publisher + "." + package;
    var withVersion := if version.Some? then base + "@" + version.value else base;
    if platform.Some? then withVersion + "=" + platform.value else withVersion
  }

  // ---------------------------------------------------------------- parse_ext_line

  /** The helper `strip_suffix` of `list_extensions`: despite its name it cuts `line` at the FIRST
      occurrence of `mark`, giving the text before it and, when the mark occurs, the text after it. */
  function SplitAtMark(line: string, mark: char): (r: (string, Option<string>))
    ensures r.1.None? ==> r.0 == line && mark !in line
    ensures r.1.Some? ==> line == r.0 + [mark] + r.1.value && mark !in r.0
  {
    match FindChar(line, mark)
    case None => (line, None)
    case Some(pos) => assert line == line[..pos] + [mark] + line[pos + 1..]; (line[..pos], Some(line[pos + 1..]))
  }

  /** The line as `parse_ext_line` reads it: trimmed, with one trailing ".vsix" removed. */
  function Normalized(line: string): string {
    var t := Trim(line);
    if EndsWith(t, ".vsix") then t[..|t| - 5] else t
  }

  /** The part of a normalized line before its first '=' and then before its first '@'. */
  function IdPart(t: string): string {
    SplitAtMark(SplitAtMark(t, '=').0, '@').0
  }

  /** `parse_ext_line`: platform after the first '=', version after the first '@' of what precedes
      it, and publisher and package either side of the first '.' of what precedes that. */
  function ParseExtLine(line: string): Option<Extension> {
    var t := Normalized(line);
    var byPlatform := SplitAtMark(t, '=');
    var byVersion := SplitAtMark(byPlatform.0, '@');
    var byPackage := SplitAtMark(byVersion.0, '.');
    if byPackage.1.None? then None
    else Some(Extension(byPackage.0, byPackage.1.value, byVersion.1, byPlatform.1))
  }

  /** A line is accepted exactly when its identifier part holds a '.'; an accepted line names exactly
      the normalized line, and its parts hold no mark that would have been cut earlier. */
  lemma ParseExtLineRoundTrip(line: string)
    ensures ParseExtLine(line).Some? <==> '.' in IdPart(Normalized(line))
    ensures ParseExtLine(line).Some? ==>
      var e := ParseExtLine(line).value;
      && e.Name() == Normalized(line)
      && '.' !in e.publisher && '@' !in e.publisher && '=' !in e.publisher
      && '@' !in e.package && '=' !in e.package
      && (e.version.Some? ==> '=' !in e.version.value)
  {
    var t := Normalized(line);
    var byPlatform := SplitAtMark(t, '=');
    var byVersion := SplitAtMark(byPlatform.0, '@');
    var byPackage := SplitAtMark(byVersion.0, '.');
    if byPackage.1.Some? {
      var e := ParseExtLine(line).value;
      assert byVersion.0 == e.publisher + "." + e.package;
      assert byPlatform.0 == if e.version.Some? then byVersion.0 + "@" + e.version.value else byVersion.0;
      assert '@' !in byVersion.0;
      assert '=' !in byPlatform.0;
    }
  }

  /** A blank line gives no specifier (it is dropped, not an error). */
  lemma BlankLineDropped(line: string)
    requires forall k :: 0 <= k < |line| ==> IsWhitespace(line[k])
    ensures ParseExtLine(line).None?
  {
    assert LeadingSpace(line) == |line|;
  }

  /** An extension whose name `parse_ext_line` would read back unchanged. */
  predicate Canonical(e: Extension) {
    && '.' !in e.publisher && '@' !in e.publisher && '=' !in e.publisher
    && '@' !in e.package && '=' !in e.package
    && (e.version.Some? ==> '=' !in e.version.value)
    && var n := e.Name();
       |n| > 0 && !IsWhitespace(n[0]) && !IsWhitespace(n[|n| - 1]) && !EndsWith(n, ".vsix")
  }

  /** Cutting at the first mark finds the mark that follows a mark-free prefix. */
  lemma SplitAtMarkOf(a: string, mark: char, b: string)
    requires mark !in a
    ensures SplitAtMark(a + [mark] + b, mark) == (a, Some(b))
  {
    var line := a + [mark] + b;
    var r := SplitAtMark(line, mark);
    assert line[|a|] == mark;
    var h := r.0;
    assert |h| < |line| && line[|h|] == mark;
    assert forall k :: 0 <= k < |a| ==> line[k] == a[k];
    assert forall k :: 0 <= k < |h| ==> line[k] == h[k];
    assert h == a;
    assert r.1.value == line[|a| + 1..];
  }

  /** The name of a canonical extension parses back to that extension. */
  lemma ParseNameRoundTrip(e: Extension)
    requires Canonical(e)
    ensures ParseExtLine(e.Name()) == Some(e)
  {
    var n := e.Name();
    assert Normalized(n) == n;
    var base := e.publisher + "." + e.package;
    var withVersion := if e.version.Some? then base + "@" + e.version.value else base;
    assert '=' !in base;
    assert '=' !in withVersion;
    if e.platform.Some? {
      SplitAtMarkOf(withVersion, '=', e.platform.value);
    }
    assert SplitAtMark(n, '=') == (withVersion, e.platform);
    assert '@' !in base;
    if e.version.Some? {
      SplitAtMarkOf(base, '@', e.version.value);
    }
    assert SplitAtMark(withVersion, '@') == (base, e.version);
    SplitAtMarkOf(e.publisher, '.', e.package);
  }

  // ---------------------------------------------------------------- parse_ext_dict

  /** The keys `parse_ext_dict` descends through to find a descriptor's platform. */
  const PlatformPath: seq<string> := ["metadata", "targetPlatform"]

  /** Where the descent of `parse_ext_dict` stops: it follows each key in turn while the current value
      has it, and at the first missing key it stops and keeps the value reached so far. */
  function Walk(j: Json, path: seq<string>): Json {
    if path == [] then j
    else match Get(j, path[0])
      case None => j
      case Some(v) => Walk(v, path[1..])
  }

  /** The platform of a descriptor: the value the descent reaches, when it is a string other than
      "undefined" and "none". */
  function DescriptorPlatform(d: Json): Option<string> {
    var p := AsStr(Walk(d, PlatformPath));
    if p == Some("undefined") || p == Some("none") then None else p
  }

  /** The extension one descriptor stands for: `identifier.id` read as a specifier line, with
      version and platform replaced by the descriptor's own fields. */
  function DescriptorExtension(d: Json): Option<Extension> {
    match Get(d, "identifier")
    case None => None
    case Some(identifier) =>
      match StrAt(identifier, "id")
      case None => None
      case Some(id) =>
        match ParseExtLine(id)
        case None => None
        case Some(x) => Some(x.(version := StrAt(d, "version"), platform := DescriptorPlatform(d)))
  }

  /** One descriptor gives an extension exactly when `identifier.id` is a string that parses; its
      publisher and package come from the id, and its version and platform from the descriptor's own
      fields, whatever version or platform the id itself spells. */
  lemma DescriptorFields(d: Json)
    ensures DescriptorExtension(d).Some? <==>
      && Get(d, "identifier").Some?
      && StrAt(Get(d, "identifier").value, "id").Some?
      && ParseExtLine(StrAt(Get(d, "identifier").value, "id").value).Some?
    ensures DescriptorExtension(d).Some? ==>
      var e := DescriptorExtension(d).value;
      var parsed := ParseExtLine(StrAt(Get(d, "identifier").value, "id").value).value;
      && e.publisher == parsed.publisher
      && e.package == parsed.package
      && e.version == StrAt(d, "version")
      && e.platform == DescriptorPlatform(d)
  {
  }

  /** The platform a descriptor names: the string `metadata.targetPlatform` unless it is
      "undefined" or "none"; nothing when `metadata` is missing or is an object without a string
      `targetPlatform`. When `metadata` is itself a string, the descent stops there and that string is
      the platform. */
  lemma DescriptorPlatformCases(d: Json)
    requires d.Obj?
    ensures Get(d, "metadata").None? ==> DescriptorPlatform(d).None?
    ensures Get(d, "metadata").Some? && Get(Get(d, "metadata").value, "targetPlatform").Some? ==>
      var t := Get(Get(d, "metadata").value, "targetPlatform").value;
      DescriptorPlatform(d) == if t.Str? && t.s != "undefined" && t.s != "none" then Some(t.s) else None
    ensures Get(d, "metadata").Some? && Get(Get(d, "metadata").value, "targetPlatform").None? ==>
      var m := Get(d, "metadata").value;
      DescriptorPlatform(d) == if m.Str? && m.s != "undefined" && m.s != "none" then Some(m.s) else None
  {
    assert PlatformPath[0] == "metadata" && PlatformPath[1..] == ["targetPlatform"];
    match Get(d, "metadata")
    case None =>
      assert Walk(d, PlatformPath) == d;
    case Some(m) =>
      assert Walk(d, PlatformPath) == Walk(m, ["targetPlatform"]);
      assert ["targetPlatform"][1..] == [];
  }

  /** `parse_ext_dict`. */
  method ParseExtDict(d: Json) returns (r: Option<Extension>)
    ensures r == DescriptorExtension(d)
  {
    var identifier := Get(d, "identifier");
    if identifier.None? { return None; }
    var id := StrAt(identifier.value, "id");
    if id.None? { return None; }
    var version := StrAt(d, "version");
    var platform := d;
    var keys := PlatformPath;
    var i := 0;
    while i < |keys|
      invariant 0 <= i <= |keys|
      invariant Walk(platform, keys[i..]) == Walk(d, keys)
    {
      var next := Get(platform, keys[i]);
      if next.None? { break; }
      assert keys[i..][1..] == keys[i + 1..];
      platform := next.value;
      i := i + 1;
    }
    var name := AsStr(platform);
    var platformName := if name == Some("undefined") || name == Some("none") then None else name;
    var ext := ParseExtLine(id.value);
    if ext.None? { return None; }
    r := Some(ext.value.(platform := platformName, version := version));
  }
}
