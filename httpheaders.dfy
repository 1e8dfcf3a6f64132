/** The two header parsers of `src/utils.rs`: the `content-encoding` value and the file name of a
    `content-disposition` header, over the text of a saved curl header file. The header name is
    matched case-insensitively by lower-casing the whole line (section 5.1 of RFC 9110), so the values
    come out lower-cased too. */
module HttpHeaders {
  import opened Wrappers
  import opened Text

  /** The position of the first `true`. */
  function FirstTrue(flags: seq<bool>): (r: Option<nat>)
    ensures r.Some? ==> r.value < |flags| && flags[r.value] && forall j :: 0 <= j < r.value ==> !flags[j]
    ensures r.None? ==> forall j :: 0 <= j < |flags| ==> !flags[j]
  {
    if flags == [] then None
    else if flags[0] then Some(0)
    else match FirstTrue(flags[1..])
      case None => None
      case Some(k) => Some(k + 1)
  }

  lemma FirstTrueAt(flags: seq<bool>, k: nat)
    requires k < |flags| && flags[k] && forall j :: 0 <= j < k ==> !flags[j]
    ensures FirstTrue(flags) == Some(k)
  {
  }

  /** Every character of a trimmed text is a character of the text, so trimming keeps lower case. */
  lemma TrimLowercase(s: string)
    requires Lowercase(s)
    ensures Lowercase(Trim(s))
  {
    TrimChars(s);
  }

  /** The pieces of a lower-case text split on a character are lower-case. */
  lemma {:induction false} SplitLowercase(s: string, c: char)
    requires Lowercase(s)
    ensures forall k :: 0 <= k < |Split(s, c)| ==> Lowercase(Split(s, c)[k])
    decreases |s|
  {
    match FindChar(s, c)
    case None =>
    case Some(i) =>
      LowercaseSlice(s, 0, i);
      LowercaseSlice(s, i + 1, |s|);
      SplitLowercase(s[i + 1..], c);
      assert s[0..i] == s[..i];
      assert s[i + 1..|s|] == s[i + 1..];
  }

  // ---------------------------------------------------------------- content-encoding

  /** What one line gives `parse_http_header_content_encoding`: when its trimmed, lower-cased form
      starts with "content-encoding" and holds a ':', the trimmed text after the first ':'. */
  function LineEncoding(line: string): Option<string> {
    var low := ToLower(Trim(line));
    if !StartsWith(low, "content-encoding") then None
    else match FindChar(low, ':')
      case None => None
      case Some(pos) => Some(Trim(low[pos + 1..]))
  }

  /** Which lines give an encoding. */
  function EncodingFlags(lines: seq<string>): (flags: seq<bool>)
    ensures |flags| == |lines|
  {
    if lines == [] then [] else EncodingFlags(lines[..|lines| - 1]) + [LineEncoding(lines[|lines| - 1]).Some?]
  }

  lemma {:induction false} EncodingFlag(lines: seq<string>, k: nat)
    requires k < |lines|
    ensures EncodingFlags(lines)[k] == LineEncoding(lines[k]).Some?
  {
    if k < |lines| - 1 {
      EncodingFlag(lines[..|lines| - 1], k);
    }
  }

  /** `parse_http_header_content_encoding` on the header file's text, `None` when the file could not
      be read: the value of the first line that gives one. */
  function ContentEncodingOf(header: Option<string>): Option<string> {
    match header
    case None => None
    case Some(text) => FirstEncoding(Lines(text))
  }

  /** The encoding of the first line that gives one. */
  function FirstEncoding(lines: seq<string>): Option<string> {
    match FirstTrue(EncodingFlags(lines))
    case None => None
    case Some(k) => LineEncoding(lines[k])
  }

  /** No encoding is found exactly when no line gives one. */
  lemma FirstEncodingNone(lines: seq<string>)
    ensures FirstEncoding(lines).None? <==> forall k :: 0 <= k < |lines| ==> LineEncoding(lines[k]).None?
  {
    var flags := EncodingFlags(lines);
    if FirstTrue(flags).None? {
      forall k | 0 <= k < |lines| ensures LineEncoding(lines[k]).None? {
        EncodingFlag(lines, k);
      }
    } else {
      EncodingFlag(lines, FirstTrue(flags).value);
    }
  }

  /** An encoding found is that of the first line that gives one. */
  lemma FirstEncodingFirst(lines: seq<string>)
    ensures var r := FirstEncoding(lines);
      r.Some? ==>
        exists k :: (&& 0 <= k < |lines| && LineEncoding(lines[k]) == r
                     && forall j :: 0 <= j < k ==> LineEncoding(lines[j]).None?)
  {
    var flags := EncodingFlags(lines);
    if FirstTrue(flags).Some? {
      var k := FirstTrue(flags).value;
      assert LineEncoding(lines[k]) == FirstEncoding(lines);
      forall j | 0 <= j < k ensures LineEncoding(lines[j]).None? {
        EncodingFlag(lines, j);
      }
    }
  }

  /** An encoding a line gives is lower-case and has no surrounding whitespace. */
  lemma LineEncodingValue(line: string)
    requires LineEncoding(line).Some?
    ensures var v := LineEncoding(line).value;
      Lowercase(v) && (v == [] || (!IsWhitespace(v[0]) && !IsWhitespace(v[|v| - 1])))
  {
    var low := ToLower(Trim(line));
    ToLowerIsLowercase(Trim(line));
    TrimmedSuffixLowercase(low, FindChar(low, ':').value + 1);
  }

  lemma TrimmedSuffixLowercase(s: string, i: nat)
    requires Lowercase(s) && i <= |s|
    ensures Lowercase(Trim(s[i..]))
  {
    LowercaseSuffix(s, i);
    TrimLowercase(s[i..]);
  }

  lemma LowercaseSuffix(s: string, i: nat)
    requires Lowercase(s) && i <= |s|
    ensures Lowercase(s[i..])
  {
    LowercaseSlice(s, i, |s|);
    assert s[i..|s|] == s[i..];
  }

  /** Any encoding found is lower-case. */
  lemma ContentEncodingLowercase(header: Option<string>)
    ensures ContentEncodingOf(header).Some? ==> Lowercase(ContentEncodingOf(header).value)
  {
    if ContentEncodingOf(header).Some? {
      var lines := Lines(header.value);
      var k := FirstTrue(EncodingFlags(lines)).value;
      LineEncodingValue(lines[k]);
    }
  }

  /** `parse_http_header_content_encoding`. */
  method ParseContentEncoding(header: Option<string>) returns (r: Option<string>)
    ensures r == ContentEncodingOf(header)
  {
    if header.None? {
      return None;
    }
    r := ScanForEncoding(Lines(header.value));
  }

  /** The loop of `parse_http_header_content_encoding`: the first line that gives an encoding. */
  method ScanForEncoding(lines: seq<string>) returns (r: Option<string>)
    ensures r == FirstEncoding(lines)
  {
    ghost var flags := EncodingFlags(lines);
    for k := 0 to |lines|
      invariant forall j :: 0 <= j < k ==> !flags[j]
    {
      var encoding := EncodingInLine(lines[k]);
      EncodingFlag(lines, k);
      if encoding.None? {
        continue;
      }
      EncodingFound(lines, k);
      return encoding;
    }
    return None;
  }

  /** The body of that loop for one line: `None` where it continues with the next line. */
  method EncodingInLine(raw: string) returns (r: Option<string>)
    ensures r == LineEncoding(raw)
  {
    var line := ToLower(Trim(raw));
    if !StartsWith(line, "content-encoding") {
      return None;
    }
    var pos := FindChar(line, ':');
    if pos.None? {
      return None;
    }
    return Some(Trim(line[pos.value + 1..]));
  }

  /** A line that gives an encoding after lines that give none decides the scan. */
  lemma EncodingFound(lines: seq<string>, k: nat)
    requires k < |lines| && LineEncoding(lines[k]).Some?
    requires forall j :: 0 <= j < k ==> !EncodingFlags(lines)[j]
    ensures FirstEncoding(lines) == LineEncoding(lines[k])
  {
    EncodingFlag(lines, k);
  }

  // ---------------------------------------------------------------- content-disposition

  /** The parameter text of a `content-disposition` line: what follows the first ':' of its trimmed,
      lower-cased form. Other lines, and lines without a ':', give nothing. */
  function DispositionParams(line: string): Option<string> {
    var low := ToLower(Trim(line));
    if !StartsWith(low, "content-disposition") then None
    else match FindChar(low, ':')
      case None => None
      case Some(pos) => Some(low[pos + 1..])
  }

  /** Which lines are examined. */
  function DispositionFlags(lines: seq<string>): (flags: seq<bool>)
    ensures |flags| == |lines|
  {
    if lines == [] then [] else DispositionFlags(lines[..|lines| - 1]) + [DispositionParams(lines[|lines| - 1]).Some?]
  }

  lemma {:induction false} DispositionFlag(lines: seq<string>, k: nat)
    requires k < |lines|
    ensures DispositionFlags(lines)[k] == DispositionParams(lines[k]).Some?
  {
    if k < |lines| - 1 {
      DispositionFlag(lines[..|lines| - 1], k);
    }
  }

  /** One parameter: the trimmed piece split at its first '=', key and value trimmed; a piece without
      '=' is no parameter. */
  function Parameter(piece: string): Option<(string, string)> {
    var x := Trim(piece);
    match FindChar(x, '=')
    case None => None
    case Some(pos) => Some((Trim(x[..pos]), Trim(x[pos + 1..])))
  }

  /** The parameters of a parameter text, in order: its ';'-separated pieces that hold a '='. */
  function Parameters(pieces: seq<string>): seq<(string, string)> {
    if pieces == [] then []
    else
      var rest := Parameters(pieces[1..]);
      match Parameter(pieces[0])
      case None => rest
      case Some(p) => [p] + rest
  }

  /** `p` is what one of the pieces parses to. */
  predicate FromPiece(pieces: seq<string>, p: (string, string)) {
    exists i :: 0 <= i < |pieces| && Parameter(pieces[i]) == Some(p)
  }

  /** The values present in a sequence of options, in order. */
  function Present<T>(os: seq<Option<T>>): seq<T> {
    if os == [] then [] else (if os[0].Some? then [os[0].value] else []) + Present(os[1..])
  }

  /** A value is present exactly when some option holds it. */
  lemma {:induction false} PresentValues<T>(os: seq<Option<T>>)
    ensures forall x :: x in Present(os) <==> Some(x) in os
  {
    if os != [] {
      PresentValues(os[1..]);
      assert os == [os[0]] + os[1..];
    }
  }

  /** What each piece parses to. */
  function Parsed(pieces: seq<string>): (r: seq<Option<(string, string)>>)
    ensures |r| == |pieces| && forall i :: 0 <= i < |pieces| ==> r[i] == Parameter(pieces[i])
  {
    seq(|pieces|, i requires 0 <= i < |pieces| => Parameter(pieces[i]))
  }

  lemma {:induction false} ParametersPresent(pieces: seq<string>)
    ensures Parameters(pieces) == Present(Parsed(pieces))
  {
    if pieces != [] {
      ParametersPresent(pieces[1..]);
      assert Parsed(pieces)[1..] == Parsed(pieces[1..]);
    }
  }

  /** The parameters are exactly what the pieces holding a '=' parse to. */
  lemma ParametersValues(pieces: seq<string>)
    ensures forall p :: p in Parameters(pieces) <==> FromPiece(pieces, p)
  {
    ParametersPresent(pieces);
    PresentValues(Parsed(pieces));
  }

  /** The parameters of consecutive runs of pieces follow one another, so their order is the pieces'. */
  lemma {:induction false} ParametersAppend(a: seq<string>, b: seq<string>)
    ensures Parameters(a + b) == Parameters(a) + Parameters(b)
  {
    if a == [] {
      assert a + b == b;
    } else {
      var ab := a + b;
      assert ab[0] == a[0] && ab[1..] == a[1..] + b;
      ParametersAppend(a[1..], b);
      var p := Parameter(a[0]);
      if p.Some? {
        assert Parameters(ab) == [p.value] + Parameters(ab[1..]);
      } else {
        assert Parameters(ab) == Parameters(ab[1..]);
      }
    }
  }

  /** The rank the code gives a parameter name when it sorts the file names: 1 for `filename*`, 4
      for `filename`, and none for any other parameter. */
  function RankOfKey(key: string): Option<int> {
    if key == "filename" then Some(4)
    else if key == "filename*" then Some(1)
    else None
  }

  /** The values of the file-name parameters, in order, each with the rank the code sorts by: 1 for
      `filename*`, 4 for `filename`. Other parameters are dropped. */
  function Ranked(params: seq<(string, string)>): (r: seq<(string, int)>)
    ensures forall k :: 0 <= k < |r| ==> r[k].1 == 1 || r[k].1 == 4
  {
    if params == [] then []
    else
      var rest := Ranked(params[1..]);
      if params[0].0 == "filename" then [(params[0].1, 4)] + rest
      else if params[0].0 == "filename*" then [(params[0].1, 1)] + rest
      else rest
  }

  /** `v` is the value of one of the file-name parameters, with the rank of that parameter's name. */
  predicate FromParameter(params: seq<(string, string)>, v: (string, int)) {
    exists j :: 0 <= j < |params| && RankOfKey(params[j].0) == Some(v.1) && params[j].1 == v.0
  }

  /** The ranked values are exactly the file-name parameters' values: each comes from a `filename`
      or `filename*` parameter and carries that name's rank, and every such parameter is there. */
  lemma {:induction false} RankedValues(params: seq<(string, string)>)
    ensures forall v :: v in Ranked(params) ==> FromParameter(params, v)
    ensures forall j :: 0 <= j < |params| && RankOfKey(params[j].0).Some? ==>
      (params[j].1, RankOfKey(params[j].0).value) in Ranked(params)
  {
    if params != [] {
      var tail := params[1..];
      RankedValues(tail);
      var r := Ranked(params);
      var rest := Ranked(tail);
      if RankOfKey(params[0].0).Some? {
        assert r == [(params[0].1, RankOfKey(params[0].0).value)] + rest;
      } else {
        assert r == rest;
      }
      forall v | v in r
        ensures FromParameter(params, v)
      {
        if v in rest {
          var j :| 0 <= j < |tail| && RankOfKey(tail[j].0) == Some(v.1) && tail[j].1 == v.0;
          assert params[j + 1] == tail[j];
        } else {
          assert RankOfKey(params[0].0) == Some(v.1) && params[0].1 == v.0;
        }
      }
      forall j | 0 <= j < |params| && RankOfKey(params[j].0).Some?
        ensures (params[j].1, RankOfKey(params[j].0).value) in r
      {
        if j > 0 {
          assert params[j] == tail[j - 1];
        }
      }
    }
  }

  /** Stable insertion by rank: `x` goes before the first element whose rank is not below its own. */
  function InsertByRank(x: (string, int), s: seq<(string, int)>): (r: seq<(string, int)>)
    ensures |r| == |s| + 1
  {
    if s == [] || x.1 <= s[0].1 then [x] + s
    else [s[0]] + InsertByRank(x, s[1..])
  }

  /** `sort_by` on the rank: a stable sort. */
  function SortByRank(s: seq<(string, int)>): (r: seq<(string, int)>)
    ensures |r| == |s|
  {
    if s == [] then [] else InsertByRank(s[0], SortByRank(s[1..]))
  }

  lemma {:induction false} InsertByRankPermutes(x: (string, int), s: seq<(string, int)>)
    ensures multiset(InsertByRank(x, s)) == multiset(s) + multiset{x}
  {
    if s != [] && x.1 > s[0].1 {
      InsertByRankPermutes(x, s[1..]);
      assert s == [s[0]] + s[1..];
    }
  }

  /** The sort only reorders. */
  lemma {:induction false} SortByRankPermutes(s: seq<(string, int)>)
    ensures multiset(SortByRank(s)) == multiset(s)
  {
    if s != [] {
      SortByRankPermutes(s[1..]);
      InsertByRankPermutes(s[0], SortByRank(s[1..]));
      assert s == [s[0]] + s[1..];
    }
  }

  /** The first element of the stable sort is the first element of least rank. */
  lemma {:induction false} SortByRankHead(s: seq<(string, int)>) returns (i: nat)
    requires s != []
    ensures i < |s| && SortByRank(s)[0] == s[i]
    ensures forall j :: 0 <= j < i ==> s[j].1 > s[i].1
    ensures forall k :: 0 <= k < |s| ==> s[i].1 <= s[k].1
  {
    var rest := s[1..];
    var t := SortByRank(rest);
    InsertHead(s[0], t);
    if rest == [] {
      return 0;
    }
    var i' := SortByRankHead(rest);
    LeastAfterFirst(s, i');
    i := if s[0].1 <= rest[i'].1 then 0 else i' + 1;
  }

  /** The first least element of `s`, from that of its tail. */
  lemma LeastAfterFirst(s: seq<(string, int)>, i': nat)
    requires 1 <= i' + 1 < |s|
    requires forall j :: 0 <= j < i' ==> s[1..][j].1 > s[1..][i'].1
    requires forall k :: 0 <= k < |s| - 1 ==> s[1..][i'].1 <= s[1..][k].1
    ensures s[0].1 <= s[i' + 1].1 ==> forall k :: 0 <= k < |s| ==> s[0].1 <= s[k].1
    ensures s[0].1 > s[i' + 1].1 ==>
      && (forall j :: 0 <= j < i' + 1 ==> s[j].1 > s[i' + 1].1)
      && (forall k :: 0 <= k < |s| ==> s[i' + 1].1 <= s[k].1)
  {
    assert forall k :: 1 <= k < |s| ==> s[k] == s[1..][k - 1];
  }

  /** Where insertion puts its element: first, unless the first element ranks below it. */
  lemma InsertHead(x: (string, int), t: seq<(string, int)>)
    ensures InsertByRank(x, t)[0] == if t == [] || x.1 <= t[0].1 then x else t[0]
  {
  }

  /** The value of the first parameter named `key`. */
  function FirstValue(params: seq<(string, string)>, key: string): Option<string> {
    match FirstKey(params, key)
    case None => None
    case Some(i) => Some(params[i].1)
  }

  /** The file name RFC 6266 section 4.3 calls for: that of the first `filename*` parameter, and
      without one, that of the first `filename` parameter. */
  function Preferred(params: seq<(string, string)>): Option<string> {
    var extended := FirstValue(params, "filename*");
    if extended.Some? then extended else FirstValue(params, "filename")
  }

  /** The first element of rank `rank`. */
  function FirstRanked(s: seq<(string, int)>, rank: int): (r: Option<nat>)
    ensures r.Some? ==> r.value < |s| && s[r.value].1 == rank && forall j :: 0 <= j < r.value ==> s[j].1 != rank
    ensures r.None? ==> forall j :: 0 <= j < |s| ==> s[j].1 != rank
  {
    if s == [] then None
    else if s[0].1 == rank then Some(0)
    else match FirstRanked(s[1..], rank)
      case None => None
      case Some(k) => Some(k + 1)
  }

  /** The first `filename*` parameter is the first element of rank 1, and the first `filename`
      parameter that of rank 4. */
  lemma {:induction false} RankedFirst(params: seq<(string, string)>)
    ensures var r := Ranked(params); var f := FirstRanked(r, 1);
      FirstValue(params, "filename*") == (if f.Some? then Some(r[f.value].0) else None)
    ensures var r := Ranked(params); var f := FirstRanked(r, 4);
      FirstValue(params, "filename") == (if f.Some? then Some(r[f.value].0) else None)
    ensures Ranked(params) == [] <==> (FirstValue(params, "filename*").None? && FirstValue(params, "filename").None?)
  {
    RankedFirstKey(params, "filename*", 1);
    RankedFirstKey(params, "filename", 4);
    RankedEmpty(params);
  }

  /** The first parameter named `key` is the first element of its rank. */
  lemma {:induction false} RankedFirstKey(params: seq<(string, string)>, key: string, rank: int)
    requires (key == "filename*" && rank == 1) || (key == "filename" && rank == 4)
    ensures var r := Ranked(params); var f := FirstRanked(r, rank);
      FirstValue(params, key) == (if f.Some? then Some(r[f.value].0) else None)
  {
    if params != [] {
      RankedFirstKey(params[1..], key, rank);
      if params[0].0 == "filename" || params[0].0 == "filename*" {
        assert Ranked(params)[1..] == Ranked(params[1..]);
      }
    }
  }

  /** No file-name parameter survives exactly when there is neither kind. */
  lemma {:induction false} RankedEmpty(params: seq<(string, string)>)
    ensures Ranked(params) == [] <==> (FirstValue(params, "filename*").None? && FirstValue(params, "filename").None?)
  {
    if params != [] {
      RankedEmpty(params[1..]);
    }
  }

  /** The head of the sorted ranks is the preferred file name. */
  lemma PreferredHead(params: seq<(string, string)>)
    ensures var sorted := SortByRank(Ranked(params));
      (sorted == [] <==> Preferred(params).None?)
      && (sorted != [] ==> Preferred(params) == Some(sorted[0].0))
  {
    var r := Ranked(params);
    var sorted := SortByRank(r);
    RankedFirst(params);
    if r != [] {
      var i := SortByRankHead(r);
      if r[i].1 == 1 {
        assert FirstRanked(r, 1) == Some(i);
      } else {
        assert FirstRanked(r, 1).None?;
        assert r[0].1 == 4;
        assert i == 0;
        assert FirstRanked(r, 4) == Some(0);
      }
    }
  }

  /** The ext-value prefix removal: everything up to and including the first "''" goes (the
      `charset'language'` part of section 3.2.1 of RFC 8187); no unquoting, no percent-decoding. */
  function StripCharset(name: string): (r: string)
    ensures Find(name, "''").None? ==> r == name
    ensures Find(name, "''").Some? ==> name == name[..Find(name, "''").value] + "''" + r
  {
    match Find(name, "''")
    case None => name
    case Some(pos) =>
      assert name == name[..pos] + name[pos..pos + 2] + name[pos + 2..];
      name[pos + 2..]
  }

  /** The file name one parameter text gives: the first value of the stable sort by rank, without
      its ext-value prefix. */
  function FileNameIn(params: string): Option<string> {
    var sorted := SortByRank(Ranked(Parameters(Split(params, ';'))));
    if sorted == [] then None else Some(StripCharset(sorted[0].0))
  }

  /** A parameter text names the preferred file name: the first `filename*` value, else the first
      `filename` value, in either case without its ext-value prefix. */
  lemma FileNamePreferred(params: string)
    ensures var p := Preferred(Parameters(Split(params, ';')));
      FileNameIn(params) == if p.Some? then Some(StripCharset(p.value)) else None
  {
    PreferredHead(Parameters(Split(params, ';')));
  }

  /** `parse_http_header_content_disposition` on the header file's text, `None` when the file could
      not be read. */
  function ContentDispositionOf(header: Option<string>): Option<string> {
    match header
    case None => None
    case Some(text) => FirstDisposition(Lines(text))
  }

  /** Only the first `content-disposition` line with a ':' is examined: it gives the file name, or
      nothing when it names none. */
  function FirstDisposition(lines: seq<string>): Option<string> {
    match FirstTrue(DispositionFlags(lines))
    case None => None
    case Some(k) =>
      DispositionFlag(lines, k);
      FileNameIn(DispositionParams(lines[k]).value)
  }

  /** Without a `content-disposition` line there is no file name. */
  lemma FirstDispositionNone(lines: seq<string>)
    requires forall k :: 0 <= k < |lines| ==> DispositionParams(lines[k]).None?
    ensures FirstDisposition(lines).None?
  {
    if FirstTrue(DispositionFlags(lines)).Some? {
      DispositionFlag(lines, FirstTrue(DispositionFlags(lines)).value);
    }
  }

  /** The first examined line decides, even when it names no file and a later line would. */
  lemma FirstDispositionDecides(lines: seq<string>, k: nat)
    requires k < |lines| && DispositionParams(lines[k]).Some?
    requires forall j :: 0 <= j < k ==> DispositionParams(lines[j]).None?
    ensures FirstDisposition(lines) == FileNameIn(DispositionParams(lines[k]).value)
  {
    var flags := DispositionFlags(lines);
    DispositionFlag(lines, k);
    forall j | 0 <= j < k ensures !flags[j] {
      DispositionFlag(lines, j);
    }
    FirstTrueAt(flags, k);
  }

  /** Parameters of a lower-case text have lower-case values. */
  lemma {:induction false} ParametersLowercase(pieces: seq<string>)
    requires forall k :: 0 <= k < |pieces| ==> Lowercase(pieces[k])
    ensures forall k :: 0 <= k < |Parameters(pieces)| ==> Lowercase(Parameters(pieces)[k].1)
  {
    if pieces != [] {
      ParametersLowercase(pieces[1..]);
      var x := Trim(pieces[0]);
      TrimLowercase(pieces[0]);
      match FindChar(x, '=')
      case None =>
      case Some(pos) =>
        LowercaseSlice(x, pos + 1, |x|);
        assert x[pos + 1..|x|] == x[pos + 1..];
        TrimLowercase(x[pos + 1..]);
        var ps := Parameters(pieces);
        assert ps[1..] == Parameters(pieces[1..]);
    }
  }

  /** Ranked values are parameter values. */
  lemma {:induction false} RankedLowercase(params: seq<(string, string)>)
    requires forall k :: 0 <= k < |params| ==> Lowercase(params[k].1)
    ensures forall k :: 0 <= k < |Ranked(params)| ==> Lowercase(Ranked(params)[k].0)
  {
    if params != [] {
      RankedLowercase(params[1..]);
      if params[0].0 == "filename" || params[0].0 == "filename*" {
        assert Ranked(params)[1..] == Ranked(params[1..]);
      }
    }
  }

  /** Any file name found in a lower-case parameter text is lower-case. */
  lemma FileNameLowercase(params: string)
    requires Lowercase(params)
    ensures FileNameIn(params).Some? ==> Lowercase(FileNameIn(params).value)
  {
    var pieces := Split(params, ';');
    SplitLowercase(params, ';');
    ParametersLowercase(pieces);
    var ranked := Ranked(Parameters(pieces));
    RankedLowercase(Parameters(pieces));
    var sorted := SortByRank(ranked);
    if sorted != [] {
      var h := sorted[0];
      SortByRankPermutes(ranked);
      assert h in multiset(ranked);
      var i :| 0 <= i < |ranked| && ranked[i] == h;
      var v := h.0;
      match Find(v, "''")
      case None =>
      case Some(pos) =>
        LowercaseSlice(v, pos + 2, |v|);
        assert v[pos + 2..|v|] == v[pos + 2..];
    }
  }

  /** The parameter text of a line is lower-case. */
  lemma DispositionLowercase(line: string)
    requires DispositionParams(line).Some?
    ensures Lowercase(DispositionParams(line).value)
  {
    var low := ToLower(Trim(line));
    ToLowerIsLowercase(Trim(line));
    LowercaseSuffix(low, FindChar(low, ':').value + 1);
  }

  /** Any file name found is lower-case. */
  lemma FirstDispositionLowercase(lines: seq<string>)
    ensures FirstDisposition(lines).Some? ==> Lowercase(FirstDisposition(lines).value)
  {
    if FirstDisposition(lines).Some? {
      var k := FirstTrue(DispositionFlags(lines)).value;
      DispositionFlag(lines, k);
      DispositionLowercase(lines[k]);
      FileNameLowercase(DispositionParams(lines[k]).value);
    }
  }

  /** `parse_http_header_content_disposition`. */
  method ParseContentDisposition(header: Option<string>) returns (r: Option<string>)
    ensures r == ContentDispositionOf(header)
  {
    if header.None? {
      return None;
    }
    r := ScanForDisposition(Lines(header.value));
  }

  /** The loop of `parse_http_header_content_disposition`. */
  method ScanForDisposition(lines: seq<string>) returns (r: Option<string>)
    ensures r == FirstDisposition(lines)
  {
    ghost var flags := DispositionFlags(lines);
    for k := 0 to |lines|
      invariant forall j :: 0 <= j < k ==> !flags[j]
    {
      var params := DispositionInLine(lines[k]);
      DispositionFlag(lines, k);
      if params.None? {
        continue;
      }
      forall j | 0 <= j < k ensures DispositionParams(lines[j]).None? {
        DispositionFlag(lines, j);
      }
      FirstDispositionDecides(lines, k);
      var names := Ranked(Parameters(Split(params.value, ';')));
      names := SortByRank(names);
      if names == [] {
        return None;
      }
      return Some(StripCharset(names[0].0));
    }
    return None;
  }

  /** The head of that loop for one line: the parameter text, or `None` where it continues with the
      next line. */
  method DispositionInLine(raw: string) returns (r: Option<string>)
    ensures r == DispositionParams(raw)
  {
    var line := ToLower(Trim(raw));
    if !StartsWith(line, "content-disposition") {
      return None;
    }
    var pos := FindChar(line, ':');
    if pos.None? {
      return None;
    }
    return Some(line[pos.value + 1..]);
  }
}
