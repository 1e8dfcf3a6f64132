/** `list_extensions` of `src/extension.rs`: the candidates gathered from every token (an inline
    specifier, a JSON manifest, or a newline-separated listing), then sorted by name and
    deduplicated by name. Shell expansion, file existence, file contents and JSON parsing are
    inputs. */
module ExtensionList {
  import opened Wrappers
  import opened Text
  import opened Json
  import opened Extension

  /** One command-line token, with what `shellexpand::full` made of it (nothing when it failed). */
  datatype Token = Token(raw: string, expanded: Option<string>)

  /** What the filesystem holds at an existing path: the outcome of `read_to_string`, and the outcome
      of `serde_json` parsing that text. A failure carries the `Debug` text of the foreign error
      (`Os { code: 2, kind: NotFound, .. }`, say), which `expect` appends to its own message. */
  datatype FileView = FileView(text: Result<string>, json: Result<Json>)

  /** The message of a panic raised by `Result::expect(msg)` on an error: `"{msg}: {err:?}"`. */
  function ExpectMessage(msg: string, err: string): string {
    msg + ": " + err
  }

  /** The path a token names: its expansion, or the token itself when expansion failed. */
  function PathOf(t: Token): string {
    t.expanded.GetOr(t.raw)
  }

  function Listed(e: Option<Extension>): seq<Extension> {
    if e.Some? then [e.value] else []
  }

  /** The specifiers of a listing, line by line; lines that do not parse are skipped. */
  function LineCandidates(lines: seq<string>): seq<Extension> {
    if lines == [] then []
    else LineCandidates(lines[..|lines| - 1]) + Listed(ParseExtLine(lines[|lines| - 1]))
  }

  /** The specifiers of a JSON array of descriptors; descriptors that give none are skipped. */
  function DescriptorCandidates(items: seq<Json>): seq<Extension> {
    if items == [] then []
    else DescriptorCandidates(items[..|items| - 1]) + Listed(DescriptorExtension(items[|items| - 1]))
  }

  /** The candidates one token contributes, or the message with which `list_extensions` panics
      (`expect`) when an existing file cannot be read or its JSON cannot be parsed. */
  function TokenCandidates(t: Token, fs: map<string, FileView>): Result<seq<Extension>> {
    var path := PathOf(t);
    if path !in fs then Success(Listed(ParseExtLine(path)))
    else match fs[path].text
      case Failure(err) => Failure(ExpectMessage("read file " + path + " failed", err))
      case Success(content) =>
        if StartsWith(content, "[") || StartsWith(content, "{") then
          match fs[path].json
          case Failure(err) => Failure(ExpectMessage("parse json failed from " + path, err))
          case Success(data) =>
            if data.Arr? then Success(DescriptorCandidates(data.items))
            else if data.Obj? then Success(Listed(DescriptorExtension(data)))
            else Success([])
        else Success(LineCandidates(Split(content, '\n')))
  }

  /** The two panics of one token: `expect` appends the foreign error's text to its message. */
  lemma TokenPanics(t: Token, fs: map<string, FileView>)
    requires PathOf(t) in fs
    ensures fs[PathOf(t)].text.Failure? ==>
      TokenCandidates(t, fs) == Failure("read file " + PathOf(t) + " failed: " + fs[PathOf(t)].text.error)
    ensures (fs[PathOf(t)].text.Success? && fs[PathOf(t)].json.Failure?
             && (StartsWith(fs[PathOf(t)].text.value, "[") || StartsWith(fs[PathOf(t)].text.value, "{"))) ==>
      TokenCandidates(t, fs) == Failure("parse json failed from " + PathOf(t) + ": " + fs[PathOf(t)].json.error)
  {
  }

  lemma LineCandidatesStep(lines: seq<string>, j: nat)
    requires j < |lines|
    ensures LineCandidates(lines[..j + 1]) == LineCandidates(lines[..j]) + Listed(ParseExtLine(lines[j]))
  {
    assert lines[..j + 1][..j] == lines[..j];
  }

  lemma DescriptorCandidatesStep(items: seq<Json>, j: nat)
    requires j < |items|
    ensures DescriptorCandidates(items[..j + 1]) == DescriptorCandidates(items[..j]) + Listed(DescriptorExtension(items[j]))
  {
    assert items[..j + 1][..j] == items[..j];
  }

  /** All candidates in token order, or the first panic. */
  function Candidates(tokens: seq<Token>, fs: map<string, FileView>): Result<seq<Extension>> {
    if tokens == [] then Success([])
    else match Candidates(tokens[..|tokens| - 1], fs)
      case Failure(e) => Failure(e)
      case Success(before) =>
        match TokenCandidates(tokens[|tokens| - 1], fs)
        case Failure(e) => Failure(e)
        case Success(more) => Success(before + more)
  }

  lemma {:induction false} CandidatesFailureStays(tokens: seq<Token>, fs: map<string, FileView>, i: nat)
    requires i < |tokens|
    requires Candidates(tokens[..i], fs).Success? && TokenCandidates(tokens[i], fs).Failure?
    ensures Candidates(tokens, fs) == Failure(TokenCandidates(tokens[i], fs).error)
    decreases |tokens| - i
  {
    if i == |tokens| - 1 {
      assert tokens[..|tokens| - 1] == tokens[..i];
    } else {
      var shorter := tokens[..|tokens| - 1];
      assert shorter[..i] == tokens[..i] && shorter[i] == tokens[i];
      CandidatesFailureStays(shorter, fs, i);
    }
  }

  lemma CandidatesStep(tokens: seq<Token>, fs: map<string, FileView>, i: nat, before: seq<Extension>, more: seq<Extension>)
    requires i < |tokens|
    requires Candidates(tokens[..i], fs) == Success(before)
    requires TokenCandidates(tokens[i], fs) == Success(more)
    ensures Candidates(tokens[..i + 1], fs) == Success(before + more)
  {
    assert tokens[..i + 1][..i] == tokens[..i];
  }

  // ---------------------------------------------------------------- ordering by name

  predicate SortedByName(s: seq<Extension>) {
    forall i, j :: 0 <= i < j < |s| ==> LexLe(s[i].Name(), s[j].Name())
  }

  predicate DistinctNames(s: seq<Extension>) {
    forall i, j :: 0 <= i < j < |s| ==> s[i].Name() != s[j].Name()
  }

  /** The first element of `s` whose name is `n`. */
  function FirstNamed(s: seq<Extension>, n: string): (r: Option<Extension>)
    ensures r.Some? ==> r.value in s && r.value.Name() == n
    ensures r.None? ==> forall x :: x in s ==> x.Name() != n
  {
    if s == [] then None
    else if s[0].Name() == n then Some(s[0])
    else FirstNamed(s[1..], n)
  }

  lemma {:induction false} FirstNamedAppend(a: seq<Extension>, b: seq<Extension>, n: string)
    ensures FirstNamed(a + b, n) == if FirstNamed(a, n).Some? then FirstNamed(a, n) else FirstNamed(b, n)
  {
    if a != [] {
      assert (a + b)[1..] == a[1..] + b;
      FirstNamedAppend(a[1..], b, n);
    } else {
      assert a + b == b;
    }
  }

  /** Insertion of `x` before the first element whose name is not below it (stable: after equals
      that came before it would be wrong, so `x` goes before elements of equal name). */
  function Insert(x: Extension, s: seq<Extension>): (r: seq<Extension>)
    ensures multiset(r) == multiset(s) + multiset{x}
  {
    if s == [] then [x]
    else if LexLe(x.Name(), s[0].Name()) then [x] + s
    else
      assert s == [s[0]] + s[1..];
      [s[0]] + Insert(x, s[1..])
  }

  /** Rust's stable `sort_by` on names, as an insertion sort. */
  function SortByName(s: seq<Extension>): (r: seq<Extension>)
    ensures multiset(r) == multiset(s)
  {
    if s == [] then []
    else
      assert s == [s[0]] + s[1..];
      Insert(s[0], SortByName(s[1..]))
  }

  lemma {:induction false} InsertSorted(x: Extension, s: seq<Extension>)
    requires SortedByName(s)
    ensures SortedByName(Insert(x, s))
  {
    if s == [] {
    } else if LexLe(x.Name(), s[0].Name()) {
      forall y | y in s ensures LexLe(x.Name(), y.Name()) {
        var j :| 0 <= j < |s| && s[j] == y;
        if j > 0 { LexLeTransitive(x.Name(), s[0].Name(), s[j].Name()); }
      }
      ConsSorted(x, s);
    } else {
      var t := s[1..];
      InsertSorted(x, t);
      LexLeTotal(x.Name(), s[0].Name());
      forall y | y in t ensures LexLe(s[0].Name(), y.Name()) {
        var k :| 0 <= k < |t| && t[k] == y;
        assert s[k + 1] == y;
      }
      InsertBounded(s[0].Name(), x, t);
      ConsSorted(s[0], Insert(x, t));
    }
  }

  /** A sorted sequence stays sorted with a lower bound of all its names in front. */
  lemma ConsSorted(h: Extension, rest: seq<Extension>)
    requires SortedByName(rest)
    requires forall y :: y in rest ==> LexLe(h.Name(), y.Name())
    ensures SortedByName([h] + rest)
  {
    var r := [h] + rest;
    forall i, j | 0 <= i < j < |r| ensures LexLe(r[i].Name(), r[j].Name()) {
      if i == 0 { assert r[j] == rest[j - 1] && r[j] in rest; }
      else { assert r[i] == rest[i - 1] && r[j] == rest[j - 1]; }
    }
  }

  /** A lower bound on every name of `s` and on `x` is one on every name after the insertion. */
  lemma InsertBounded(b: string, x: Extension, s: seq<Extension>)
    requires LexLe(b, x.Name())
    requires forall y :: y in s ==> LexLe(b, y.Name())
    ensures forall y :: y in Insert(x, s) ==> LexLe(b, y.Name())
  {
    forall y | y in Insert(x, s) ensures LexLe(b, y.Name()) {
      assert y in multiset(Insert(x, s));
      if y != x { assert y in multiset(s); }
    }
  }

  lemma {:induction false} SortByNameSorted(s: seq<Extension>)
    ensures SortedByName(SortByName(s))
  {
    if s != [] {
      SortByNameSorted(s[1..]);
      InsertSorted(s[0], SortByName(s[1..]));
    }
  }

  /** The sort is stable: for every name, the first element bearing it is the same before and after. */
  lemma {:induction false} InsertFirstNamed(x: Extension, s: seq<Extension>, n: string)
    ensures FirstNamed(Insert(x, s), n) == if x.Name() == n then Some(x) else FirstNamed(s, n)
  {
    if s == [] {
    } else if LexLe(x.Name(), s[0].Name()) {
      assert ([x] + s)[1..] == s;
    } else {
      LexLeRefl(x.Name());
      InsertFirstNamed(x, s[1..], n);
      assert ([s[0]] + Insert(x, s[1..]))[1..] == Insert(x, s[1..]);
    }
  }

  lemma {:induction false} SortByNameStable(s: seq<Extension>, n: string)
    ensures FirstNamed(SortByName(s), n) == FirstNamed(s, n)
  {
    if s != [] {
      SortByNameStable(s[1..], n);
      InsertFirstNamed(s[0], SortByName(s[1..]), n);
    }
  }

  // ---------------------------------------------------------------- dedup_by_key

  /** Rust's `dedup_by_key` on names: of every run of neighbours sharing a name, the first stays. */
  function DedupByName(s: seq<Extension>): seq<Extension> {
    if |s| <= 1 then s
    else if s[|s| - 1].Name() == s[|s| - 2].Name() then DedupByName(s[..|s| - 1])
    else DedupByName(s[..|s| - 1]) + [s[|s| - 1]]
  }

  /** In a name-sorted sequence whose last two names differ, every name before the last is strictly
      below it. */
  lemma LastNameAbove(s: seq<Extension>)
    requires SortedByName(s) && |s| > 1 && s[|s| - 1].Name() != s[|s| - 2].Name()
    ensures forall k :: 0 <= k < |s| - 1 ==> LexLe(s[k].Name(), s[|s| - 1].Name()) && s[k].Name() != s[|s| - 1].Name()
  {
    forall k | 0 <= k < |s| - 1 ensures s[k].Name() != s[|s| - 1].Name() {
      if s[k].Name() == s[|s| - 1].Name() {
        LexLeAntisymmetric(s[|s| - 1].Name(), s[|s| - 2].Name());
      }
    }
  }

  /** What deduplication keeps of a name is the first element of a name-sorted sequence bearing it. */
  lemma {:induction false} DedupKeepsFirst(s: seq<Extension>)
    requires SortedByName(s)
    ensures forall y :: y in DedupByName(s) ==> FirstNamed(s, y.Name()) == Some(y)
  {
    if |s| > 1 {
      var init := s[..|s| - 1];
      var last := s[|s| - 1];
      assert s == init + [last];
      DedupKeepsFirst(init);
      forall y | y in DedupByName(init) ensures FirstNamed(s, y.Name()) == Some(y) {
        FirstNamedAppend(init, [last], y.Name());
      }
      if last.Name() != s[|s| - 2].Name() {
        LastNameAbove(s);
        assert forall x :: x in init ==> x.Name() != last.Name();
        FirstNamedAppend(init, [last], last.Name());
      }
    }
  }

  /** Deduplicating a name-sorted sequence leaves it sorted, with every name once. */
  lemma {:induction false} DedupSortedDistinct(s: seq<Extension>)
    requires SortedByName(s)
    ensures SortedByName(DedupByName(s)) && DistinctNames(DedupByName(s))
  {
    if |s| > 1 && s[|s| - 1].Name() != s[|s| - 2].Name() {
      var init := s[..|s| - 1];
      var last := s[|s| - 1];
      var d := DedupByName(init);
      DedupSortedDistinct(init);
      DedupKeepsFirst(init);
      LastNameAbove(s);
      var r := d + [last];
      forall y | y in d ensures LexLe(y.Name(), last.Name()) && y.Name() != last.Name() {
        assert y in init;
      }
      forall i, j | 0 <= i < j < |r| ensures LexLe(r[i].Name(), r[j].Name()) && r[i].Name() != r[j].Name() {
        if j == |r| - 1 { assert r[i] in d; }
        else { assert r[i] == d[i] && r[j] == d[j]; }
      }
    } else if |s| > 1 {
      DedupSortedDistinct(s[..|s| - 1]);
    }
  }

  /** Deduplication loses no name. */
  lemma {:induction false} DedupKeepsNames(s: seq<Extension>)
    ensures forall x :: x in s ==> exists y :: y in DedupByName(s) && y.Name() == x.Name()
  {
    if |s| > 1 {
      var init := s[..|s| - 1];
      var last := s[|s| - 1];
      assert s == init + [last];
      DedupKeepsNames(init);
      forall x | x in s ensures exists y :: y in DedupByName(s) && y.Name() == x.Name() {
        if x in init {
          var y :| y in DedupByName(init) && y.Name() == x.Name();
          assert y in DedupByName(s);
        } else {
          assert x == last;
          if last.Name() == s[|s| - 2].Name() {
            assert s[|s| - 2] in init;
            var y :| y in DedupByName(init) && y.Name() == s[|s| - 2].Name();
            assert y in DedupByName(s);
          } else {
            assert last in DedupByName(s);
          }
        }
      }
    } else {
      forall x | x in s ensures exists y :: y in DedupByName(s) && y.Name() == x.Name() {
        assert x in DedupByName(s);
      }
    }
  }

  // ---------------------------------------------------------------- list_extensions

  /** The body of the loop of `list_extensions` for one token: the candidates it pushes, or the
      panic it raises. */
  method TokenExtensions(t: Token, fs: map<string, FileView>) returns (r: Result<seq<Extension>>)
    ensures r == TokenCandidates(t, fs)
  {
    var result: seq<Extension> := [];
    var path := PathOf(t);
    if path !in fs {
      var ext := ParseExtLine(path);
      if ext.Some? {
        result := result + [ext.value];
      }
      assert result == Listed(ext);
      return Success(result);
    }
    var view := fs[path];
    if view.text.Failure? {
      return Failure(ExpectMessage("read file " + path + " failed", view.text.error));
    }
    var content := view.text.value;
    if StartsWith(content, "[") || StartsWith(content, "{") {
      if view.json.Failure? {
        return Failure(ExpectMessage("parse json failed from " + path, view.json.error));
      }
      var data := view.json.value;
      if data.Arr? {
        result := ManifestExtensions(data.items);
      } else if data.Obj? {
        var ext := ParseExtDict(data);
        if ext.Some? {
          result := result + [ext.value];
        }
        assert result == Listed(DescriptorExtension(data));
      }
    } else {
      result := ListingExtensions(Split(content, '\n'));
    }
    r := Success(result);
  }

  /** The loop over the descriptors of a JSON array: those that give an extension, in order. */
  method ManifestExtensions(items: seq<Json>) returns (result: seq<Extension>)
    ensures result == DescriptorCandidates(items)
  {
    result := [];
    for j := 0 to |items|
      invariant result == DescriptorCandidates(items[..j])
    {
      DescriptorCandidatesStep(items, j);
      var ext := ParseExtDict(items[j]);
      if ext.Some? {
        result := result + [ext.value];
      }
    }
    assert items[..|items|] == items;
  }

  /** The loop over the lines of a listing: those that parse, in order. */
  method ListingExtensions(lines: seq<string>) returns (result: seq<Extension>)
    ensures result == LineCandidates(lines)
  {
    result := [];
    for j := 0 to |lines|
      invariant result == LineCandidates(lines[..j])
    {
      LineCandidatesStep(lines, j);
      var ext := ParseExtLine(lines[j]);
      if ext.Some? {
        result := result + [ext.value];
      }
    }
    assert lines[..|lines|] == lines;
  }

  /** `list_extensions`: on success the result is sorted by name, holds every name once, keeps for
      each name the first candidate bearing it, and loses no candidate's name; a file that cannot be
      read or parsed aborts the whole call. */
  method ListExtensions(tokens: seq<Token>, fs: map<string, FileView>) returns (r: Result<seq<Extension>>)
    ensures r.Success? <==> Candidates(tokens, fs).Success?
    ensures r.Failure? ==> r == Candidates(tokens, fs)
    ensures r.Success? ==>
      var c := Candidates(tokens, fs).value;
      && SortedByName(r.value) && DistinctNames(r.value)
      && (forall y :: y in r.value ==> FirstNamed(c, y.Name()) == Some(y))
      && (forall x :: x in c ==> exists y :: y in r.value && y.Name() == x.Name())
  {
    var result: seq<Extension> := [];
    for i := 0 to |tokens|
      invariant Candidates(tokens[..i], fs) == Success(result)
    {
      var more := TokenExtensions(tokens[i], fs);
      if more.Failure? {
        CandidatesFailureStays(tokens, fs, i);
        return Failure(more.error);
      }
      CandidatesStep(tokens, fs, i, result, more.value);
      result := result + more.value;
    }
    assert tokens[..|tokens|] == tokens;
    SortDedup(result);
    r := Success(DedupByName(SortByName(result)));
  }

  /** Sorting the candidates by name and dropping later duplicates gives a sorted list with each name
      once, holding for each name the first candidate bearing it, and losing no candidate's name. */
  lemma SortDedup(c: seq<Extension>)
    ensures var r := DedupByName(SortByName(c));
      && SortedByName(r) && DistinctNames(r)
      && (forall y :: y in r ==> FirstNamed(c, y.Name()) == Some(y))
      && (forall x :: x in c ==> exists y :: y in r && y.Name() == x.Name())
  {
    var sorted := SortByName(c);
    SortByNameSorted(c);
    DedupSortedDistinct(sorted);
    DedupKeepsFirst(sorted);
    DedupKeepsNames(sorted);
    var r := DedupByName(sorted);
    forall y | y in r ensures FirstNamed(c, y.Name()) == Some(y) {
      SortByNameStable(c, y.Name());
    }
    forall x | x in c ensures exists y :: y in r && y.Name() == x.Name() {
      assert x in multiset(sorted);
      assert x in sorted;
    }
  }
}
