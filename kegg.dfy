/** Fetching KEGG Orthology annotations over the KEGG REST `get` operation
    (imicrobe/util/kegg.py): the ids are sorted and sent ten at a time, each
    flat-file response is parsed line by line, and the ids a response does not
    mention are reported as bad. The HTTP exchange is a function parameter
    from request URL to status and body. */
module Kegg {
  import opened Wrappers
  import opened Strings
  import opened Groups

  /** What the REST service answers: an HTTP status and a body. */
  datatype Response = Response(status: int, text: string)

  /** Parsed annotations: KEGG id (or `None`) to field name (or `None`) to the
      values seen for that field, in order, as the nested `defaultdict`s hold them. */
  type Entries = map<Option<string>, map<Option<string>, seq<string>>>

  /** One line matched by `^(?P<field_name>[A-Z]+)?(\s+)(?P<field_value>.+)$`. */
  datatype FieldLine = FieldLine(name: Option<string>, value: string)

  /** Length of the leading run of upper-case ASCII letters. */
  function UpperLen(s: string): (n: nat)
    ensures n <= |s|
    ensures forall i :: 0 <= i < n ==> IsUpper(s[i])
    ensures n == |s| || !IsUpper(s[n])
    decreases |s|
  {
    if |s| == 0 || !IsUpper(s[0]) then 0 else 1 + UpperLen(s[1..])
  }

  /** Length of the leading run of whitespace. */
  function SpaceLen(s: string): (n: nat)
    ensures n <= |s|
    ensures forall i :: 0 <= i < n ==> IsSpace(s[i])
    ensures n == |s| || !IsSpace(s[n])
    decreases |s|
  {
    if |s| == 0 || !IsSpace(s[0]) then 0 else 1 + SpaceLen(s[1..])
  }

  /** The field regular expression, applied to a line with its line break
      removed: an optional upper-case field name, at least one whitespace
      character, then a non-empty value. The greedy `\s+` leaves the value
      starting at the first non-blank character; it gives back its last
      character only when nothing else is left for `.+`. */
  function MatchField(s: string): (r: Option<FieldLine>)
    ensures r.Some? ==> |r.value.value| > 0
    ensures r.Some? && r.value.name.Some? ==> StartsWith(s, r.value.name.value) && |r.value.name.value| > 0
  {
    var u := UpperLen(s);
    var w := SpaceLen(s[u..]);
    var name := if u == 0 then None else Some(s[..u]);
    if w == 0 then None
    else if u + w < |s| then Some(FieldLine(name, s[u + w..]))
    else if w >= 2 then Some(FieldLine(name, s[|s| - 1..]))
    else None
  }

  /** A line that begins with whitespace never carries a field name: an
      indented continuation line is filed under the `None` field. */
  lemma IndentedLineHasNoName(s: string)
    requires |s| > 0 && IsSpace(s[0])
    ensures MatchField(s).Some? ==> MatchField(s).value.name == None
  {
    assert UpperLen(s) == 0;
  }

  /** Lines that cannot match: the empty line and the `///` record separator. */
  lemma SeparatorsDoNotMatch()
    ensures MatchField("") == None
    ensures MatchField("///") == None
  {
    assert UpperLen("///") == 0;
    assert SpaceLen("///") == 0;
  }

  /** The lines of `io.StringIO(text).readlines()`, without their `\n`
      (every line is `rstrip`ped before it is matched, which removes it anyway). */
  function ReadLines(text: string): seq<string> {
    var parts := Split(text, '\n');
    if parts[|parts| - 1] == "" then parts[..|parts| - 1] else parts
  }

  /** `kegg_id, *_ = field_value.split(' ')` */
  function FirstToken(v: string): string {
    Split(v, ' ')[0]
  }

  /** The values stored under `entries[id][field]`, empty when absent. */
  function Lookup(entries: Entries, id: Option<string>, field: Option<string>): seq<string> {
    if id in entries && field in entries[id] then entries[id][field] else []
  }

  /** `entries[id][field].append(v)` on nested `defaultdict(list)`s. */
  function Append(entries: Entries, id: Option<string>, field: Option<string>, v: string): (r: Entries)
    ensures r.Keys == entries.Keys + {id}
    ensures Lookup(r, id, field) == Lookup(entries, id, field) + [v]
    ensures forall i, f :: (i, f) != (id, field) ==> Lookup(r, i, f) == Lookup(entries, i, f)
  {
    var rec := if id in entries then entries[id] else map[];
    var vals := if field in rec then rec[field] else [];
    entries[id := rec[field := vals + [v]]]
  }

  /** The parser's loop variables: the current KEGG id, the current field and
      the annotations so far. */
  datatype ParseState = ParseState(id: Option<string>, field: Option<string>, entries: Entries)

  const Start := ParseState(None, None, map[])

  /** The id an `ENTRY` line opens, if the line is one. */
  function EntryId(line: string): Option<string> {
    match MatchField(RStrip(line))
    case Some(FieldLine(Some(name), v)) => if name == "ENTRY" then Some(FirstToken(v)) else None
    case _ => None
  }

  /** One turn of the loop in `get_10_kegg_annotations`. A line that does not
      match resets the id and the field; a matching line sets the field to its
      name, which is `None` for a continuation line, an `ENTRY` line also sets
      the id, and the value is appended under the current id and field. */
  function Step(st: ParseState, line: string): ParseState {
    match MatchField(RStrip(line))
    case None => ParseState(None, None, st.entries)
    case Some(fl) =>
      var id := if EntryId(line).Some? then EntryId(line) else st.id;
      ParseState(id, fl.name, Append(st.entries, id, fl.name, fl.value))
  }

  /** The parser state after the given lines. */
  function Parse(lines: seq<string>): ParseState
    decreases |lines|
  {
    if |lines| == 0 then Start else Step(Parse(lines[..|lines| - 1]), lines[|lines| - 1])
  }

  /** The KEGG ids the `ENTRY` lines among `lines` open. */
  function EntryIds(lines: seq<string>): set<string>
    decreases |lines|
  {
    if |lines| == 0 then {}
    else
      var last := EntryId(lines[|lines| - 1]);
      EntryIds(lines[..|lines| - 1]) + (if last.Some? then {last.value} else {})
  }

  /** One line adds at most the id its `ENTRY` line opens, and keeps the
      current id among the stored keys. */
  lemma StepKeys(st: ParseState, line: string)
    requires st.id.Some? ==> st.id in st.entries
    ensures forall k :: Some(k) in Step(st, line).entries <==> Some(k) in st.entries || EntryId(line) == Some(k)
    ensures Step(st, line).id.Some? ==> Step(st, line).id in Step(st, line).entries
  {
  }

  /** The ids present in the parsed annotations are exactly those of the
      `ENTRY` lines, and the current id is always one of the stored keys. */
  lemma {:induction false} ParsedKeysAreEntryIds(lines: seq<string>)
    ensures forall k :: Some(k) in Parse(lines).entries <==> k in EntryIds(lines)
    ensures Parse(lines).id.Some? ==> Parse(lines).id in Parse(lines).entries
    decreases |lines|
  {
    if |lines| > 0 {
      var pre := lines[..|lines| - 1];
      ParsedKeysAreEntryIds(pre);
      StepKeys(Parse(pre), lines[|lines| - 1]);
    }
  }

  /** A continuation line (one that starts with whitespace) is appended under
      the `None` field of the current id, and leaves the field that was being
      read, such as PATHWAY or MODULE, as it was. */
  lemma ContinuationGoesUnderNone(st: ParseState, line: string)
    requires |RStrip(line)| > 0 && IsSpace(RStrip(line)[0])
    requires MatchField(RStrip(line)).Some?
    ensures Step(st, line).id == st.id && Step(st, line).field == None
    ensures Lookup(Step(st, line).entries, st.id, None)
      == Lookup(st.entries, st.id, None) + [MatchField(RStrip(line)).value.value]
    ensures forall f: Option<string> :: f.Some? ==> Lookup(Step(st, line).entries, st.id, f) == Lookup(st.entries, st.id, f)
  {
    IndentedLineHasNoName(RStrip(line));
  }

  /** A line that does not match, such as the `///` separator, adds no
      value: the annotations after it are those before it, and the next
      value is filed under no id until an `ENTRY` line comes. */
  lemma SeparatorAppendsNothing(lines: seq<string>, line: string)
    requires MatchField(RStrip(line)).None?
    ensures Parse(lines + [line]).entries == Parse(lines).entries
    ensures Parse(lines + [line]).id == None && Parse(lines + [line]).field == None
  {
    assert (lines + [line])[..|lines|] == lines;
  }

  /** The body of `get_10_kegg_annotations` after the status checks: the
      response is parsed line by line. */
  method ParseResponse(text: string) returns (entries: Entries)
    ensures entries == Parse(ReadLines(text)).entries
  {
    var lines := ReadLines(text);
    var keggId: Option<string> := None;
    var fieldName: Option<string> := None;
    entries := map[];
    var i := 0;
    while i < |lines|
      invariant 0 <= i <= |lines|
      invariant Parse(lines[..i]) == ParseState(keggId, fieldName, entries)
    {
      var line := lines[i];
      assert lines[..i + 1][..i] == lines[..i];
      match MatchField(RStrip(line)) {
        case None =>
          keggId := None;
          fieldName := None;
        case Some(fl) =>
          fieldName := fl.name;
          if fieldName == Some("ENTRY") {
            keggId := Some(FirstToken(fl.value));
          }
          entries := Append(entries, keggId, fieldName, fl.value);
      }
      i := i + 1;
    }
    assert lines[..i] == lines;
  }

  /** `'+'.join(['ko:{}'.format(k) for k in kegg_ids])` */
  function RequestPath(ids: seq<string>): string {
    Join(seq(|ids|, i requires 0 <= i < |ids| => "ko:" + ids[i]), "+")
  }

  function RequestUrl(ids: seq<string>): string {
    "http://rest.kegg.jp/get/" + RequestPath(ids)
  }

  /** The request path can be taken apart again: splitting it on `+` gives
      one `ko:`-prefixed id per requested id, in order (ids never contain `+`). */
  lemma {:induction false} RequestPathSplits(ids: seq<string>)
    requires |ids| > 0 && forall i :: 0 <= i < |ids| ==> '+' !in ids[i]
    ensures Split(RequestPath(ids), '+') == seq(|ids|, i requires 0 <= i < |ids| => "ko:" + ids[i])
    decreases |ids|
  {
    var parts := seq(|ids|, i requires 0 <= i < |ids| => "ko:" + ids[i]);
    assert '+' !in parts[0] by {
      forall j | 0 <= j < |parts[0]| ensures parts[0][j] != '+' {
        if j >= 3 { assert parts[0][j] == ids[0][j - 3]; }
      }
    }
    if |ids| == 1 {
      SplitNoSep(parts[0], '+');
    } else {
      var rest := seq(|ids| - 1, i requires 0 <= i < |ids| - 1 => "ko:" + ids[1..][i]);
      assert parts[1..] == rest;
      RequestPathSplits(ids[1..]);
      assert RequestPath(ids) == parts[0] + "+" + RequestPath(ids[1..]);
      SplitAppend(parts[0], '+', RequestPath(ids[1..]));
      assert parts == [parts[0]] + rest;
    }
  }

  /** Requested ids the annotations do not mention:
      `{k for k in kegg_ids} - {k for k in all_entries.keys()}`. */
  function BadIds(ids: seq<string>, entries: Entries): (bad: set<string>)
    ensures bad <= set k | k in ids
    ensures forall k :: k in bad ==> Some(k) !in entries
    ensures forall k :: k in ids ==> k in bad || Some(k) in entries
  {
    set k | k in ids && Some(k) !in entries
  }

  /** What one request for up to ten ids yields: 404 means no annotations and
      every id bad, any other status but 200 raises, 200 is parsed. */
  function Get10(ids: seq<string>, service: string -> Response): Result<(Entries, set<string>)> {
    var resp := service(RequestUrl(ids));
    if resp.status == 404 then Ok((map[], set k | k in ids))
    else if resp.status != 200 then Err("ERROR: response to \"" + RequestUrl(ids) + "\" is not 200")
    else
      var entries := Parse(ReadLines(resp.text)).entries;
      Ok((entries, BadIds(ids, entries)))
  }

  /** `get_10_kegg_annotations` */
  method Get10KeggAnnotations(ids: seq<string>, service: string -> Response)
    returns (r: Result<(Entries, set<string>)>)
    ensures r == Get10(ids, service)
    ensures service(RequestUrl(ids)).status == 404 ==> r == Ok((map[], set k | k in ids))
    ensures r.Err? <==> service(RequestUrl(ids)).status !in {200, 404}
    ensures r.Ok? ==> forall k :: k in r.value.1 <==> k in ids && Some(k) !in r.value.0
  {
    var resp := service(RequestUrl(ids));
    if resp.status == 404 {
      return Ok((map[], set k | k in ids));
    }
    if resp.status != 200 {
      return Err("ERROR: response to \"" + RequestUrl(ids) + "\" is not 200");
    }
    var entries := ParseResponse(resp.text);
    r := Ok((entries, BadIds(ids, entries)));
  }

  /** The merge in `get_kegg_annotations` over the given batches:
      `update` of the annotations (later batches win) and union of the bad
      ids; the first failing batch fails the whole call. */
  function FetchAll(batches: seq<seq<string>>, service: string -> Response): Result<(Entries, set<string>)>
    decreases |batches|
  {
    if |batches| == 0 then Ok((map[], {}))
    else
      match FetchAll(batches[..|batches| - 1], service)
      case Err(e) => Err(e)
      case Ok(acc) =>
        match Get10(batches[|batches| - 1], service)
        case Err(e) => Err(e)
        case Ok(x) => Ok((acc.0 + x.0, acc.1 + x.1))
  }

  /** The batches `get_kegg_annotations` requests: the sorted ids in groups of
      ten with the `None` padding dropped. */
  function RequestBatches(ids: seq<string>): seq<seq<string>> {
    Batches(Sort(ids), 10)
  }

  /** Every request carries between one and ten ids, and the requests together
      carry the sorted ids in order. */
  lemma RequestBatchesShape(ids: seq<string>)
    ensures forall b :: b in RequestBatches(ids) ==> 0 < |b| <= 10
    ensures Flatten(RequestBatches(ids)) == Sort(ids)
  {
    BatchesPartition(Sort(ids), 10);
  }

  /** A status that `get_10_kegg_annotations` raises on. */
  predicate BadStatus(ids: seq<string>, service: string -> Response) {
    service(RequestUrl(ids)).status !in {200, 404}
  }

  /** One request fails exactly on a bad status. */
  lemma Get10Fails(ids: seq<string>, service: string -> Response)
    ensures Get10(ids, service).Err? <==> BadStatus(ids, service)
  {
  }

  /** Some batch has a bad status exactly when one before the last does or
      the last does. */
  lemma SomeBadStatusSnoc(pre: seq<seq<string>>, last: seq<string>, service: string -> Response)
    ensures (exists i :: 0 <= i < |pre + [last]| && BadStatus((pre + [last])[i], service)) <==>
      (exists i :: 0 <= i < |pre| && BadStatus(pre[i], service)) || BadStatus(last, service)
  {
    var all := pre + [last];
    if exists i :: 0 <= i < |pre| && BadStatus(pre[i], service) {
      var i :| 0 <= i < |pre| && BadStatus(pre[i], service);
      assert all[i] == pre[i];
    }
    if BadStatus(last, service) {
      assert all[|pre|] == last;
    }
    if exists i :: 0 <= i < |all| && BadStatus(all[i], service) {
      var i :| 0 <= i < |all| && BadStatus(all[i], service);
      if i < |pre| {
        assert pre[i] == all[i];
      }
    }
  }

  /** The whole call fails exactly when some batch's status is neither 200
      nor 404. */
  lemma {:induction false} FetchAllFails(batches: seq<seq<string>>, service: string -> Response)
    ensures FetchAll(batches, service).Err? <==>
      exists i :: 0 <= i < |batches| && BadStatus(batches[i], service)
    decreases |batches|
  {
    if |batches| > 0 {
      var pre := batches[..|batches| - 1];
      var last := batches[|batches| - 1];
      FetchAllFails(pre, service);
      Get10Fails(last, service);
      SomeBadStatusSnoc(pre, last, service);
      assert batches == pre + [last];
      assert FetchAll(batches, service).Err? <==> FetchAll(pre, service).Err? || Get10(last, service).Err?;
    }
  }

  /** When the whole call succeeds, every requested id is either bad or
      annotated, and only requested ids are bad. */
  lemma {:induction false} FetchAllCovers(batches: seq<seq<string>>, service: string -> Response)
    ensures FetchAll(batches, service).Ok? ==>
      var res := FetchAll(batches, service).value;
      (forall i, k :: 0 <= i < |batches| && k in batches[i] ==> k in res.1 || Some(k) in res.0)
      && (forall k :: k in res.1 ==> exists i :: 0 <= i < |batches| && k in batches[i])
    decreases |batches|
  {
    if |batches| > 0 && FetchAll(batches, service).Ok? {
      var pre := batches[..|batches| - 1];
      var last := batches[|batches| - 1];
      assert FetchAll(pre, service).Ok?;
      FetchAllCovers(pre, service);
      var acc := FetchAll(pre, service).value;
      var x := Get10(last, service).value;
      var out := FetchAll(batches, service).value;
      forall i, k | 0 <= i < |batches| && k in batches[i] ensures k in out.1 || Some(k) in out.0 {
        if i < |pre| {
          assert pre[i] == batches[i];
        }
      }
      forall k | k in out.1 ensures exists i :: 0 <= i < |batches| && k in batches[i] {
        if k in acc.1 {
          var i :| 0 <= i < |pre| && k in pre[i];
          assert batches[i] == pre[i];
        } else {
          assert k in batches[|batches| - 1];
        }
      }
    }
  }

  /** A successful `get_kegg_annotations` accounts for every id it was
      given: each is bad or annotated, and every bad id is one of them. */
  lemma FetchedIdsAccounted(ids: seq<string>, service: string -> Response)
    ensures FetchAll(RequestBatches(ids), service).Ok? ==>
      var res := FetchAll(RequestBatches(ids), service).value;
      (forall k :: k in ids ==> k in res.1 || Some(k) in res.0)
      && (forall k :: k in res.1 ==> k in ids)
  {
    var batches := RequestBatches(ids);
    if FetchAll(batches, service).Ok? {
      var res := FetchAll(batches, service).value;
      FetchAllCovers(batches, service);
      RequestBatchesShape(ids);
      forall k | k in ids ensures k in res.1 || Some(k) in res.0 {
        assert k in multiset(Sort(ids));
        FlattenMember(batches, k);
      }
      forall k | k in res.1 ensures k in ids {
        FlattenMember(batches, k);
        assert k in multiset(Sort(ids));
      }
    }
  }

  /** `get_kegg_annotations`: one request per batch, merging the results. */
  method GetKeggAnnotations(ids: seq<string>, service: string -> Response)
    returns (r: Result<(Entries, set<string>)>)
    ensures r == FetchAll(RequestBatches(ids), service)
  {
    var batches := RequestBatches(ids);
    var all: Entries := map[];
    var bad: set<string> := {};
    var i := 0;
    while i < |batches|
      invariant 0 <= i <= |batches|
      invariant FetchAll(batches[..i], service) == Ok((all, bad))
    {
      assert batches[..i + 1][..i] == batches[..i];
      var res := Get10KeggAnnotations(batches[i], service);
      if res.Err? {
        assert FetchAll(batches[..i + 1], service).Err?;
        FetchAllErrExtends(batches, i + 1, service);
        assert batches[..|batches|] == batches;
        return res;
      }
      all := all + res.value.0;
      bad := bad + res.value.1;
      i := i + 1;
    }
    assert batches[..i] == batches;
    r := Ok((all, bad));
  }

  /** Once a prefix of the batches fails, every longer prefix fails with the
      same error. */
  lemma {:induction false} FetchAllErrExtends(batches: seq<seq<string>>, n: nat, service: string -> Response)
    requires n <= |batches| && FetchAll(batches[..n], service).Err?
    ensures FetchAll(batches, service) == FetchAll(batches[..n], service)
    decreases |batches| - n
  {
    if n < |batches| {
      assert batches[..n + 1][..n] == batches[..n];
      FetchAllErrExtends(batches, n + 1, service);
    } else {
      assert batches[..n] == batches;
    }
  }
}
