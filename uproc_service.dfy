/** The stateful part of imicrobe/load/uproc/load.py: the iMicrobe tables the
    loader writes, `UProCResultsService` with its accession-to-id cache and
    bad-accession set, and the per-sample loop of `load_annotations`. The
    database is an object whose fields are the tables; a session that ends
    normally commits, one that raises rolls back. */
module UProCService {
  import opened Wrappers
  import opened Strings
  import opened Groups
  import opened Kegg
  import opened UProCResults

  /** The tables `protein` (keyed by its unique accession) and
      `sample_to_protein`, and the next protein id the database hands out. */
  class ImicrobeDb {
    var proteins: map<string, Protein>
    var nextProteinId: nat
    var sampleToProtein: seq<SampleToProtein>

    ghost predicate Valid()
      reads this
    {
      ProteinsValid(proteins, nextProteinId)
    }

    constructor (proteins: map<string, Protein>, nextProteinId: nat, sampleToProtein: seq<SampleToProtein>)
      requires ProteinsValid(proteins, nextProteinId)
      ensures this.proteins == proteins && this.nextProteinId == nextProteinId
      ensures this.sampleToProtein == sampleToProtein
      ensures Valid()
    {
      this.proteins := proteins;
      this.nextProteinId := nextProteinId;
      this.sampleToProtein := sampleToProtein;
    }
  }

  /** The accessions a KEGG annotation map names (the `None` key is skipped). */
  function Named(anns: Entries): (r: set<string>)
    ensures forall a :: a in r <==> Some(a) in anns
  {
    set k | k in anns.Keys && k.Some? :: k.value
  }

  /** What `insert_kegg_annotations_for_sample` leaves behind for the
      accessions `named` of `anns`: each is a new protein row described by
      its KEGG entry, typed by its prefix and cached with its id; every other
      row and cache entry is as it was. */
  ghost predicate KeggInserted(oldProteins: map<string, Protein>, proteins: map<string, Protein>,
                               oldCache: map<string, nat>, cache: map<string, nat>,
                               anns: Entries, named: set<string>)
  {
    (forall a :: a in proteins <==> a in oldProteins || a in named)
    && (forall a :: a in named ==> a !in oldProteins)
    && (forall a :: a in oldProteins ==> proteins[a] == oldProteins[a])
    && (forall a :: a in named ==> Some(a) in anns && KeggDescription(anns[Some(a)]) == proteins[a].description)
    && (forall a :: a in named ==> GetProteinType(a) == Ok(proteins[a].kind))
    && (forall a :: a in cache <==> a in oldCache || a in named)
    && (forall a :: a in oldCache ==> cache[a] == oldCache[a])
    && (forall a :: a in named ==> cache[a] == proteins[a].id)
  }

  /** A failing line in the current group fails the whole load, in the
      way `PfamFailedAt` describes. */
  lemma PfamFailure(st: PfamState, lines: seq<string>, rows: seq<Result<PfamLine>>, g: nat, j: nat,
                    proteins: map<string, Protein>, nextId: nat, cache: map<string, nat>)
    requires rows == ParsePfamLines(lines)
    requires PfamGroupLength * g <= j < |rows| && j < PfamGroupLength * (g + 1)
    requires PfamApply(st, rows[..PfamGroupLength * g]).Ok?
    requires PfamApply(st, rows[..PfamGroupLength * g]).value.proteins == proteins
    requires PfamApply(st, rows[..PfamGroupLength * g]).value.nextId == nextId
    requires PfamApply(st, rows[..j]).Ok? && PfamApply(st, rows[..j]).value.cache == cache
    requires PfamApply(st, rows[..j + 1]).Err?
    ensures PfamFailedAt(st, rows, g, j, proteins, nextId, cache)
    ensures PfamLoad(st, lines).Err?
  {
    PfamLoadErrExtends(st, rows, j + 1);
  }

  /** `line_group_length` of `insert_pfam_annotations_from_file` */
  const PfamGroupLength := 2000

  /** The Pfam load of the unpacked `lines` failed at line `j` of group `g`
      (the lines from `2000 * g` on): the tables hold the load of the groups
      before it, which were committed, and the cache the load of the lines
      before `j`. */
  ghost predicate PfamFailedAt(st: PfamState, lines: seq<Result<PfamLine>>, g: nat, j: int,
                               proteins: map<string, Protein>, nextId: nat, cache: map<string, nat>)
  {
    PfamGroupLength * g <= j < |lines| && j < PfamGroupLength * (g + 1)
    && PfamApply(st, lines[..PfamGroupLength * g]).Ok?
    && PfamApply(st, lines[..PfamGroupLength * g]).value.proteins == proteins
    && PfamApply(st, lines[..PfamGroupLength * g]).value.nextId == nextId
    && PfamApply(st, lines[..j]).Ok? && PfamApply(st, lines[..j]).value.cache == cache
    && PfamApply(st, lines[..j + 1]).Err?
  }

  /** The invariant of the insert loop: the rows so far are valid, the
      cache agrees with them, and `named` has been inserted. */
  ghost predicate KeggLoop(oldProteins: map<string, Protein>, oldCache: map<string, nat>,
                           proteins: map<string, Protein>, nextId: nat, cache: map<string, nat>,
                           anns: Entries, named: set<string>)
  {
    ProteinsValid(proteins, nextId) && CacheAgrees(cache, proteins)
    && oldCache.Keys <= oldProteins.Keys
    && KeggInserted(oldProteins, proteins, oldCache, cache, anns, named)
  }

  /** One more inserted accession keeps the loop invariant. */
  lemma KeggLoopStep(oldProteins: map<string, Protein>, oldCache: map<string, nat>,
                     proteins: map<string, Protein>, nextId: nat, cache: map<string, nat>,
                     anns: Entries, named: set<string>, acc: string, d: Description, kind: ProteinType)
    requires KeggLoop(oldProteins, oldCache, proteins, nextId, cache, anns, named)
    requires acc !in proteins && Some(acc) in anns
    requires KeggDescription(anns[Some(acc)]) == d && GetProteinType(acc) == Ok(kind)
    ensures KeggLoop(oldProteins, oldCache, proteins[acc := Protein(nextId, d, kind)], nextId + 1,
                     cache[acc := nextId], anns, named + {acc})
  {
    AddProteinValid(proteins, nextId, acc, d, kind);
    CacheAgreesStep(cache, proteins, acc, Protein(nextId, d, kind));
    KeggInsertedStep(oldProteins, proteins, oldCache, cache, anns, named, acc, Protein(nextId, d, kind));
  }

  lemma CacheAgreesStep(cache: map<string, nat>, proteins: map<string, Protein>, acc: string, p: Protein)
    requires CacheAgrees(cache, proteins)
    ensures CacheAgrees(cache[acc := p.id], proteins[acc := p])
  {
  }

  lemma KeggInsertedStep(oldProteins: map<string, Protein>, proteins: map<string, Protein>,
                         oldCache: map<string, nat>, cache: map<string, nat>,
                         anns: Entries, named: set<string>, acc: string, p: Protein)
    requires KeggInserted(oldProteins, proteins, oldCache, cache, anns, named)
    requires acc !in proteins && Some(acc) in anns
    requires KeggDescription(anns[Some(acc)]) == p.description && GetProteinType(acc) == Ok(p.kind)
    requires oldCache.Keys <= oldProteins.Keys
    ensures KeggInserted(oldProteins, proteins[acc := p], oldCache, cache[acc := p.id], anns, named + {acc})
  {
  }

  /** `UProCResultsService` */
  class UProCResultsService {
    const db: ImicrobeDb
    var annotationDbIds: map<string, nat>
    var badAccessions: set<string>

    ghost predicate Valid()
      reads this, db
    {
      db.Valid() && CacheAgrees(annotationDbIds, db.proteins)
    }

    /** No accession is both cached and bad. */
    ghost predicate Disjoint()
      reads this
    {
      annotationDbIds.Keys !! badAccessions
    }

    /** `__init__`: the cache is seeded with every stored protein, the bad
        set starts empty. */
    constructor (db: ImicrobeDb)
      requires db.Valid()
      ensures this.db == db
      ensures annotationDbIds == map a | a in db.proteins :: db.proteins[a].id
      ensures badAccessions == {}
      ensures Valid() && Disjoint()
    {
      var cache: map<string, nat> := map[];
      var todo := db.proteins.Keys;
      while todo != {}
        invariant todo <= db.proteins.Keys
        invariant cache == map a | a in db.proteins.Keys - todo :: db.proteins[a].id
        decreases |todo|
      {
        var a :| a in todo;
        cache := cache[a := db.proteins[a].id];
        todo := todo - {a};
      }
      this.db := db;
      annotationDbIds := cache;
      badAccessions := {};
    }

    /** `count_uproc_results_for_sample` */
    function CountUprocResultsForSample(sampleId: string): nat
      reads db
    {
      CountForSample(db.sampleToProtein, sampleId)
    }

    /** The fetch half of `insert_kegg_annotations_for_sample`: the
        candidates neither cached nor bad are fetched, and on success the ids
        KEGG reports bad join the bad set. */
    method FetchMissing(candidates: seq<string>, service: string -> Response) returns (r: Result<Entries>)
      modifies this
      ensures var f := FetchAll(RequestBatches(ToFetch(candidates, old(annotationDbIds), old(badAccessions))), service);
        (r.Ok? <==> f.Ok?)
        && (r.Ok? ==> r.value == f.value.0 && badAccessions == old(badAccessions) + f.value.1)
      ensures r.Err? ==> badAccessions == old(badAccessions)
      ensures annotationDbIds == old(annotationDbIds)
    {
      var toFetch := ToFetch(candidates, annotationDbIds, badAccessions);
      var fetched := GetKeggAnnotations(toFetch, service);
      if fetched.Err? {
        return Err(fetched.msg);
      }
      badAccessions := badAccessions + fetched.value.1;
      r := Ok(fetched.value.0);
    }

    /** The insert half of `insert_kegg_annotations_for_sample`: one protein
        row per annotated accession, described by its KEGG entry, typed by its
        prefix and cached with its new id. An unknown prefix, or an accession
        already stored (the accession is the table's unique key), raises, and
        the rows go back to what they were (the cache keeps what was added). */
    method InsertFetched(anns: Entries) returns (r: Result<()>)
      requires Valid()
      modifies this, db
      ensures r.Ok? ==> KeggInserted(old(db.proteins), db.proteins, old(annotationDbIds), annotationDbIds, anns, Named(anns))
      ensures r.Ok? ==> Valid()
      ensures r.Err? ==> db.proteins == old(db.proteins) && db.nextProteinId == old(db.nextProteinId)
      ensures r.Err? ==> exists a :: a in Named(anns) && (GetProteinType(a).Err? || a in old(db.proteins))
      ensures badAccessions == old(badAccessions)
      ensures db.sampleToProtein == old(db.sampleToProtein)
    {
      var proteins := db.proteins;
      var nextId := db.nextProteinId;
      var todo := anns.Keys;
      ghost var named: set<string> := {};
      while todo != {}
        invariant todo <= anns.Keys
        invariant forall a :: a in named <==> Some(a) in anns.Keys - todo
        invariant KeggLoop(old(db.proteins), old(annotationDbIds), proteins, nextId, annotationDbIds, anns, named)
        invariant db.proteins == old(db.proteins) && db.nextProteinId == old(db.nextProteinId)
        invariant db.sampleToProtein == old(db.sampleToProtein)
        invariant badAccessions == old(badAccessions)
        decreases |todo|
      {
        var k :| k in todo;
        todo := todo - {k};
        if k.Some? {
          var acc := k.value;
          var desc := KeggDescription(anns[k]);
          var kind := GetProteinType(acc);
          if kind.Err? {
            assert acc in Named(anns);
            return Err(kind.msg);
          }
          if acc in proteins {
            assert acc !in named;
            assert acc in Named(anns) && acc in old(db.proteins);
            return Err("duplicate accession \"" + acc + "\"");
          }
          KeggLoopStep(old(db.proteins), old(annotationDbIds), proteins, nextId, annotationDbIds, anns, named,
                       acc, desc, kind.value);
          proteins := proteins[acc := Protein(nextId, desc, kind.value)];
          annotationDbIds := annotationDbIds[acc := nextId];
          nextId := nextId + 1;
          named := named + {acc};
        }
      }
      assert named == Named(anns);
      db.proteins := proteins;
      db.nextProteinId := nextId;
      r := Ok(());
    }

    /** `insert_kegg_annotations_for_sample`: fetch the candidates neither
        cached nor bad, add the ids KEGG reports bad to the bad set, then
        insert one protein row per fetched accession and cache its id. A
        failed fetch changes nothing; a failure while inserting rolls the
        rows back (the bad set and the cache keep what was added). */
    method InsertKeggAnnotationsForSample(candidates: seq<string>, service: string -> Response)
      returns (r: Result<()>)
      requires Valid()
      modifies this, db
      ensures var f := FetchAll(RequestBatches(ToFetch(candidates, old(annotationDbIds), old(badAccessions))), service);
        f.Err? ==> r.Err? && badAccessions == old(badAccessions) && annotationDbIds == old(annotationDbIds)
      ensures var f := FetchAll(RequestBatches(ToFetch(candidates, old(annotationDbIds), old(badAccessions))), service);
        r.Ok? ==> (f.Ok? && badAccessions == old(badAccessions) + f.value.1
          && KeggInserted(old(db.proteins), db.proteins, old(annotationDbIds), annotationDbIds, f.value.0, Named(f.value.0)))
      ensures var f := FetchAll(RequestBatches(ToFetch(candidates, old(annotationDbIds), old(badAccessions))), service);
        r.Ok? && old(Disjoint()) && f.Ok? && Named(f.value.0) !! f.value.1 && Named(f.value.0) !! old(badAccessions) ==> Disjoint()
      ensures r.Ok? ==> Valid()
      ensures r.Err? ==> db.proteins == old(db.proteins) && db.nextProteinId == old(db.nextProteinId)
      ensures db.sampleToProtein == old(db.sampleToProtein)
    {
      FetchedIdsAccounted(ToFetch(candidates, annotationDbIds, badAccessions), service);
      var anns := FetchMissing(candidates, service);
      if anns.Err? {
        return Err(anns.msg);
      }
      r := InsertFetched(anns.value);
    }

    /** `insert_pfam_annotations_from_file`: the lines in groups of 2000, one
        commit per group. On success the tables and the cache are the Pfam
        load of all the lines; on failure at line `j` the tables hold the
        load of the groups before the failing one, and the cache the load of
        the lines before `j`. */
    method InsertPfamAnnotationsFromFile(lines: seq<string>) returns (r: Result<()>)
      requires Valid()
      modifies this, db
      ensures var st := PfamState(old(db.proteins), old(db.nextProteinId), old(annotationDbIds));
        (r.Ok? <==> PfamLoad(st, lines).Ok?)
        && (r.Ok? ==> PfamLoad(st, lines).value == PfamState(db.proteins, db.nextProteinId, annotationDbIds))
        && (r.Err? ==> exists g, j :: PfamFailedAt(st, ParsePfamLines(lines), g, j, db.proteins, db.nextProteinId, annotationDbIds))
      ensures r.Ok? ==> Valid()
      ensures badAccessions == old(badAccessions)
      ensures db.sampleToProtein == old(db.sampleToProtein)
    {
      ghost var st := PfamState(db.proteins, db.nextProteinId, annotationDbIds);
      ghost var rows := ParsePfamLines(lines);
      var start := 0;
      ghost var g: nat := 0;
      while start < |lines|
        invariant start <= |lines| && (start == |lines| || start == PfamGroupLength * g)
        invariant PfamApply(st, rows[..start]) == Ok(PfamState(db.proteins, db.nextProteinId, annotationDbIds))
        invariant badAccessions == old(badAccessions)
        invariant db.sampleToProtein == old(db.sampleToProtein)
        decreases |lines| - start
      {
        var end := if start + PfamGroupLength < |lines| then start + PfamGroupLength else |lines|;
        var group, j := LoadPfamGroup(st, lines, rows, start, end, PfamState(db.proteins, db.nextProteinId, annotationDbIds));
        if group.Err? {
          PfamFailure(st, lines, rows, g, j, db.proteins, db.nextProteinId, annotationDbIds);
          return Err(group.msg);
        }
        // commit
        db.proteins := group.value.proteins;
        db.nextProteinId := group.value.nextId;
        start := end;
        g := g + 1;
      }
      assert rows[..start] == rows;
      PfamLoadValid(st, rows);
      r := Ok(());
    }

    /** One group of `insert_pfam_annotations_from_file`: the lines from
        `start` up to `end` are loaded one by one from `cur`, the cache
        following every line. On failure `j` is the failing line, and the
        cache holds the load of the lines before it. */
    method LoadPfamGroup(ghost st: PfamState, lines: seq<string>, ghost rows: seq<Result<PfamLine>>,
                         start: nat, end: nat, cur: PfamState)
      returns (r: Result<PfamState>, ghost j: nat)
      requires start <= end <= |lines| && rows == ParsePfamLines(lines)
      requires PfamApply(st, rows[..start]) == Ok(cur) && annotationDbIds == cur.cache
      modifies this
      ensures badAccessions == old(badAccessions)
      ensures r.Ok? ==> PfamApply(st, rows[..end]) == Ok(r.value) && annotationDbIds == r.value.cache
      ensures r.Err? ==> (start <= j < end && PfamApply(st, rows[..j]).Ok?
        && PfamApply(st, rows[..j]).value.cache == annotationDbIds
        && PfamApply(st, rows[..j + 1]).Err?)
    {
      var state := cur;
      j := start;
      var i := start;
      while i < end
        invariant start <= i <= end && j == i
        invariant PfamApply(st, rows[..i]) == Ok(state)
        invariant annotationDbIds == state.cache
        invariant badAccessions == old(badAccessions)
        decreases end - i
      {
        var step := LoadPfamLine(st, lines, rows, i, state);
        if step.Err? {
          return Err(step.msg), i;
        }
        state := step.value;
        i := i + 1;
        j := i;
      }
      r := Ok(state);
    }

    /** One line of `insert_pfam_annotations_from_file`: `line.strip().split('\t')`
        unpacked, the row inserted unless stored, and the accession cached. */
    method LoadPfamLine(ghost st: PfamState, lines: seq<string>, ghost rows: seq<Result<PfamLine>>,
                        i: nat, cur: PfamState)
      returns (r: Result<PfamState>)
      requires i < |lines| && rows == ParsePfamLines(lines)
      requires PfamApply(st, rows[..i]) == Ok(cur)
      modifies this
      ensures r == PfamApply(st, rows[..i + 1])
      ensures r.Ok? ==> annotationDbIds == r.value.cache
      ensures r.Err? ==> annotationDbIds == old(annotationDbIds)
      ensures badAccessions == old(badAccessions)
    {
      var parsed := ParsePfamLine(lines[i]);
      assert parsed == rows[i] by {
        ParsePfamLinesAt(lines, i);
      }
      PfamLoadNext(st, rows, i, cur);
      r := PfamStep(cur, parsed);
      if r.Ok? {
        annotationDbIds := r.value.cache;
      }
    }

    /** `insert_uproc_results_for_sample`: one `sample_to_protein` row per
        result whose accession is cached; every other accession becomes bad.
        Proteins and the cache are untouched. */
    method InsertUprocResultsForSample(sampleId: string, results: seq<(string, nat)>)
      requires Valid()
      modifies this, db
      ensures db.sampleToProtein == old(db.sampleToProtein) + AssociationRows(sampleId, results, annotationDbIds)
      ensures badAccessions == old(badAccessions) + UnknownAccessions(results, annotationDbIds)
      ensures annotationDbIds == old(annotationDbIds)
      ensures db.proteins == old(db.proteins) && db.nextProteinId == old(db.nextProteinId)
      ensures Valid()
      ensures old(Disjoint()) ==> Disjoint()
    {
      var i := 0;
      while i < |results|
        invariant i <= |results|
        invariant db.sampleToProtein == old(db.sampleToProtein) + AssociationRows(sampleId, results[..i], annotationDbIds)
        invariant badAccessions == old(badAccessions) + UnknownAccessions(results[..i], annotationDbIds)
        invariant annotationDbIds == old(annotationDbIds)
        invariant db.proteins == old(db.proteins) && db.nextProteinId == old(db.nextProteinId)
        decreases |results| - i
      {
        var (accession, readCount) := results[i];
        assert results[..i + 1][..i] == results[..i];
        assert UnknownAccessions(results[..i + 1], annotationDbIds)
          == UnknownAccessions(results[..i], annotationDbIds) + (if accession in annotationDbIds then {} else {accession}) by {
          var p := results[..i + 1];
          forall a | a in UnknownAccessions(p, annotationDbIds)
            ensures a in UnknownAccessions(results[..i], annotationDbIds) || a == accession
          {
            var k :| 0 <= k < |p| && p[k].0 !in annotationDbIds && p[k].0 == a;
            if k < i { assert p[k] == results[..i][k]; }
          }
          forall a | a in UnknownAccessions(results[..i], annotationDbIds)
            ensures a in UnknownAccessions(p, annotationDbIds)
          {
            var k :| 0 <= k < i && results[..i][k].0 !in annotationDbIds && results[..i][k].0 == a;
            assert p[k] == results[..i][k];
          }
          if accession !in annotationDbIds {
            assert p[i].0 == accession;
          }
        }
        if accession in annotationDbIds {
          var proteinId := annotationDbIds[accession];
          db.sampleToProtein := db.sampleToProtein + [SampleToProtein(sampleId, proteinId, "UProC", readCount)];
        } else {
          badAccessions := badAccessions + {accession};
        }
        i := i + 1;
      }
      assert results[..i] == results;
    }

    /** One sample of `load_annotations`. Without a non-empty results file
        the sample is skipped; with rows already loaded it is skipped too,
        with no fetch and no insert; otherwise its files are parsed and
        combined, the `K` accessions are fetched from KEGG, and one row per
        cached accession is inserted. */
    method LoadSample(sample: SampleCollection, service: string -> Response) returns (r: Result<SampleOutcome>)
      requires Valid()
      modifies this, db
      ensures |ResultsObjects(sample.objects)| == 0 ==>
        r == Ok(NoResults) && unchanged(this) && unchanged(db)
      ensures |ResultsObjects(sample.objects)| > 0 && old(CountUprocResultsForSample(sample.name)) > 0 ==>
        r == Ok(AlreadyLoaded) && unchanged(this) && unchanged(db)
      ensures r.Ok? && r.value.Loaded? ==>
        ParseAllResults(ResultsObjects(sample.objects)).Ok?
        && LoadedRows(old(db.sampleToProtein), db.sampleToProtein, sample.name,
                      Combine(ParseAllResults(ResultsObjects(sample.objects)).value), annotationDbIds)
        && r.value.count == CountUprocResultsForSample(sample.name)
      ensures r.Ok? ==> (r.value == NoResults <==> |ResultsObjects(sample.objects)| == 0)
      ensures r == Ok(AlreadyLoaded) ==> CountUprocResultsForSample(sample.name) > 0
      ensures RowsExtend(old(db.sampleToProtein), db.sampleToProtein)
      ensures r.Ok? ==> Valid()
    {
      var objects := ResultsObjects(sample.objects);
      if |objects| == 0 {
        return Ok(NoResults);
      }
      if CountUprocResultsForSample(sample.name) > 0 {
        return Ok(AlreadyLoaded);
      }
      var parsed := ParseAllResults(objects);
      if parsed.Err? {
        return Err(parsed.msg);
      }
      var count := LoadCombined(sample.name, Combine(parsed.value), service);
      if count.Err? {
        return Err(count.msg);
      }
      r := Ok(Loaded(count.value));
    }

    /** The loading half of `load_annotations` for one sample: the combined
        counts in decreasing order, the KEGG annotations of their `K`
        accessions, then one association row per known accession. */
    method LoadCombined(sampleId: string, combined: CountTable, service: string -> Response)
      returns (r: Result<nat>)
      requires Valid()
      modifies this, db
      ensures r.Ok? ==>
        LoadedRows(old(db.sampleToProtein), db.sampleToProtein, sampleId, combined, annotationDbIds)
        && r.value == CountUprocResultsForSample(sampleId)
        && Valid()
      ensures r.Err? ==> db.sampleToProtein == old(db.sampleToProtein)
    {
      var order := SortByReadCount(combined);
      var fetched := InsertKeggAnnotationsForSample(KeggAccessions(order), service);
      if fetched.Err? {
        return Err(fetched.msg);
      }
      var results := seq(|order|, i requires 0 <= i < |order| && order[i] in combined => (order[i], combined[order[i]]));
      ghost var before := db.sampleToProtein;
      InsertUprocResultsForSample(sampleId, results);
      LoadedRowsHold(before, sampleId, order, combined, annotationDbIds, results);
      r := Ok(CountUprocResultsForSample(sampleId));
    }
  }

  /** A data object of a sample collection: its name, size and text. */
  datatype DataObject = DataObject(name: string, size: nat, text: string)

  /** A sample collection: its name (the sample id) and its data objects. */
  datatype SampleCollection = SampleCollection(name: string, objects: seq<DataObject>)

  /** What `load_annotations` does with one sample. */
  datatype SampleOutcome = NoResults | AlreadyLoaded | Loaded(count: nat)

  /** The sample's UProC results: objects whose name passes the results
      name test and whose size is not 0, in order. */
  function ResultsObjects(objects: seq<DataObject>): (r: seq<DataObject>)
    ensures forall o :: o in r <==> o in objects && IsUprocResultsName(o.name) && o.size != 0
    decreases |objects|
  {
    if |objects| == 0 then []
    else
      var rest := ResultsObjects(objects[1..]);
      assert forall o :: o in objects <==> o == objects[0] || o in objects[1..];
      if IsUprocResultsName(objects[0].name) && objects[0].size != 0 then [objects[0]] + rest else rest
  }

  /** `parse_uproc_results` on each object; the first failure ends the load. */
  function ParseAllResults(objects: seq<DataObject>): (r: Result<seq<CountTable>>)
    ensures r.Ok? ==> |r.value| == |objects|
    ensures r.Ok? ==> forall i :: 0 <= i < |objects| ==> ParseUprocResults(objects[i].text) == Ok(r.value[i])
    ensures r.Err? ==> exists i :: 0 <= i < |objects| && ParseUprocResults(objects[i].text).Err?
  {
    MapAll(objects, (o: DataObject) => ParseUprocResults(o.text))
  }

  /** `combined_df[[accession.startswith('K') for accession in combined_df.index]]` */
  function KeggAccessions(order: seq<string>): (r: seq<string>)
    ensures forall a :: a in r <==> a in order && StartsWith(a, "K")
    decreases |order|
  {
    if |order| == 0 then []
    else
      var rest := KeggAccessions(order[1..]);
      assert forall a :: a in order <==> a == order[0] || a in order[1..];
      if StartsWith(order[0], "K") then [order[0]] + rest else rest
  }

  /** An accession of `todo` with the largest read count. */
  lemma {:induction false} MaxOf(table: CountTable, todo: set<string>) returns (m: string)
    requires todo != {} && todo <= table.Keys
    ensures m in todo && forall a :: a in todo ==> table[a] <= table[m]
    decreases |todo|
  {
    var x :| x in todo;
    if todo - {x} == {} {
      m := x;
      assert todo == {x};
    } else {
      var y := MaxOf(table, todo - {x});
      m := if table[x] > table[y] then x else y;
    }
  }

  /** `combined_df.sort_values(by='read_count', ascending=False)`: every
      accession once, largest read count first. The order among equal counts
      is not fixed (the sort is not stable), and neither is it here. */
  method SortByReadCount(table: CountTable) returns (order: seq<string>)
    ensures forall a :: a in order <==> a in table
    ensures forall i, j :: 0 <= i < j < |order| ==> order[i] != order[j]
    ensures forall i, j :: 0 <= i < j < |order| ==> table[order[i]] >= table[order[j]]
  {
    order := [];
    var todo := table.Keys;
    while todo != {}
      invariant todo <= table.Keys
      invariant forall a :: a in order <==> a in table && a !in todo
      invariant forall i, j :: 0 <= i < j < |order| ==> order[i] != order[j]
      invariant forall i, j :: 0 <= i < j < |order| ==> table[order[i]] >= table[order[j]]
      invariant forall i, a :: 0 <= i < |order| && a in todo ==> table[order[i]] >= table[a]
      decreases |todo|
    {
      ghost var top := MaxOf(table, todo);
      var m :| m in todo && forall a :: a in todo ==> table[a] <= table[m];
      order := order + [m];
      todo := todo - {m};
    }
  }

  /** The rows a loaded sample gains: appended after the old rows, one per
      combined accession the cache knows, carrying the cached id and the
      summed read count, and no other. */
  ghost predicate LoadedRows(oldRows: seq<SampleToProtein>, rows: seq<SampleToProtein>, sampleId: string,
                             combined: CountTable, cache: map<string, nat>)
  {
    |oldRows| <= |rows| && rows[..|oldRows|] == oldRows
    && (forall a :: a in combined && a in cache ==>
          SampleToProtein(sampleId, cache[a], "UProC", combined[a]) in rows[|oldRows|..])
    && (forall row :: row in rows[|oldRows|..] ==>
          exists a :: a in combined && a in cache && row == SampleToProtein(sampleId, cache[a], "UProC", combined[a]))
  }

  lemma LoadedRowsHold(before: seq<SampleToProtein>, sampleId: string, order: seq<string>,
                       combined: CountTable, cache: map<string, nat>, results: seq<(string, nat)>)
    requires forall a :: a in order <==> a in combined
    requires |results| == |order| && forall i :: 0 <= i < |order| ==> results[i] == (order[i], combined[order[i]])
    ensures LoadedRows(before, before + AssociationRows(sampleId, results, cache), sampleId, combined, cache)
  {
    var rows := before + AssociationRows(sampleId, results, cache);
    assert rows[..|before|] == before;
    assert rows[|before|..] == AssociationRows(sampleId, results, cache);
    AssociationRowsExact(sampleId, results, cache);
    forall a | a in combined && a in cache
      ensures SampleToProtein(sampleId, cache[a], "UProC", combined[a]) in rows[|before|..]
    {
      var i :| 0 <= i < |order| && order[i] == a;
      assert results[i].0 == a;
    }
  }

  /** Rows are only ever appended: `oldRows` is a prefix of `rows`. */
  ghost predicate RowsExtend(oldRows: seq<SampleToProtein>, rows: seq<SampleToProtein>) {
    |oldRows| <= |rows| && rows[..|oldRows|] == oldRows
  }

  /** Appending rows never lowers a sample's count. */
  lemma CountExtends(oldRows: seq<SampleToProtein>, rows: seq<SampleToProtein>)
    requires RowsExtend(oldRows, rows)
    ensures forall s :: CountForSample(oldRows, s) <= CountForSample(rows, s)
  {
    assert rows == oldRows + rows[|oldRows|..];
    forall s ensures CountForSample(oldRows, s) <= CountForSample(rows, s) {
      CountForSampleAppend(oldRows, rows[|oldRows|..], s);
    }
  }

  lemma RowsExtendTrans(a: seq<SampleToProtein>, b: seq<SampleToProtein>, c: seq<SampleToProtein>)
    requires RowsExtend(a, b) && RowsExtend(b, c)
    ensures RowsExtend(a, c)
  {
    assert c[..|a|] == c[..|b|][..|a|];
  }

  /** What the outcomes so far say about the samples they belong to, in
      the table `rows`: a sample skipped for lack of results has no
      non-empty results file, one found already loaded has rows, and one
      loaded with count `c` has at least `c` rows. */
  ghost predicate OutcomesHold(rows: seq<SampleToProtein>, samples: seq<SampleCollection>, outcomes: seq<SampleOutcome>)
    requires |outcomes| <= |samples|
  {
    forall k :: 0 <= k < |outcomes| ==>
      && (outcomes[k] == NoResults <==> |ResultsObjects(samples[k].objects)| == 0)
      && (outcomes[k] == AlreadyLoaded ==> CountForSample(rows, samples[k].name) > 0)
      && (outcomes[k].Loaded? ==> CountForSample(rows, samples[k].name) >= outcomes[k].count)
  }

  /** One more sample's outcome, after rows were appended for it. */
  lemma OutcomesHoldStep(before: seq<SampleToProtein>, rows: seq<SampleToProtein>, samples: seq<SampleCollection>,
                         outcomes: seq<SampleOutcome>, o: SampleOutcome)
    requires |outcomes| < |samples| && OutcomesHold(before, samples, outcomes) && RowsExtend(before, rows)
    requires o == NoResults <==> |ResultsObjects(samples[|outcomes|].objects)| == 0
    requires o == AlreadyLoaded ==> CountForSample(rows, samples[|outcomes|].name) > 0
    requires o.Loaded? ==> CountForSample(rows, samples[|outcomes|].name) >= o.count
    ensures OutcomesHold(rows, samples, outcomes + [o])
  {
    CountExtends(before, rows);
  }

  /** `load_annotations`: the service is built over the database, the Pfam-A
      lines are loaded, then every sample of every project is handled in turn
      (`sample_limit` is applied when the collections are listed, before this
      loop). Each outcome says what happened to its sample, and a sample is
      skipped for lack of results exactly when it has no non-empty results
      file. Rows of `sample_to_protein` are only appended; at the end a
      sample found already loaded still has rows, and a sample loaded with
      count `c` has at least those `c` rows. */
  method LoadAnnotations(db: ImicrobeDb, pfamLines: seq<string>, projects: seq<seq<SampleCollection>>,
                         service: string -> Response)
    returns (r: Result<seq<SampleOutcome>>)
    requires db.Valid()
    modifies db
    ensures r.Ok? ==> |r.value| == |Flatten(projects)|
    ensures r.Ok? ==> RowsExtend(old(db.sampleToProtein), db.sampleToProtein)
    ensures r.Ok? ==> OutcomesHold(db.sampleToProtein, Flatten(projects), r.value)
  {
    var svc := new UProCResultsService(db);
    var pfam := svc.InsertPfamAnnotationsFromFile(pfamLines);
    if pfam.Err? {
      return Err(pfam.msg);
    }
    var samples := Flatten(projects);
    var outcomes: seq<SampleOutcome> := [];
    assert db.sampleToProtein[..|old(db.sampleToProtein)|] == old(db.sampleToProtein);
    var i := 0;
    while i < |samples|
      invariant i <= |samples| && |outcomes| == i
      invariant svc.Valid() && svc.db == db && fresh(svc)
      invariant RowsExtend(old(db.sampleToProtein), db.sampleToProtein)
      invariant OutcomesHold(db.sampleToProtein, samples, outcomes)
      decreases |samples| - i
    {
      ghost var before := db.sampleToProtein;
      var outcome := svc.LoadSample(samples[i], service);
      if outcome.Err? {
        return Err(outcome.msg);
      }
      OutcomesHoldStep(before, db.sampleToProtein, samples, outcomes, outcome.value);
      RowsExtendTrans(old(db.sampleToProtein), before, db.sampleToProtein);
      outcomes := outcomes + [outcome.value];
      i := i + 1;
    }
    assert i == |samples|;
    r := Ok(outcomes);
  }
}
