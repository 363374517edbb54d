/** imicrobe/write/metadata_files/write_metadata_files.py: choose, for every
    sample document of the iMicrobe Mongo database, the sequence file its
    metadata file goes beside, and work out which metadata files are not yet
    in iRODS. The database cursor is a sequence of samples; the iRODS store
    is its sets of collections and data objects. */
module MetadataFiles {
  import opened Wrappers
  import opened Strings
  import opened Groups

  /** A sample document: its id and, when it has one, its `specimen__file`
      field. The other fields are carried along untouched and are not
      modelled. */
  datatype Sample = Sample(id: string, specimenFile: Option<string>)

  /** The endings `\.(fa|fna|fasta|fastq)(\.tar)?(\.gz)?` can match. */
  const SequenceSuffixes: set<string> := {
    ".fa", ".fa.tar", ".fa.gz", ".fa.tar.gz",
    ".fna", ".fna.tar", ".fna.gz", ".fna.tar.gz",
    ".fasta", ".fasta.tar", ".fasta.gz", ".fasta.tar.gz",
    ".fastq", ".fastq.tar", ".fastq.gz", ".fastq.tar.gz"
  }

  /** `sequence_file_extensions.search(fp)` tried from position `k` on: the
      leftmost position where the rest of `fp` is a sequence-file ending.
      The pattern ends in `$`; paths come from `split()`, so they hold no
      newline for `$` to match before. */
  function SearchFrom(fp: string, k: nat): (r: Option<nat>)
    requires k <= |fp|
    ensures r.Some? ==> k <= r.value <= |fp| && fp[r.value..] in SequenceSuffixes
    ensures forall j :: k <= j <= |fp| && (r.None? || j < r.value) ==> fp[j..] !in SequenceSuffixes
    decreases |fp| - k
  {
    if fp[k..] in SequenceSuffixes then Some(k)
    else if k == |fp| then None
    else SearchFrom(fp, k + 1)
  }

  /** Where the match of `sequence_file_extensions.search(fp)` starts, if
      there is one. */
  function Search(fp: string): Option<nat> {
    SearchFrom(fp, 0)
  }

  /** The test of the loop over specimen paths: an iRODS path (not an ftp
      one) with a sequence-file ending. Line 51 of the script lacks the
      colon after its condition; this is the test the branches evidently
      mean. */
  predicate Qualifies(fp: string) {
    StartsWith(fp, "/iplant/") && Search(fp).Some?
  }

  /** `sequence_file_extensions.sub('.json', fp)`: the anchored pattern
      matches at most once, so the leftmost matching ending is replaced. */
  function MetadataPath(fp: string): string {
    match Search(fp)
    case None => fp
    case Some(k) => fp[..k] + ".json"
  }

  /** Every sequence-file ending starts with a dot. */
  lemma SuffixStartsWithDot(s: string)
    requires s in SequenceSuffixes
    ensures |s| > 0 && s[0] == '.'
  {
  }

  /** The metadata file of a qualifying path is a `.json` file in the same
      iRODS tree, and it is what is left of the path before its ending. */
  lemma MetadataPathShape(fp: string)
    requires Qualifies(fp)
    ensures var m := MetadataPath(fp);
      && StartsWith(m, "/iplant/") && EndsWith(m, ".json")
      && m[..|m| - 5] + fp[|m| - 5..] == fp
      && fp[|m| - 5..] in SequenceSuffixes
  {
    var k := Search(fp).value;
    MatchAfterRoot(fp);
    var m := MetadataPath(fp);
    assert m == fp[..k] + ".json";
    assert m[..|m| - 5] == fp[..k];
    assert m[..8] == fp[..k][..8];
  }

  /** The `/iplant/` prefix holds no dot, so the ending matched in a
      qualifying path starts after it. */
  lemma MatchAfterRoot(fp: string)
    requires Qualifies(fp)
    ensures 8 <= Search(fp).value
  {
    var k := Search(fp).value;
    SuffixStartsWithDot(fp[k..]);
    assert fp[k] == '.';
    assert forall j :: 0 <= j < 8 ==> fp[j] == "/iplant/"[j] != '.';
  }

  /** All sequence files of one dot-free stem share one metadata file:
      `x.fa` and `x.fastq.gz` both map to `x.json`. */
  lemma StemSharesMetadataPath(stem: string, suffix: string)
    requires suffix in SequenceSuffixes
    requires forall i :: 0 <= i < |stem| ==> stem[i] != '.'
    ensures MetadataPath(stem + suffix) == stem + ".json"
  {
    var fp := stem + suffix;
    assert fp[|stem|..] == suffix;
    forall j | 0 <= j < |stem|
      ensures fp[j..] !in SequenceSuffixes
    {
      assert fp[j..][0] == stem[j];
      if fp[j..] in SequenceSuffixes {
        SuffixStartsWithDot(fp[j..]);
      }
    }
    assert Search(fp) == Some(|stem|);
    assert fp[..|stem|] == stem;
  }

  /** Index of the first qualifying path: the one the loop over
      `specimen_files` chooses before its `break`. */
  function FirstQualifying(paths: seq<string>): (r: Option<nat>)
    ensures r.Some? ==> r.value < |paths| && Qualifies(paths[r.value])
    ensures forall j :: 0 <= j < |paths| && (r.None? || j < r.value) ==> !Qualifies(paths[j])
    decreases |paths|
  {
    if |paths| == 0 then None
    else if Qualifies(paths[0]) then Some(0)
    else
      match FirstQualifying(paths[1..])
      case None => None
      case Some(i) => Some(i + 1)
  }

  /** The loop over the whitespace-separated specimen paths, stopping at
      the first qualifying one. */
  method FindFasta(paths: seq<string>) returns (found: Option<nat>)
    ensures found == FirstQualifying(paths)
  {
    found := None;
    var i := 0;
    while i < |paths|
      invariant i <= |paths|
      invariant forall j :: 0 <= j < i ==> !Qualifies(paths[j])
    {
      if !StartsWith(paths[i], "/iplant/") {
        // an ftp path is skipped
      } else if Search(paths[i]).None? {
        // not a sequence file
      } else {
        found := Some(i);
        return;
      }
      i := i + 1;
    }
  }

  /** Where a sample ends up. */
  datatype Outcome = Chosen(metadataPath: string) | NoSpecimenFile | NoFasta

  /** The outcome of one sample: without a `specimen__file` it is listed as
      such; otherwise the first qualifying path picks its metadata file, and
      with none it is listed as missing a FASTA file. */
  function Classify(s: Sample): Outcome {
    match s.specimenFile
    case None => NoSpecimenFile
    case Some(text) =>
      var paths := SplitWhitespace(text);
      match FirstQualifying(paths)
      case None => NoFasta
      case Some(i) => Chosen(MetadataPath(paths[i]))
  }

  /** A chosen metadata file lies in the iRODS tree and is a `.json` file;
      it belongs to a qualifying path of the sample, and no path before
      that one qualifies. */
  lemma ClassifyChosen(s: Sample)
    requires Classify(s).Chosen?
    ensures StartsWith(Classify(s).metadataPath, "/iplant/") && EndsWith(Classify(s).metadataPath, ".json")
    ensures s.specimenFile.Some?
    ensures exists i :: (0 <= i < |SplitWhitespace(s.specimenFile.value)|
      && Qualifies(SplitWhitespace(s.specimenFile.value)[i])
      && Classify(s).metadataPath == MetadataPath(SplitWhitespace(s.specimenFile.value)[i])
      && forall j :: 0 <= j < i ==> !Qualifies(SplitWhitespace(s.specimenFile.value)[j]))
  {
    var paths := SplitWhitespace(s.specimenFile.value);
    var i := FirstQualifying(paths).value;
    MetadataPathShape(paths[i]);
  }

  /** A sample lacks a FASTA file exactly when it has a `specimen__file` in
      which no path qualifies. */
  lemma ClassifyNoFasta(s: Sample)
    ensures Classify(s).NoFasta? <==>
      s.specimenFile.Some? && forall j :: 0 <= j < |SplitWhitespace(s.specimenFile.value)| ==>
        !Qualifies(SplitWhitespace(s.specimenFile.value)[j])
  {
    if s.specimenFile.Some? {
      var paths := SplitWhitespace(s.specimenFile.value);
      match FirstQualifying(paths)
      case None =>
      case Some(i) =>
        assert Classify(s) == Chosen(MetadataPath(paths[i]));
        assert Qualifies(paths[i]);
    }
  }

  /** What the loop over the samples gathers: `samples`, keyed by metadata
      path, and the two lists of samples set aside. */
  datatype Found = Found(samples: map<string, Sample>, missingSpecimen: seq<Sample>, missingFasta: seq<Sample>)

  /** The gathering over a run of samples, one sample after the other. */
  function Collect(ss: seq<Sample>): Found
    decreases |ss|
  {
    if |ss| == 0 then Found(map[], [], [])
    else
      var f := Collect(ss[..|ss| - 1]);
      var s := ss[|ss| - 1];
      match Classify(s)
      case Chosen(p) => f.(samples := f.samples[p := s])
      case NoSpecimenFile => f.(missingSpecimen := f.missingSpecimen + [s])
      case NoFasta => f.(missingFasta := f.missingFasta + [s])
  }

  /** Gathering one more sample. */
  lemma CollectStep(ss: seq<Sample>, s: Sample)
    ensures var f := Collect(ss);
      Collect(ss + [s]) ==
        (if Classify(s).Chosen? then f.(samples := f.samples[Classify(s).metadataPath := s])
         else if Classify(s).NoSpecimenFile? then f.(missingSpecimen := f.missingSpecimen + [s])
         else f.(missingFasta := f.missingFasta + [s]))
  {
    assert (ss + [s])[..|ss|] == ss;
  }

  /** The samples whose outcome satisfies `keep`, in cursor order. */
  function Select(ss: seq<Sample>, keep: Outcome -> bool): (r: seq<Sample>)
    ensures |r| <= |ss|
    decreases |ss|
  {
    if |ss| == 0 then []
    else (if keep(Classify(ss[0])) then [ss[0]] else []) + Select(ss[1..], keep)
  }

  predicate IsChosen(o: Outcome) { o.Chosen? }
  predicate IsNoSpecimenFile(o: Outcome) { o.NoSpecimenFile? }
  predicate IsNoFasta(o: Outcome) { o.NoFasta? }

  /** Selecting from a run with one more sample at its end. */
  lemma {:induction false} SelectSnoc(ss: seq<Sample>, s: Sample, keep: Outcome -> bool)
    ensures Select(ss + [s], keep) == Select(ss, keep) + (if keep(Classify(s)) then [s] else [])
    decreases |ss|
  {
    if |ss| > 0 {
      assert (ss + [s])[1..] == ss[1..] + [s];
      SelectSnoc(ss[1..], s, keep);
    } else {
      assert ss + [s] == [s];
    }
  }

  /** The two lists of set-aside samples are exactly the samples with that
      outcome, in cursor order. */
  lemma {:induction false} CollectMissingInOrder(ss: seq<Sample>)
    ensures Collect(ss).missingSpecimen == Select(ss, IsNoSpecimenFile)
    ensures Collect(ss).missingFasta == Select(ss, IsNoFasta)
    decreases |ss|
  {
    if |ss| > 0 {
      var pre := ss[..|ss| - 1];
      var s := ss[|ss| - 1];
      assert ss == pre + [s];
      CollectMissingInOrder(pre);
      SelectSnoc(pre, s, IsNoSpecimenFile);
      SelectSnoc(pre, s, IsNoFasta);
    }
  }

  /** Every sample lands in exactly one of the three outcomes. */
  lemma {:induction false} OutcomesPartition(ss: seq<Sample>)
    ensures |Select(ss, IsChosen)| + |Select(ss, IsNoSpecimenFile)| + |Select(ss, IsNoFasta)| == |ss|
    decreases |ss|
  {
    if |ss| > 0 {
      OutcomesPartition(ss[1..]);
    }
  }

  /** Some sample of the run chose metadata path `p`. */
  predicate Chose(ss: seq<Sample>, p: string) {
    exists i :: 0 <= i < |ss| && Classify(ss[i]) == Chosen(p)
  }

  /** A run with one more sample at its end chose `p` when the run did or
      the new sample does. */
  lemma ChoseSnoc(ss: seq<Sample>, s: Sample, p: string)
    ensures Chose(ss + [s], p) <==> Chose(ss, p) || Classify(s) == Chosen(p)
  {
    var t := ss + [s];
    if Chose(ss, p) {
      var i :| 0 <= i < |ss| && Classify(ss[i]) == Chosen(p);
      assert t[i] == ss[i];
    }
    if Classify(s) == Chosen(p) {
      assert t[|ss|] == s;
    }
    if Chose(t, p) {
      var i :| 0 <= i < |t| && Classify(t[i]) == Chosen(p);
      if i < |ss| {
        assert t[i] == ss[i];
      }
    }
  }

  /** The keys after one more sample. */
  lemma CollectKeysStep(ss: seq<Sample>, s: Sample, p: string)
    ensures p in Collect(ss + [s]).samples <==> p in Collect(ss).samples || Classify(s) == Chosen(p)
  {
    CollectStep(ss, s);
  }

  /** A metadata path is gathered exactly when some sample chose it. */
  lemma {:induction false} CollectKeys(ss: seq<Sample>, p: string)
    ensures p in Collect(ss).samples <==> Chose(ss, p)
    decreases |ss|
  {
    if |ss| > 0 {
      var pre := ss[..|ss| - 1];
      var s := ss[|ss| - 1];
      assert ss == pre + [s];
      CollectKeysStep(pre, s, p);
      ChoseSnoc(pre, s, p);
      CollectKeys(pre, p);
    }
  }

  /** A later sample with the same metadata path replaces an earlier one:
      the sample kept for a path is the last one that chose it. */
  lemma {:induction false} CollectLastWins(ss: seq<Sample>, i: nat)
    requires i < |ss| && Classify(ss[i]).Chosen?
    requires forall j :: i < j < |ss| ==> Classify(ss[j]) != Classify(ss[i])
    ensures Classify(ss[i]).metadataPath in Collect(ss).samples
    ensures Collect(ss).samples[Classify(ss[i]).metadataPath] == ss[i]
    decreases |ss|
  {
    var pre := ss[..|ss| - 1];
    if i < |ss| - 1 {
      assert pre[i] == ss[i];
      forall j | i < j < |pre|
        ensures Classify(pre[j]) != Classify(pre[i])
      {
        assert pre[j] == ss[j];
      }
      CollectLastWins(pre, i);
    }
  }

  /** There are never more metadata files than chosen samples. */
  lemma {:induction false} CollectCount(ss: seq<Sample>)
    ensures |Collect(ss).samples| <= |Select(ss, IsChosen)|
    decreases |ss|
  {
    if |ss| > 0 {
      var pre := ss[..|ss| - 1];
      var s := ss[|ss| - 1];
      assert ss == pre + [s];
      CollectCount(pre);
      SelectSnoc(pre, s, IsChosen);
    }
  }

  /** The loop over the samples of the cursor. */
  method CollectSamples(cursor: seq<Sample>) returns (found: Found)
    ensures found == Collect(cursor)
  {
    var samples: map<string, Sample> := map[];
    var missingSpecimen: seq<Sample> := [];
    var missingFasta: seq<Sample> := [];
    var n := 0;
    while n < |cursor|
      invariant n <= |cursor|
      invariant Found(samples, missingSpecimen, missingFasta) == Collect(cursor[..n])
    {
      var sample := cursor[n];
      assert cursor[..n + 1][..n] == cursor[..n];
      if sample.specimenFile.Some? {
        var specimenFiles := SplitWhitespace(sample.specimenFile.value);
        var fasta := FindFasta(specimenFiles);
        if fasta.Some? {
          samples := samples[MetadataPath(specimenFiles[fasta.value]) := sample];
        } else {
          missingFasta := missingFasta + [sample];
        }
      } else {
        missingSpecimen := missingSpecimen + [sample];
      }
      n := n + 1;
    }
    assert cursor[..n] == cursor;
    found := Found(samples, missingSpecimen, missingFasta);
  }

  /** `find(limit=file_limit)`: the cursor checks that the limit is an
      `int`, so the `None` that `--file-limit` defaults to raises
      `TypeError`; a limit of zero returns every document, any other limit
      at most its absolute value. */
  function Limited(cursor: seq<Sample>, fileLimit: Option<int>): (r: Result<seq<Sample>>)
    ensures r.Err? <==> fileLimit.None?
    ensures r.Ok? ==> r.value <= cursor
    ensures fileLimit == Some(0) ==> r == Ok(cursor)
    ensures fileLimit.Some? && fileLimit.value != 0 ==>
      r.Ok? && |r.value| == if |cursor| < Abs(fileLimit.value) then |cursor| else Abs(fileLimit.value)
  {
    if fileLimit.None? then Err("TypeError: limit must be an instance of int")
    else if fileLimit.value == 0 then Ok(cursor)
    else Ok(Take(Some(Abs(fileLimit.value)), cursor))
  }

  function Abs(x: int): nat {
    if x < 0 then -x else x
  }

  /** The loop that builds `files_to_be_written`, over the gathered samples
      in sorted metadata-path order; `checked` is that order. */
  method FilesToWrite(samples: map<string, Sample>, dataObjects: set<string>)
    returns (toWrite: map<string, Sample>, checked: seq<string>)
    ensures Sorted(checked) && forall p :: p in checked <==> p in samples
    ensures forall p :: p in toWrite <==> p in samples && p !in dataObjects
    ensures forall p :: p in toWrite ==> toWrite[p] == samples[p]
  {
    checked := SortedElements(samples.Keys);
    toWrite := map[];
    var i := 0;
    while i < |checked|
      invariant i <= |checked|
      invariant forall p :: p in toWrite <==> p in checked[..i] && p !in dataObjects
      invariant forall p :: p in toWrite ==> toWrite[p] == samples[p]
    {
      var p := checked[i];
      assert checked[..i + 1] == checked[..i] + [p];
      if p !in dataObjects {
        toWrite := toWrite[p := samples[p]];
      }
      i := i + 1;
    }
    assert checked[..i] == checked;
  }

  /** What a run gathers and what it would write. */
  datatype Written = Written(found: Found, toWrite: map<string, Sample>)

  /** `write_sample_metadata_files`: exit when the target collection is
      missing, raise when the cursor refuses the limit; otherwise gather the
      samples of the limited cursor and keep the metadata files that are not
      data objects yet. */
  method WriteSampleMetadataFiles(collections: set<string>, dataObjects: set<string>, targetRoot: string,
                                  cursor: seq<Sample>, fileLimit: Option<int>)
    returns (r: Result<Written>)
    ensures r.Err? <==> targetRoot !in collections || fileLimit.None?
    ensures r.Ok? ==> Limited(cursor, fileLimit).Ok? && r.value.found == Collect(Limited(cursor, fileLimit).value)
    ensures r.Ok? ==> forall p :: p in r.value.toWrite <==> p in r.value.found.samples && p !in dataObjects
    ensures r.Ok? ==> forall p :: p in r.value.toWrite ==> r.value.toWrite[p] == r.value.found.samples[p]
  {
    if targetRoot !in collections {
      return Err("target directory does not exist");
    }
    var limited := Limited(cursor, fileLimit);
    if limited.Err? {
      return Err(limited.msg);
    }
    var found := CollectSamples(limited.value);
    var toWrite, _ := FilesToWrite(found.samples, dataObjects);
    r := Ok(Written(found, toWrite));
  }
}
