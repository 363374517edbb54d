# UProC, KEGG and Pfam ingestion for iMicrobe, in Dafny

This project models the annotation-ingestion core of the iMicrobe data
loaders and proves properties of the model. The loaders take the output of
the UProC protein classifier (per-sample files of accession and read count),
fetch KEGG Orthology annotations over the KEGG REST `get` operation, load
the Pfam-A and dead-family reference files, and fill the iMicrobe tables
that link samples to proteins. Around this sit the scripts that move result
files between the TACC file system, the CyVerse iRODS data store and local
disks, and two line utilities used when building BLAST databases.

The database, the KEGG web service, iRODS and the file system are not
called. Each becomes a value the model can reason about:

- a table is a `seq` of rows held in a class field (`UProCService.ImicrobeDb`,
  `KeggTable.KeggDb`, `PfamTable.UprocTable`,
  `SampleToUproc.SampleToUprocTable`), and a session that raises loses its
  uncommitted rows;
- the KEGG service is a function from request URL to status and body;
- iRODS is an object holding the set of collections and a map from data
  object path to checksum (`Irods.IrodsStore`);
- a directory walk (`os.walk`) is a listing, a file is its lines, and the
  local file system is the set of paths that exist;
- a Python exception that ends a script or a session is an `Err`.

| module | file | models |
|---|---|---|
| `Wrappers`, `Strings`, `Paths`, `Walks`, `Groups` | wrappers.dfy, strings.dfy, paths.dfy, walks.dfy, groups.dfy | Python `str` operations, `os.path`, `os.walk`, and the `take`/`grouper` recipes |
| `Kegg` | kegg.dfy | imicrobe/util/kegg.py |
| `UProCResults`, `UProCService` | uproc_results.dfy, uproc_service.dfy | imicrobe/load/uproc/load.py |
| `KeggTable` | kegg_table.dfy | loaders/uproc_results/kegg/load_kegg_results_to_uproc_kegg_table.py |
| `PfamTable` | pfam_table.dfy | loaders/uproc_results/load_pfam_table.py |
| `ResultLines`, `SampleToUproc` | result_lines.dfy, sample_to_uproc.dfy | imicrobe/load/uproc_results/load_sample_to_uproc_table.py and load_sample_to_uproc_table.py |
| `DownloadCommands` | download_commands.dfy | imicrobe/load/uproc_results/write_download_command_file.py |
| `Irods` | irods.dfy | loader/util/irods.py |
| `CopyResults` | copy_results.dfy | loader/imicrobe/uproc/copy_uproc_results_to_iplant_imicrobe.py |
| `KeggJobFile` | kegg_job_file.dfy | loaders/uproc_results/kegg/write_copy_uproc_kegg_results_to_iplant_job_file.py |
| `MetadataFiles` | metadata_files.dfy | imicrobe/write/metadata_files/write_metadata_files.py |
| `SplitLines`, `FilterLines` | split_lines.dfy, filter_lines.dfy | imicrobe/execute/makeblastdb/split_lines.py and filter_lines.py |

Loops in the source are methods with loop invariants. Each method is proved
equal to a recursive function over its input, and the lemmas state what
that function guarantees. Classes whose fields the source updates in place
have methods with `modifies` clauses.

The two findings below are modelled as the code is written. The older KEGG
parser in `KeggTable` and the job file in `KeggJobFile` keep the script's
own computation. The corrected behaviour is a separate definition with its
property proved. For the parser, that definition is the newer parser in
imicrobe/util/kegg.py, which `UProCService` uses.

## Model

| member | source | states |
|---|---|---|
| Strings.SplitOfJoin | loaders/uproc_results/load_pfam_table.py:74 | `split(sep)` gives back the fields a line was joined from, when no field holds the separator |
| Strings.StripIdempotent | loaders/uproc_results/load_pfam_table.py:74 | stripping a stripped line changes nothing |
| Strings.SplitWhitespace | imicrobe/write/metadata_files/write_metadata_files.py:46 | `split()` gives non-empty tokens without whitespace |
| Strings.ParseNat | imicrobe/load/uproc_results/load_sample_to_uproc_table.py:104 | `int(s)` succeeds exactly on a non-empty run of decimal digits |
| Strings.Sort | imicrobe/write/metadata_files/write_metadata_files.py:84 | `sorted` gives a sorted permutation of its input |
| Paths.PathSplit | loader/util/irods.py:29 | `os.path.split` gives a last component without `/` that is the path's tail |
| Paths.SplitJoin | loader/util/irods.py:29 | `os.path.split` undoes `os.path.join` of a directory and a name |
| Kegg.MatchField | imicrobe/util/kegg.py:34 | a match has a non-empty value, and a field name, when present, is a non-empty prefix of the line |
| Kegg.IndentedLineHasNoName | imicrobe/util/kegg.py:34 | a line beginning with whitespace never yields a field name |
| Kegg.SeparatorsDoNotMatch | imicrobe/util/kegg.py:108-112 | the empty line and the `///` separator do not match the field pattern |
| Kegg.Append | imicrobe/util/kegg.py:104-124 | appending to `entries[id][field]` adds `id` to the keys, extends exactly that list by the value and leaves every other list unchanged |
| Kegg.StepKeys | imicrobe/util/kegg.py:109-124 | one line adds to the stored ids exactly the id its `ENTRY` line opens, if any, and the current id stays among the keys |
| Kegg.ParsedKeysAreEntryIds | imicrobe/util/kegg.py:104-124 | the ids of the parsed annotations are exactly the ids of the `ENTRY` lines |
| Kegg.ContinuationGoesUnderNone | imicrobe/util/kegg.py:113-124 | an indented continuation line keeps the current id, sets the field to `None`, is appended under `None`, and leaves PATHWAY, MODULE and every other named field unchanged |
| Kegg.ParseResponse | imicrobe/util/kegg.py:104-124 | the loop over the response lines computes the parse of all the lines |
| Kegg.RequestPathSplits | imicrobe/util/kegg.py:92 | splitting the request path on `+` gives back each id with its `ko:` prefix, in order |
| Kegg.BadIds | imicrobe/util/kegg.py:127 | the bad ids are requested ids; no bad id is annotated; every requested id is bad or annotated |
| Kegg.Get10KeggAnnotations | imicrobe/util/kegg.py:37-129 | status 404 gives no annotations and all ids bad; any status other than 200 and 404 fails; on success an id is bad exactly when it was requested and is not annotated |
| Kegg.RequestBatchesShape | imicrobe/util/kegg.py:21-23 | every request carries 1 to 10 ids, and the requests together are the sorted ids in order |
| Kegg.FetchAllFails | imicrobe/util/kegg.py:21-31 | the whole fetch fails exactly when some batch's status is neither 200 nor 404 |
| Kegg.FetchAllCovers | imicrobe/util/kegg.py:21-31 | after a successful fetch, every id of every batch is bad or annotated, and every bad id came from some batch |
| Kegg.FetchedIdsAccounted | imicrobe/util/kegg.py:15-31 | a successful `get_kegg_annotations` leaves each given id bad or annotated, and reports bad only ids it was given |
| Kegg.GetKeggAnnotations | imicrobe/util/kegg.py:15-31 | the loop over the batches computes the merge of the per-batch results, failing at the first failing batch |
| Kegg.FetchAllErrExtends | imicrobe/util/kegg.py:21-30 | once a prefix of the batches fails, the whole fetch fails with the same error |
| Kegg.SeparatorAppendsNothing | imicrobe/util/kegg.py:108-112 | a line that does not match, such as `///`, adds no value and leaves no current id or field |
| UProCResults.GetProteinType | imicrobe/load/uproc/load.py:462-468 | `P` gives PFAM, `K` gives KEGG, and any other first letter fails, each in both directions |
| UProCResults.KeggDescription | imicrobe/load/uproc/load.py:333-337 | the description is always built: NAME and DEFINITION carry the entry's values, or the empty list when the entry lacks them (the `defaultdict` default); PATHWAY and MODULE are present exactly when the entry has them, with their values |
| UProCResults.AddProteinValid | imicrobe/load/uproc/load.py:338-347 | inserting an absent accession under the next id keeps the ids distinct and below the next id |
| UProCResults.AddTablesCommutes | imicrobe/load/uproc/load.py:209-211 | the key-wise sum with `fill_value=0` does not depend on the order of its operands |
| UProCResults.AddTablesAssociates | imicrobe/load/uproc/load.py:209-211 | nor on how several tables are grouped |
| UProCResults.CombineSums | imicrobe/load/uproc/load.py:209-211 | the combined table has as keys the union of the files' keys, each with its count summed over all files |
| UProCResults.TrailingDigits | imicrobe/load/uproc/load.py:147 | the length of the run of digits that ends a name, and the character before it is not a digit |
| UProCResults.TrailingDigitsOfDigits | imicrobe/load/uproc/load.py:147 | a name that is a non-digit followed by digits ends in exactly those digits |
| UProCResults.UprocResultsNameShape | imicrobe/load/uproc/load.py:147 | `stem.uproc.kegg` and `stem.uproc.pfam` plus at least one digit pass the name test; `stem.uproc.pfam` alone does not |
| UProCResults.ParseUprocLinesContents | imicrobe/load/uproc/load.py:270-277 | a parsed results file has, for every non-blank line, its accession with its count, and no other accession |
| UProCResults.ToFetch | imicrobe/load/uproc/load.py:316-319 | the accessions to fetch are exactly the candidates in neither the cache nor the bad set |
| UProCResults.AssociationRows | imicrobe/load/uproc/load.py:420-433 | at most one association row per result line |
| UProCResults.AssociationRowsExact | imicrobe/load/uproc/load.py:420-433 | every new row belongs to the sample, has evidence `UProC` and a cached accession's id and count; every cached accession of the results gets its row |
| UProCResults.CountForSample | imicrobe/load/uproc/load.py:439-442 | `count_uproc_results_for_sample` never counts more rows than the table holds |
| UProCResults.CountForSampleAppend | imicrobe/load/uproc/load.py:439-442 | counting a sample's rows distributes over appended rows |
| UProCResults.AssociationRowsCount | imicrobe/load/uproc/load.py:420-442 | all new rows count for their sample and for no other |
| UProCResults.ParsePfamLines | imicrobe/load/uproc/load.py:361-366 | one unpacked result per Pfam-A line |
| UProCResults.ParsePfamLineOfFields | imicrobe/load/uproc/load.py:366 | a tab-separated line of nine or more fields unpacks to its first and ninth fields |
| UProCResults.ParsePfamLinesAt | imicrobe/load/uproc/load.py:361-366 | unpacking works line by line: entry `i` is line `i` unpacked, and a prefix of the lines unpacks to the same prefix |
| UProCResults.PfamStepFacts | imicrobe/load/uproc/load.py:376-395 | one line adds its accession to the proteins, keeps every stored protein, describes a new accession by the line's description, and caches the accession with its stored id |
| UProCResults.PfamLoadKeeps | imicrobe/load/uproc/load.py:361-395 | a successful load keeps every stored protein, adds exactly the lines' accessions, and keeps the ids distinct |
| UProCResults.PfamLoadCaches | imicrobe/load/uproc/load.py:376-395 | after a load every loaded accession is cached with its stored id, and other cached accessions keep their ids |
| UProCResults.PfamLoadLinesOk | imicrobe/load/uproc/load.py:366 | a load succeeds only if every line unpacks |
| UProCResults.PfamLoadFirstWins | imicrobe/load/uproc/load.py:376-393 | a new accession is described by the first line that names it; later lines with that accession change nothing |
| UProCResults.PfamAccessionsIndex | imicrobe/load/uproc/load.py:366-395 | every loaded accession comes from some line |
| UProCResults.PfamLoadValid | imicrobe/load/uproc/load.py:376-395 | a load keeps the ids distinct and the cache in agreement with the stored rows |
| UProCResults.PfamLoadCacheFrom | imicrobe/load/uproc/load.py:395 | a load adds cache entries only for the accessions of its lines |
| UProCResults.PfamLoadNext | imicrobe/load/uproc/load.py:364-395 | loading one more line is one more step |
| UProCResults.PfamLoadErrExtends | imicrobe/load/uproc/load.py:366 | once a prefix of the lines fails, the whole load fails |
| UProCService.UProCResultsService.constructor | imicrobe/load/uproc/load.py:288-302 | the cache maps every stored accession to its id, the bad set is empty, and the two are disjoint |
| UProCService.Named | imicrobe/load/uproc/load.py:328-332 | the named accessions are the non-`None` keys of the annotations |
| UProCService.KeggLoopStep | imicrobe/load/uproc/load.py:328-347 | inserting one more annotated accession keeps the insert loop's invariant |
| UProCService.UProCResultsService.FetchMissing | imicrobe/load/uproc/load.py:316-326 | only the candidates in neither the cache nor the bad set are fetched; on success the reported bad ids join the bad set; on failure nothing changes |
| UProCService.UProCResultsService.InsertFetched | imicrobe/load/uproc/load.py:328-347 | on success each named accession becomes a protein row with its KEGG description, type and new id, and is cached; no association row changes; a failure names an accession whose prefix has no protein type or that is already stored (the unique accession key) |
| UProCService.UProCResultsService.InsertKeggAnnotationsForSample | imicrobe/load/uproc/load.py:305-349 | a failed fetch changes neither the bad set nor the cache; on success the bad ids are added and the fetched accessions inserted and cached |
| UProCService.UProCResultsService.InsertPfamAnnotationsFromFile | imicrobe/load/uproc/load.py:352-401 | success exactly when the Pfam load of all lines succeeds, leaving its tables and cache; a failure leaves the groups before the failing one committed |
| UProCService.PfamFailure | imicrobe/load/uproc/load.py:361-397 | a failing line in a group fails the whole load and leaves the state that `PfamFailedAt` describes |
| UProCService.UProCResultsService.LoadPfamGroup | imicrobe/load/uproc/load.py:364-397 | one group, loaded line by line from the committed state, ends in the load of the lines up to its end or fails at a line inside it |
| UProCService.UProCResultsService.LoadPfamLine | imicrobe/load/uproc/load.py:366-395 | one line gives the load of the lines up to and including it, and the cache follows |
| UProCService.UProCResultsService.InsertUprocResultsForSample | imicrobe/load/uproc/load.py:411-436 | appends exactly the association rows of the cached accessions, adds the other accessions to the bad set, changes neither proteins nor cache, and keeps cache and bad set disjoint |
| UProCService.UProCResultsService.LoadSample | imicrobe/load/uproc/load.py:167-229 | no non-empty results file means skip with nothing changed; rows already loaded means skip with nothing changed; a loaded sample gains exactly the rows of its combined counts; a skip as already loaded means the sample has rows; association rows are only ever appended |
| UProCService.UProCResultsService.LoadCombined | imicrobe/load/uproc/load.py:209-226 | the sample gains one row per combined accession the cache knows, and the result is the sample's new row count; on failure no association row changes |
| UProCService.ResultsObjects | imicrobe/load/uproc/load.py:176-188 | the results objects are those whose name passes the test and whose size is not 0, in order |
| UProCService.ParseAllResults | imicrobe/load/uproc/load.py:199-202 | success gives one parsed table per object, in order; failure means some object failed to parse |
| UProCService.KeggAccessions | imicrobe/load/uproc/load.py:218-219 | the KEGG accessions are those of the combined table starting with `K` |
| UProCService.MaxOf | imicrobe/load/uproc/load.py:213 | every non-empty set of accessions has one with the largest count |
| UProCService.SortByReadCount | imicrobe/load/uproc/load.py:213 | every accession once, in non-increasing read count |
| UProCService.LoadedRowsHold | imicrobe/load/uproc/load.py:213-223 | appending the association rows of the sorted combined table is what a loaded sample gains |
| UProCService.LoadAnnotations | imicrobe/load/uproc/load.py:142-229 | one outcome per sample, in order; a sample is skipped for want of results exactly when it has no non-empty results file; association rows are only appended; a sample skipped as already loaded has rows afterwards, and a sample loaded with count c has at least c rows |
| UProCService.CountExtends | imicrobe/load/uproc/load.py:209-226 | appending association rows never lowers a sample's row count |
| UProCService.RowsExtendTrans | imicrobe/load/uproc/load.py:161-229 | appending rows twice is appending rows |
| UProCService.OutcomesHoldStep | imicrobe/load/uproc/load.py:161-229 | the facts about earlier samples' outcomes survive further appended rows, and one more sample's outcome adds its own fact |
| Groups.Take | loaders/uproc_results/kegg/load_kegg_results_to_uproc_kegg_table.py:163-165 | `take(n, it)` is the first `n` items, or all of them when there are fewer (or no limit) |
| Groups.GrouperShape | loaders/uproc_results/kegg/load_kegg_results_to_uproc_kegg_table.py:168-172 | every group has exactly `n` items; the groups together are the input followed by fewer than `n` fill values |
| Groups.PresentSomes | imicrobe/util/kegg.py:23 | dropping the `None` padding of a grouped sequence gives back the items |
| Groups.BatchesPartition | imicrobe/load/uproc/load.py:361-364 | every batch has 1 to `n` items and the batches together are the input, in order |
| Paths.ParentNameOfJoin | loaders/uproc_results/kegg/load_kegg_results_to_uproc_kegg_table.py:299 | the parent directory name of `join(join(base, s), name)` is `s` |
| KeggTable.PassOneFails | loaders/uproc_results/kegg/load_kegg_results_to_uproc_kegg_table.py:212-217 | the first pass fails exactly when some line does not split into two fields |
| KeggTable.PassOneIds | loaders/uproc_results/kegg/load_kegg_results_to_uproc_kegg_table.py:212-217 | a successful first pass collects exactly the KEGG ids of the lines |
| KeggTable.PassOneAppend | loaders/uproc_results/kegg/load_kegg_results_to_uproc_kegg_table.py:199-217 | the first pass over two runs of lines succeeds exactly when it succeeds over both, with the union of their ids |
| KeggTable.ScanLines | loaders/uproc_results/kegg/load_kegg_results_to_uproc_kegg_table.py:213-217 | the loop over one file's lines adds that file's ids, and fails with the first bad line |
| KeggTable.CollectKeggIds | loaders/uproc_results/kegg/load_kegg_results_to_uproc_kegg_table.py:197-217 | the loop over the `.uproc.kegg` files computes the first pass over all of them, each cut to the line limit |
| KeggTable.ScannedNext | loaders/uproc_results/kegg/load_kegg_results_to_uproc_kegg_table.py:199-217 | one more file extends the first pass by that file's ids, or fails with it |
| KeggTable.ScannedPrefixFails | loaders/uproc_results/kegg/load_kegg_results_to_uproc_kegg_table.py:199-217 | once a prefix of the files fails, the whole first pass fails |
| KeggTable.NeededIds | loaders/uproc_results/kegg/load_kegg_results_to_uproc_kegg_table.py:231-240 | the needed ids are exactly the found ids not already downloaded |
| KeggTable.StaleValueReappended | loaders/uproc_results/kegg/load_kegg_results_to_uproc_kegg_table.py:467-482 | a separator line after a matching line keeps id and field and appends the previous value again |
| KeggTable.LeadingSeparatorFails | loaders/uproc_results/kegg/load_kegg_results_to_uproc_kegg_table.py:467-482 | a response whose first line does not match fails, as `field_value` is not yet bound |
| KeggTable.OldParsedKeys | loaders/uproc_results/kegg/load_kegg_results_to_uproc_kegg_table.py:464-482 | the ids of the parsed annotations are exactly the ids of the `ENTRY` lines |
| KeggTable.OldStepKeys | loaders/uproc_results/kegg/load_kegg_results_to_uproc_kegg_table.py:467-482 | one line adds to the stored ids exactly the id of its `ENTRY` line, if any |
| KeggTable.ParseKeggResponse | loaders/uproc_results/kegg/load_kegg_results_to_uproc_kegg_table.py:413-484 | the loop over the response lines computes the older parse of all the lines, and fails where it fails |
| KeggTable.OldParseErrExtends | loaders/uproc_results/kegg/load_kegg_results_to_uproc_kegg_table.py:467-482 | once a prefix of the lines fails, the whole older parse fails |
| KeggTable.DownloadGroup | loaders/uproc_results/kegg/load_kegg_results_to_uproc_kegg_table.py:248-281 | on status 200 each group id present in the response is downloaded and stored with its annotation and the others failed; any other status fails the whole group; a failing parse rolls back the session |
| KeggTable.SortGroup | loaders/uproc_results/kegg/load_kegg_results_to_uproc_kegg_table.py:257-276 | the group ids split into downloaded (in the response) and failed (not in it), with the annotation of each downloaded one |
| KeggTable.DownloadAll | loaders/uproc_results/kegg/load_kegg_results_to_uproc_kegg_table.py:245-281 | afterwards the downloaded set is the stored annotations, every needed id is downloaded or failed and not both, and failed ids are needed ids |
| KeggTable.FreshGroup | loaders/uproc_results/kegg/load_kegg_results_to_uproc_kegg_table.py:246 | the ids of a group are neither downloaded already nor in an earlier group |
| KeggTable.FileRowsExact | loaders/uproc_results/kegg/load_kegg_results_to_uproc_kegg_table.py:312-324 | one file's rows carry the sample id and only downloaded, not failed, ids; every such line gives its row with its read count |
| KeggTable.KeggDb.constructor | loaders/uproc_results/kegg/load_kegg_results_to_uproc_kegg_table.py:191-196 | the two tables start as given |
| KeggTable.FileRowsErrExtends | loaders/uproc_results/kegg/load_kegg_results_to_uproc_kegg_table.py:312-321 | once a prefix of a file's lines fails, the file fails |
| KeggTable.LoadFile | loaders/uproc_results/kegg/load_kegg_results_to_uproc_kegg_table.py:304-334 | a file's rows are added exactly when the whole file loads; otherwise its session rolls back and nothing is added |
| KeggTable.FileLoads | loaders/uproc_results/kegg/load_kegg_results_to_uproc_kegg_table.py:291-334 | one load outcome per `.uproc.kegg` file |
| KeggTable.ConcatFails | loaders/uproc_results/kegg/load_kegg_results_to_uproc_kegg_table.py:291-334 | the joined outcome fails exactly when some file's outcome fails, and otherwise holds every file's rows |
| KeggTable.ConcatErrExtends | loaders/uproc_results/kegg/load_kegg_results_to_uproc_kegg_table.py:291-334 | once a prefix of the files fails, the joined outcome fails |
| KeggTable.LoadFound | loaders/uproc_results/kegg/load_kegg_results_to_uproc_kegg_table.py:295-334 | a file adds its rows when all its lines load and nothing when one raises (the error is printed and the walk goes on); a sample directory name that is not an integer fails the run; the annotations are untouched |
| KeggTable.ConcatStep | loaders/uproc_results/kegg/load_kegg_results_to_uproc_kegg_table.py:291-334 | each further file either appends its rows to the joined outcome or makes it fail |
| KeggTable.LoadResults | loaders/uproc_results/kegg/load_kegg_results_to_uproc_kegg_table.py:288-334 | the second pass appends the rows of every file that loads, in walk order, and fails only at a sample directory name that is not an integer |
| KeggTable.LoadAllSamples | loaders/uproc_results/kegg/load_kegg_results_to_uproc_kegg_table.py:191-342 | a failing first pass changes nothing; on success every found id is downloaded or failed and not both, the downloaded ids are the stored annotations, old annotations stay, and the results table gains exactly the rows of the second pass |
| KeggTable.WriteCommandFile | loaders/uproc_results/kegg/load_kegg_results_to_uproc_kegg_table.py:175-188 | one command line per `.uproc.kegg` file, in walk order, and the count equals the number of lines |
| PfamTable.UprocTable.constructor | loaders/uproc_results/load_pfam_table.py:26 | the freshly created `uproc` table is empty |
| PfamTable.PfamRowOfFields | loaders/uproc_results/load_pfam_table.py:74 | a `pfamA.txt` line of at least nine tab-separated fields gives the row of its 1st, 2nd, 4th and 9th fields |
| PfamTable.DeadRowOfFields | loaders/uproc_results/load_pfam_table.py:110 | a `dead_family.txt` line of at least three fields gives the row named `dead` with its accession, identifier and cause of death |
| PfamTable.PfamRowShortFails | loaders/uproc_results/load_pfam_table.py:74 | a `pfamA.txt` line of fewer than nine fields cannot be unpacked and raises |
| PfamTable.ParseLines | loaders/uproc_results/load_pfam_table.py:72-74 | every read line is parsed, one result per line |
| PfamTable.GroupRowsOk | loaders/uproc_results/load_pfam_table.py:72-93 | a group of lines is loaded exactly when every line in it parses, and then gives their rows in order |
| PfamTable.GroupRowsErrExtends | loaders/uproc_results/load_pfam_table.py:72-74 | once a line of a group fails, the whole group fails |
| PfamTable.InsertAllExtends | loaders/uproc_results/load_pfam_table.py:83-93 | inserting keeps the existing rows as a prefix and adds only offered rows |
| PfamTable.InsertAllUnique | loaders/uproc_results/load_pfam_table.py:83-93 | the accession test before `session.add` keeps accessions unique |
| PfamTable.InsertNewHas | loaders/uproc_results/load_pfam_table.py:83-93 | after one insertion an accession is present exactly when it was before or is the offered row's |
| PfamTable.InsertAllCovers | loaders/uproc_results/load_pfam_table.py:83-93 | after the insertions an accession is present exactly when it was before or some offered row has it |
| PfamTable.InsertAllFirstWins | loaders/uproc_results/load_pfam_table.py:83-93 | of several rows with a new accession, the first one is the row that is stored |
| PfamTable.InsertAllAppend | loaders/uproc_results/load_pfam_table.py:69-95 | inserting two runs one after the other equals inserting their concatenation |
| PfamTable.CommittedExtends | loaders/uproc_results/load_pfam_table.py:69-95 | committing groups keeps the old rows as a prefix and the accessions unique |
| PfamTable.CommittedAll | loaders/uproc_results/load_pfam_table.py:69-95 | when every group parses, the grouped commits equal inserting all rows in file order |
| PfamTable.GroupValues | loaders/uproc_results/load_pfam_table.py:69 | one row list per commit group |
| PfamTable.LoadGroup | loaders/uproc_results/load_pfam_table.py:72-95 | one group: fails exactly when a line fails and then commits nothing; otherwise commits the rows with new accessions |
| PfamTable.LoadPfamTable | loaders/uproc_results/load_pfam_table.py:58-101 | `load_pfam_table` succeeds exactly when every group of 2000 lines parses, and the table holds what the groups committed up to the first failing group |
| PfamTable.LoadDeadPfam | loaders/uproc_results/load_pfam_table.py:104-130 | `load_dead_pfam` commits once: all new dead rows when every line parses, nothing otherwise |
| PfamTable.LoadUprocTable | loaders/uproc_results/load_pfam_table.py:24-34 | after both loads the accessions are unique, the live rows come first and every other row is a dead one; on success the table is the live rows followed by the new dead rows |
| PfamTable.LiveThenDead | loaders/uproc_results/load_pfam_table.py:27-31 | adding dead rows to unique live rows keeps them unique and leaves every non-live row named `dead` |
| PfamTable.DeadRowsAreDead | loaders/uproc_results/load_pfam_table.py:121-126 | every row read from `dead_family.txt` is named `dead` |
| ResultLines.ParseResultLineOfPair | imicrobe/load/uproc_results/load_sample_to_uproc_table.py:108 | a results line `accession,count` unpacks into its two fields |
| ResultLines.ParseResultLineWrongCount | imicrobe/load/uproc_results/load_sample_to_uproc_table.py:108 | a line of one field or of more than two fields does not unpack and raises |
| ResultLines.ParseResultLines | imicrobe/load/uproc_results/load_sample_to_uproc_table.py:106-108 | one unpacked row per line of the file |
| ResultLines.SampleIdOfResultsPath | imicrobe/load/uproc_results/load_sample_to_uproc_table.py:103-104 | for a file `base/<digits>/name` the sample id is the number its directory is named by |
| SampleToUproc.SampleToUprocTable.constructor | imicrobe/load/uproc_results/load_sample_to_uproc_table.py:41-42 | the freshly created `sample_to_uproc` table is empty |
| SampleToUproc.FileRowsExact | imicrobe/load/uproc_results/load_sample_to_uproc_table.py:106-121 | a file that loads gives, for its sample, exactly one row per line whose accession is in `uproc`, with that accession's id and the line's count, and no other row |
| SampleToUproc.FileRowsStep | imicrobe/load/uproc_results/load_sample_to_uproc_table.py:106-121 | each further line either adds its rows or makes the file fail |
| SampleToUproc.FileRowsErrExtends | imicrobe/load/uproc_results/load_sample_to_uproc_table.py:106-121 | once a line raises, the whole file fails |
| SampleToUproc.AddFileRows | imicrobe/load/uproc_results/load_sample_to_uproc_table.py:106-123 | the lines of a file are committed together at the end: all their rows when every line loads, nothing otherwise |
| SampleToUproc.LoadFromFile | imicrobe/load/uproc_results/load_sample_to_uproc_table.py:94-129 | `load_sample_to_uproc_table_from_file` fails exactly when the directory name is not a number or a line raises, and otherwise appends the file's rows |
| SampleToUproc.WriteCommandFile | imicrobe/load/uproc_results/load_sample_to_uproc_table.py:79-91 | one command line per `.uproc` file of the walk, in walk order, and the reported count equals the number of lines |
| SampleToUproc.CommandsNameUprocFiles | imicrobe/load/uproc_results/load_sample_to_uproc_table.py:82-89 | every command names a `.uproc` file joined onto one of the walked directories |
| SampleToUproc.TabLineOfFields | load_sample_to_uproc_table.py:62 | a line written from four tab-free fields unpacks into them |
| SampleToUproc.TabLineRowsJoin | load_sample_to_uproc_table.py:62-77 | a tab line that loads adds one row exactly when its accession is in `uproc`, carrying that accession's id and the line's sample and count |
| SampleToUproc.GroupRows | load_sample_to_uproc_table.py:60-77 | a group of lines adds at most one row per line |
| SampleToUproc.GroupRowsLines | load_sample_to_uproc_table.py:60-77 | a group that loads has every line loading, and its rows are exactly the rows of its lines |
| SampleToUproc.GroupRowsStep | load_sample_to_uproc_table.py:60-77 | each further line either adds its rows or makes the group fail |
| SampleToUproc.GroupRowsErrExtends | load_sample_to_uproc_table.py:60-77 | once a line raises, the whole group fails |
| SampleToUproc.CommittedBound | load_sample_to_uproc_table.py:57-79 | the committed groups only append rows, never more than one per line |
| SampleToUproc.LoadGroup | load_sample_to_uproc_table.py:58-79 | one group: committed as a whole when every line loads, nothing otherwise; the reported count is the number of lines |
| SampleToUproc.LoadSampleToUprocTable | load_sample_to_uproc_table.py:52-87 | `load_sample_to_uproc_table` succeeds exactly when every group of 1000 lines loads, and the table holds what the groups committed up to the first failing group |
| Irods.IrodsStore.constructor | loader/util/irods.py:8-9 | a session over the given collections and data objects |
| Irods.IrodsStore.CreateCollection | loader/util/irods.py:12-36 | `irods_create_collection` creates exactly the missing chain of the target, ancestors first, adds those collections and leaves data objects alone |
| Irods.MissingCollections | loader/util/irods.py:20-31 | the first loop collects the missing chain of the target |
| Irods.ClimbChain | loader/util/irods.py:23-31 | the climb from any point puts the missing chain of that point in front of the list so far |
| Irods.MoveFront | loader/util/irods.py:33-36 | popping the front of the list and creating it moves it to the created set and keeps the overall order |
| Irods.MissingChainStep | loader/util/irods.py:27-29 | a missing collection is preceded by its parent's missing chain, unless the split leaves no last component |
| Irods.MissingChainEnds | loader/util/irods.py:23-28 | nothing is created exactly when the target exists; otherwise the target is created last |
| Irods.MissingChainMissing | loader/util/irods.py:24-28 | only collections that do not exist are created |
| Irods.MissingChainLinks | loader/util/irods.py:28-29 | each created collection is the parent of the next one |
| Irods.MissingChainFirst | loader/util/irods.py:23-26 | the first created collection has an existing parent or none left to walk to |
| Irods.CreatedCoversTarget | loader/util/irods.py:12-36 | after the creates the target collection exists |
| Irods.IrodsStore.ChecksumsMatch | loader/util/irods.py:39-44 | defined exactly when both data objects exist, and then true exactly when their checksums agree |
| Irods.IrodsStore.Copy | loader/util/irods.py:47-48 | a forced copy gives the destination the source's checksum and fails, changing nothing, when the source is missing |
| Irods.IrodsStore.Delete | loader/util/irods.py:51-55 | the object is gone afterwards; a missing object is reported, not an error |
| Irods.IrodsStore.DeleteCollection | loader/util/irods.py:58-62 | the collection goes with every collection and object under it; a missing collection changes nothing |
| Irods.IrodsStore.Put | loader/imicrobe/uproc/copy_uproc_results_to_iplant_imicrobe.py:99 | the upload gives the target the local file's checksum and nothing else changes |
| CopyResults.AddFilesCovers | loader/imicrobe/uproc/copy_uproc_results_to_iplant_imicrobe.py:45-61 | one directory keeps the earlier entries and adds every file whose name contains `.uproc.` |
| CopyResults.AddFilesSound | loader/imicrobe/uproc/copy_uproc_results_to_iplant_imicrobe.py:45-61 | every new entry is a selected file of that directory mapped to its target path |
| CopyResults.ScanSound | loader/imicrobe/uproc/copy_uproc_results_to_iplant_imicrobe.py:44-70 | every entry found is a selected file of some walked directory mapped to the target root plus its relative directory plus its name |
| CopyResults.ScanKeeps | loader/imicrobe/uproc/copy_uproc_results_to_iplant_imicrobe.py:44-70 | the walk never drops or changes an entry |
| CopyResults.ScanComplete | loader/imicrobe/uproc/copy_uproc_results_to_iplant_imicrobe.py:65-68 | the walk finds every selected file unless it stopped after reaching the file limit |
| CopyResults.AllSelectedFoundCons | loader/imicrobe/uproc/copy_uproc_results_to_iplant_imicrobe.py:44-46 | the whole walk is covered when its first directory and the rest are |
| CopyResults.FindResults | loader/imicrobe/uproc/copy_uproc_results_to_iplant_imicrobe.py:42-70 | the search loop computes the walk's map, or the repeated-source error |
| CopyResults.ToCopyMembers | loader/imicrobe/uproc/copy_uproc_results_to_iplant_imicrobe.py:76-82 | a pair is to be copied exactly when it was found and its target does not exist |
| CopyResults.Sources | loader/imicrobe/uproc/copy_uproc_results_to_iplant_imicrobe.py:78 | one source path per pair |
| CopyResults.ToCopySorted | loader/imicrobe/uproc/copy_uproc_results_to_iplant_imicrobe.py:78-82 | the pairs to copy keep the sorted order of their sources |
| CopyResults.FilesToCopy | loader/imicrobe/uproc/copy_uproc_results_to_iplant_imicrobe.py:76-82 | the pairs to copy are exactly the found pairs with a missing target, sorted by source |
| CopyResults.Copied | loader/imicrobe/uproc/copy_uproc_results_to_iplant_imicrobe.py:94-99 | after a copy the target exists and every existing object is unchanged |
| CopyResults.CopiedIdempotent | loader/imicrobe/uproc/copy_uproc_results_to_iplant_imicrobe.py:94-99 | copying the same file twice is the same as copying it once |
| CopyResults.CopyFileToIrods | loader/imicrobe/uproc/copy_uproc_results_to_iplant_imicrobe.py:94-99 | `copy_file_to_irods` puts the file only when the target is missing |
| CopyResults.CopyAllResult | loader/imicrobe/uproc/copy_uproc_results_to_iplant_imicrobe.py:87-91 | after the copies every target exists, old objects are unchanged, and nothing else appears |
| CopyResults.CopyUprocOutput | loader/imicrobe/uproc/copy_uproc_results_to_iplant_imicrobe.py:18-91 | the run fails exactly when the source is missing, the target collection is missing or a source repeats, and then changes nothing; otherwise it copies exactly the found files with missing targets, in sorted source order |
| DownloadCommands.CommandLines | imicrobe/load/uproc_results/write_download_command_file.py:90-94 | one written line per download |
| DownloadCommands.ResultDownloads | imicrobe/load/uproc_results/write_download_command_file.py:83-94 | a result file gives at most one download, none when its local file exists |
| DownloadCommands.WriteDownloadCommands | imicrobe/load/uproc_results/write_download_command_file.py:14-116 | fails exactly when the target directory is not absolute; otherwise the state is the loop over the stripped lines after the root line, up to the line limit, and the output is one command line for each wanted download, in line order |
| DownloadCommands.MatchingStep | imicrobe/load/uproc_results/write_download_command_file.py:82 | counting matching lines goes up by one exactly at a matching line |
| DownloadCommands.StepCases | imicrobe/load/uproc_results/write_download_command_file.py:73-113 | a `C-` line changes nothing, a root line sets the collection, a result file under a collection counts and may download, anything else changes nothing |
| DownloadCommands.StepCollection | imicrobe/load/uproc_results/write_download_command_file.py:76-78 | only a header line changes the current collection |
| DownloadCommands.RunStep | imicrobe/load/uproc_results/write_download_command_file.py:72 | the loop handles the lines one at a time, in order |
| DownloadCommands.RunHasCollection | imicrobe/load/uproc_results/write_download_command_file.py:70-78 | there is a current collection exactly when a header line has been read |
| DownloadCommands.RunKeggCount | imicrobe/load/uproc_results/write_download_command_file.py:80-82 | the KEGG count is the number of `.uproc.kegg` lines read after some header |
| DownloadCommands.NotBoth | imicrobe/load/uproc_results/write_download_command_file.py:80-96 | no line is both a KEGG and a Pfam result |
| DownloadCommands.RunPfamCount | imicrobe/load/uproc_results/write_download_command_file.py:96-98 | the Pfam count is the number of `.uproc.pfam28` lines read after some header that are not KEGG lines |
| DownloadCommands.RunDownloadsBound | imicrobe/load/uproc_results/write_download_command_file.py:80-110 | never more downloads than counted result files |
| DownloadCommands.LastHeader | imicrobe/load/uproc_results/write_download_command_file.py:76-78 | the position of the last header line, when there is one |
| DownloadCommands.LastHeaderIs | imicrobe/load/uproc_results/write_download_command_file.py:76-78 | the last header is a header with no header after it, and none means there is no header at all |
| DownloadCommands.RunCollection | imicrobe/load/uproc_results/write_download_command_file.py:70-78 | the current collection is the last header line without its colon |
| DownloadCommands.RunDownloads | imicrobe/load/uproc_results/write_download_command_file.py:80-110 | the downloads are, in line order, exactly the listing lines that are KEGG or Pfam result files under a collection whose local path does not exist, each fetched from its collection to its local path: every download comes from such a line, and every such line gives a download |
| DownloadCommands.HeaderBeforeAtIsLast | imicrobe/load/uproc_results/write_download_command_file.py:76-78 | the collection in force at a line is set by the last root-prefixed line before it |
| DownloadCommands.DownloadAtCounted | imicrobe/load/uproc_results/write_download_command_file.py:80-110 | a line gives a download exactly when it is a counted KEGG or Pfam result file whose local path does not exist |
| DownloadCommands.PickMembers | imicrobe/load/uproc_results/write_download_command_file.py:72-110 | the kept items are exactly the images of the kept line indices |
| DownloadCommands.RunIsWanted | imicrobe/load/uproc_results/write_download_command_file.py:72-110 | the loop's downloads over the first n lines are the wanted downloads of those lines, in order |
| DownloadCommands.LocalPathShape | imicrobe/load/uproc_results/write_download_command_file.py:84-85 | the local file of `root/rel/name` is `target/rel/name`, in directory `target/rel` |
| FilterLines.FilterOut | imicrobe/execute/makeblastdb/filter_lines.py:8-16 | the output is the input filtered by the set of the filter file's lines, each suppressing one occurrence |
| FilterLines.FilteredSubsequence | imicrobe/execute/makeblastdb/filter_lines.py:12-16 | the output keeps input lines in input order |
| FilterLines.FilteredCount | imicrobe/execute/makeblastdb/filter_lines.py:12-16 | a line is written as often as it is read, less one exactly when it is in the filter and occurs at all |
| FilterLines.FirstOccurrenceSuppressed | imicrobe/execute/makeblastdb/filter_lines.py:13-14 | it is the first occurrence of a filter line that is suppressed; later ones pass |
| FilterLines.SuppressedBound | imicrobe/execute/makeblastdb/filter_lines.py:10-16 | the number of suppressed lines is the number of filter lines that occur in the input, never more than the filter's size |
| SplitLines.ColumnIndex | imicrobe/execute/makeblastdb/split_lines.py:29-34 | every position dealt to a group lies inside the input |
| SplitLines.Column | imicrobe/execute/makeblastdb/split_lines.py:29-34 | group `g` receives one line per full round and one more in the partial round when `g` comes before where it stops |
| SplitLines.SplitIntoGroups | imicrobe/execute/makeblastdb/split_lines.py:29-34 | the cycle deals line `i` to group `i mod n`, in order; the groups together hold exactly the input lines; a non-positive count gives no group |
| SplitLines.DealtStep | imicrobe/execute/makeblastdb/split_lines.py:30-34 | appending the next line to the current group and moving round keeps the dealing invariant |
| SplitLines.DealtLines | imicrobe/execute/makeblastdb/split_lines.py:34 | appending a line to a group adds exactly that line to the groups' contents |
| SplitLines.DealtAll | imicrobe/execute/makeblastdb/split_lines.py:30-34 | once every line is dealt, each group is its column |
| SplitLines.LineGoesToGroup | imicrobe/execute/makeblastdb/split_lines.py:30 | line `i` is item `i div n` of group `i mod n` |
| SplitLines.ColumnsBalanced | imicrobe/execute/makeblastdb/split_lines.py:30 | no group gets more than one line more than another |
| SplitLines.ColumnInOrder | imicrobe/execute/makeblastdb/split_lines.py:30-34 | a group keeps its lines in input order |
| SplitLines.Name | imicrobe/execute/makeblastdb/split_lines.py:36 | every group name is two lower-case letters |
| SplitLines.NamesDistinct | imicrobe/execute/makeblastdb/split_lines.py:36-38 | no two groups share a file name |
| SplitLines.NamesInOrder | imicrobe/execute/makeblastdb/split_lines.py:36 | the names come in string order, `aa` first |
| SplitLines.SplitFiles | imicrobe/execute/makeblastdb/split_lines.py:26-40 | `min(n, 676)` files, file `k` named by the prefix and the `k`-th name and holding group `k`'s lines joined |
| KeggJobFile.TargetDirAsWrittenDropsTarget | loaders/uproc_results/kegg/write_copy_uproc_kegg_results_to_iplant_job_file.py:49-51 | as written, the target directory of `source/rel` is `/rel`: the remainder starts with `/`, so the join discards the iRODS target |
| KeggJobFile.TargetDirUnderTarget | loaders/uproc_results/kegg/write_copy_uproc_kegg_results_to_iplant_job_file.py:38-45 | corrected, the target directory of `source/rel` is `target/rel`, and of `source` itself is `target` |
| KeggJobFile.JobLines | loaders/uproc_results/kegg/write_copy_uproc_kegg_results_to_iplant_job_file.py:55-58 | one `imkdir …; iput -K …` line per job, in order |
| KeggJobFile.WriteJobFile | loaders/uproc_results/kegg/write_copy_uproc_kegg_results_to_iplant_job_file.py:30-68 | `write_job_file` writes the lines of the walk's jobs and reports their number |
| KeggJobFile.DirectoryJobs | loaders/uproc_results/kegg/write_copy_uproc_kegg_results_to_iplant_job_file.py:36-62 | the inner loop writes the jobs of one directory and advances the job count by their number |
| KeggJobFile.JobLinesAppend | loaders/uproc_results/kegg/write_copy_uproc_kegg_results_to_iplant_job_file.py:55-58 | the lines of two runs of jobs are the lines of each, in order |
| KeggJobFile.WalkJobsStep | loaders/uproc_results/kegg/write_copy_uproc_kegg_results_to_iplant_job_file.py:35-62 | the walk's jobs are the jobs of each directory in walk order, the count carried across directories |
| KeggJobFile.DirJobsStep | loaders/uproc_results/kegg/write_copy_uproc_kegg_results_to_iplant_job_file.py:37-62 | a non-KEGG file adds nothing; a KEGG file adds its job and ends the directory exactly when the count reaches the limit |
| KeggJobFile.DirJobsPrefix | loaders/uproc_results/kegg/write_copy_uproc_kegg_results_to_iplant_job_file.py:61-62 | a directory's jobs are a prefix of the jobs of all its `.uproc.kegg` files |
| KeggJobFile.DirJobsStopAtLimit | loaders/uproc_results/kegg/write_copy_uproc_kegg_results_to_iplant_job_file.py:60-62 | a directory stops short only because the count has reached a positive limit exactly |
| KeggJobFile.DirJobsComplete | loaders/uproc_results/kegg/write_copy_uproc_kegg_results_to_iplant_job_file.py:61 | without a limit ahead (none, zero, or already passed) every `.uproc.kegg` file of the directory gets a job |
| KeggJobFile.WalkJobsComplete | loaders/uproc_results/kegg/write_copy_uproc_kegg_results_to_iplant_job_file.py:61 | without a limit ahead the walk gives a job for every `.uproc.kegg` file, in walk order |
| KeggJobFile.DirLinesMember | loaders/uproc_results/kegg/write_copy_uproc_kegg_results_to_iplant_job_file.py:36-37 | the reference jobs of a directory are exactly those of its `.uproc.kegg` files |
| KeggJobFile.LimitStopsOnlyItsDirectory | loaders/uproc_results/kegg/write_copy_uproc_kegg_results_to_iplant_job_file.py:61-62 | the `break` leaves only the current directory: with a limit of 1, two directories of one KEGG file each give two jobs |
| MetadataFiles.SearchFrom | imicrobe/write/metadata_files/write_metadata_files.py:35 | the leftmost position from `k` at which a sequence-file ending matches to the end of the path, and none before it |
| MetadataFiles.SuffixStartsWithDot | imicrobe/write/metadata_files/write_metadata_files.py:35 | every sequence-file ending starts with `.` |
| MetadataFiles.MetadataPathShape | imicrobe/write/metadata_files/write_metadata_files.py:51-58 | for a chosen sequence file the metadata path starts with `/iplant/`, ends with `.json`, and is the file's path with its sequence ending replaced |
| MetadataFiles.MatchAfterRoot | imicrobe/write/metadata_files/write_metadata_files.py:51-54 | a chosen file's ending matches after the `/iplant/` prefix |
| MetadataFiles.StemSharesMetadataPath | imicrobe/write/metadata_files/write_metadata_files.py:58 | all sequence files of the same dot-free stem share one metadata path, `stem.json` |
| MetadataFiles.FirstQualifying | imicrobe/write/metadata_files/write_metadata_files.py:49-60 | the first specimen file under `/iplant/` with a sequence ending, and none before it qualifies |
| MetadataFiles.FindFasta | imicrobe/write/metadata_files/write_metadata_files.py:49-60 | the loop with `break` finds the first qualifying file |
| MetadataFiles.ClassifyChosen | imicrobe/write/metadata_files/write_metadata_files.py:45-60 | a chosen sample has a specimen file list, and its metadata path is that of the first qualifying file in it |
| MetadataFiles.ClassifyNoFasta | imicrobe/write/metadata_files/write_metadata_files.py:45-66 | a sample lacks a FASTA file exactly when it has a specimen file list and no file in it qualifies |
| MetadataFiles.CollectStep | imicrobe/write/metadata_files/write_metadata_files.py:40-74 | each sample either sets its metadata path's entry or is appended to one of the two missing lists |
| MetadataFiles.Select | imicrobe/write/metadata_files/write_metadata_files.py:40 | the samples of one outcome, in cursor order, never more than the cursor |
| MetadataFiles.SelectSnoc | imicrobe/write/metadata_files/write_metadata_files.py:40 | selecting from a cursor with one more sample at its end |
| MetadataFiles.CollectMissingInOrder | imicrobe/write/metadata_files/write_metadata_files.py:62-74 | the two missing lists hold exactly the samples of those outcomes, in cursor order |
| MetadataFiles.OutcomesPartition | imicrobe/write/metadata_files/write_metadata_files.py:45-74 | every sample has exactly one of the three outcomes |
| MetadataFiles.ChoseSnoc | imicrobe/write/metadata_files/write_metadata_files.py:59 | a metadata path is chosen by a longer cursor exactly when it was already or the last sample chooses it |
| MetadataFiles.CollectKeysStep | imicrobe/write/metadata_files/write_metadata_files.py:59 | one more sample adds at most its own metadata path to the keys |
| MetadataFiles.CollectKeys | imicrobe/write/metadata_files/write_metadata_files.py:59 | the keys of `samples` are exactly the metadata paths some sample chose |
| MetadataFiles.CollectLastWins | imicrobe/write/metadata_files/write_metadata_files.py:59 | when two samples choose the same metadata path, the later one is kept |
| MetadataFiles.CollectCount | imicrobe/write/metadata_files/write_metadata_files.py:59 | there are never more entries than samples that chose a path |
| MetadataFiles.CollectSamples | imicrobe/write/metadata_files/write_metadata_files.py:37-74 | the loop over the cursor gathers the entries and both missing lists |
| MetadataFiles.Limited | imicrobe/write/metadata_files/write_metadata_files.py:40 | `find(limit=…)` raises a TypeError for no limit (`None`); otherwise it gives a prefix of the collection: all of it for zero, else as many samples as the limit's magnitude allows |
| MetadataFiles.FilesToWrite | imicrobe/write/metadata_files/write_metadata_files.py:82-89 | the paths are checked in sorted order, and exactly those without an existing data object are to be written, with their samples |
| MetadataFiles.WriteSampleMetadataFiles | imicrobe/write/metadata_files/write_metadata_files.py:18-90 | fails exactly when the target collection is missing or the limit is `None`; otherwise gathers the limited cursor and keeps to be written exactly the chosen paths that do not exist yet |

## Left out

- Database setup: engines, reflection, and dropping and creating tables (`main`, `create_tables`, `drop_*`, `load_protein_type_table`, `load_protein_evidence_type_table`, `drop_table`). The tables start as given values.
- Database errors other than the ones the scripts raise themselves, such as lost connections. Of the integrity errors, only the unique protein accession of `UProCResultsService` is enforced: inserting an accession already stored fails, as the flush would. Other unique keys are not checked; `PfamTable` proves that its inserts keep accessions unique.
- `download_pfam_file` and every other network or `requests` failure. The KEGG service is a total function from URL to status and body.
- Argument parsing (`get_args`, `main(argv)`, `cli`) and the `--results-root-dp`/`--uproc-results-fp` dispatch in `main` of imicrobe/load/uproc_results/load_sample_to_uproc_table.py. Both operations it dispatches to are modelled.
- Timing, `print` and standard-error messages, apart from the lines a script writes as its output.
- File decoding and compression: `gzip`, and the `latin-1` decoding with `errors='replace'` of the Pfam-A file. Files are given as their decoded lines.
- `irods_session_manager`, `irods_put`, `irods_data_object_exists` and `irods_collection_exists`. The last three are called by the scripts but are not defined in loader/util/irods.py, and imicrobe/util/irods.py is not part of this model. They become a map update and membership tests on the store.
- `UProCResultsService.get_protein_annotation`: it calls `self.parse_kegg_annotation`, which the class does not define.
- Unicode: whitespace for `strip` and `split` is Python's `str.isspace` set, and strings are compared by code point; no normalisation or case folding.
- `int()`: only a non-empty run of ASCII decimal digits parses. A sign, surrounding blanks and `_` separators are not accepted, although Python accepts them.
- `os.walk` and `os.path.exists`: the walk is an input listing in the order given, and whether the source directory exists is a parameter.
- Local file checksums for `iput -K` are a function parameter.
- The `specimen__file` test of imicrobe/write/metadata_files/write_metadata_files.py:51 lacks its colon, so the script does not compile. The model follows the evident test. The script also writes no files (its copy loop is commented out), so the model ends with the map of files to write.
- `UProCService.SortByReadCount`: does not fix the order of accessions with equal read counts, because `sort_values` with its default algorithm is not stable and the source does not fix it either.
- `.get('PATHWAY', '')` and `.get('MODULE', '')` in the older KEGG loader: an absent field is stored as the empty list of values rather than the empty string.

- UProCResults.ParseUprocLines: rejects a repeated accession and a line without exactly two fields, while `pd.read_csv(index_col=0, header=None)` keeps repeated index labels (a single file then gives one association row per line) and fills missing fields with NaN. Counts stay natural numbers, although after `add(fill_value=0.0)` they are floats and `str(read_count)` stores e.g. `8.0`. Pandas' handling of repeated labels and of NaN and floats is outside the model.
- ParseUprocLinesContents: states the contents only of files with distinct accessions and two fields per line, for the reason given for `UProCResults.ParseUprocLines`.

## Findings

| source | as written | input that shows it | evidently intended | confidence | as-written member | corrected member |
|---|---|---|---|---|---|---|
| loaders/uproc_results/kegg/load_kegg_results_to_uproc_kegg_table.py:467-482 | a line that does not match the field pattern (the `///` separator, an empty line) falls through to the append, so the previous line's value is appended again under the current id and field; when no line has matched yet, the unbound `field_value` raises | response `ENTRY K00001 KO`, `NAME E1.1.1.1`, `///`: NAME of K00001 holds `E1.1.1.1` twice | the separator appends nothing and resets the current id and field, as the comment says and as imicrobe/util/kegg.py:108-112 does | high, not executed | KeggTable.StaleValueReappended | Kegg.SeparatorAppendsNothing |
| loaders/uproc_results/kegg/write_copy_uproc_kegg_results_to_iplant_job_file.py:49-51 | `root[len(fs_source_dir):]` keeps the leading `/`, and `os.path.join` with an absolute second part discards the iRODS target | root `/work/imicrobe/data/projects/1/sample/1` under source `/work/imicrobe/data/projects` with target `/iplant/home/shared/imicrobe/data/projects` gives `/1/sample/1` | `/iplant/home/shared/imicrobe/data/projects/1/sample/1`, as the comment at lines 38-45 says | high, not executed | KeggJobFile.TargetDirAsWrittenDropsTarget | KeggJobFile.TargetDirUnderTarget |
