# mibios import and query core, modelled in Dafny

This project models the core of mibios, a Django application for microbiome study data. It covers four parts:

- **The tabular import engine** (`mibios/load.py`). A loader run is a fold over the data lines of a file.
  - The header is mapped case-insensitively to internal column names.
  - Each data line is stripped, split and filtered into a `row` of valid, non-missing values.
  - A loader-specific `process_row` gets or creates objects in an abstract store.
  - `account` counts objects as new, added or changed and decides when proposed values are written.
  - In warn mode, user errors are skipped and repeated warnings are coalesced.
  - A dry run keeps the report and discards the store.
  - Also modelled: the supplement completeness gate, the `use_data` gate, and the MMP manifest's fastq-name, plate and S-number parsing.
- **The column-spec helpers** (`mibios_umrad/utils.py`): `grouper` and `chunker`, `CSV_Spec` with `cut` and `len`, the progress printer's template classifier, and its `inc` counter.
- **The sequencing models' codecs and import loops** (`mibios_seq/models.py`):
  - `parse_control`;
  - the natural names of `SequencingRun` and `ASV`, and their lookups;
  - the tally loops of `Abundance.from_file`, `ASV.from_fasta` and `Taxonomy.from_blast_top1`, over abstract tables.
- **The table views' query-string state** (`mibios/views.py`): `get_filter_from_url`, `to_query_string`, the `avg_by` check of `AverageMixin.setup`, and `get_sort_by_field`.

Modules:

| module | file | models |
|---|---|---|
| `Basics` | basics.dfy | `Option`, `Result`, and element-level facts about sequences and maps |
| `PyStr` | pystr.dfy | the Python `str` built-ins used: `strip`, `split`, `lower`, `str(int)`, `int(str)`, `zfill`, `in`, `replace`, `lstrip(c)` |
| `LoadStore` | load_store.dfy | field values, ordered assignments, the store with get-or-create, the run's tallies and error kinds |
| `LoadRow` | load_row.dfy | header mapping, `non_empty`, row normalisation, `get_from_row` |
| `LoadAccount` | load_account.dfy | `account` |
| `LoadFields` | load_fields.dfy | `process_supplement`, the `use_data` gate, the MMP manifest row |
| `LoadRun` | load_run.dfy | `process_line`, warning coalescing, `process_file`, `load_file` |
| `Utils` | utils.dfy | `grouper`, `chunker`, `CSV_Spec`, `_init_template`, `inc` |
| `SeqNames` | seq_names.dfy | `parse_control`, `SequencingRun` and `ASV` natural names |
| `SeqAbundance` | seq_abundance.dfy | `Abundance.from_file` |
| `SeqFasta` | seq_fasta.dfy | `ASV.from_fasta`, as written and as intended |
| `SeqBlast` | seq_blast.dfy | `Taxonomy.from_blast_top1`, as written and as intended |
| `ViewQuery` | view_query.dfy | `get_filter_from_url`, `to_query_string`, `avg_by`, `get_sort_by_field` |

Some code is outside the model and appears only as parameters:

- **The ORM.** The store is a sequence of entities indexed by primary key. Get-or-create is modelled by `LoadStore.GetOrCreate`, with Django's semantics: create on no match, return on one match, `MultipleObjectsReturned` on more.
- **The model methods the loader calls.** `obj.compare`, `full_clean`/`save` and `Model.decode_blank` are function-valued parameters (`LoadAccount.Collab`, `LoadRun.Config`).
- **A loader's `process_row`.** It is a parameter of the run (`LoadRun.ProcessRow`).
- **The reader of an ASV name.** The abundance loop, the fasta loop and the URL decoder are stated for any such reading function (`SeqAbundance.Lookup.key`, the `num` parameter of `SeqFasta`, the `dv` parameter of `ViewQuery`). Their file-level functions instantiate it with the code's own reader: `AsvKeyOf`, `AsvNaturalLookup` and `DecodeValue`.

## Model

| member | source | states |
|---|---|---|
| LoadStore.Apply | mibios/load.py:154-155 | the fields after `setattr` of each assignment: exactly the old fields plus the assigned keys, untouched fields keep their values |
| LoadStore.ApplyDistinct | mibios/load.py:154-155 | with distinct keys, every assignment is in effect afterwards |
| LoadStore.GetOrCreate | mibios/load.py:347 | get-or-create: with no match, a new object holding the lookup overridden by the defaults is appended at the end; with one match, that object is returned and the store is unchanged; the call fails exactly when two objects match, and then with `MultipleObjectsReturned` for that model |
| LoadStore.HitsAreMatches | mibios/load.py:347 | the number of matches found tells none, exactly one (the one found), or at least two distinct matching objects |
| LoadStore.Bump | mibios/load.py:136 | a `Counter` increment raises that key's count by one and leaves the others alone |
| LoadStore.AppendChange | mibios/load.py:145-151 | `defaultdict(list)` append: the key's list gains the change at its end, other keys are unchanged |
| LoadRow.Lookup | mibios/load.py:45 | the case-insensitive header dict: `None` exactly when no `COLS` header matches, otherwise the internal name of the last matching entry |
| LoadRow.MapCols | mibios/load.py:46-52 | `cols` has one entry per header, in order: its internal name when it matches a `COLS` header, otherwise the header itself |
| LoadRow.Ignored | mibios/load.py:47-53 | `ignored_columns` holds exactly the headers without a `COLS` entry, and never more entries than there are headers |
| LoadRow.IgnoredKeepName | mibios/load.py:51-53 | an ignored header keeps its own name in `cols` |
| LoadRow.IgnoredAppend | mibios/load.py:47-53 | the ignored headers of two header runs are those of the first followed by those of the second |
| LoadRow.IgnoredOne | mibios/load.py:47-53 | one header is ignored exactly when it has no `COLS` entry |
| LoadRow.NonEmpty | mibios/load.py:161-176 | a value is rejected exactly when it equals a literal `missing_data` entry, matches a pattern entry, or decodes blank |
| LoadRow.EmptyNeverKept | mibios/load.py:39 | with the default `missing_data`, the empty string is never kept |
| LoadRow.RowFields | mibios/load.py:186 | one field more than the stripped line has separators; no field holds the separator or starts or ends with whitespace |
| LoadRow.RowFieldsRoundTrip | mibios/load.py:186 | fields free of the separator and of surrounding whitespace, joined with the separator, read back as those fields |
| LoadRow.StripAll | mibios/load.py:186 | each field is the strip of its piece and has no whitespace at either end |
| LoadRow.Pairs | mibios/load.py:190-195 | the dict comprehension over `zip`: keys are valid, every kept pair's key is present, and each key holds the value of the last kept pair with that key |
| LoadRow.NormalizeRow | mibios/load.py:184-195 | row keys are valid internal names with non-missing values taken from the same column of the line; every valid column with a non-missing field is present; pairing stops at the shorter sequence |
| LoadRow.RowValuesStripped | mibios/load.py:186 | no row value starts or ends with whitespace |
| LoadRow.StripShiftsColumns | mibios/load.py:186 | stripping the whole line first drops an empty first field: with headers `a`, `b`, the line `"\tx"` gives `{a: x}` |
| LoadRow.GetFromRow | mibios/load.py:109-119 | exactly the requested keys present in the row, with their row values; all keys are returned, in request order, exactly when none is missing |
| LoadAccount.Account | mibios/load.py:121-159 | a new object is counted under `new` and validated; otherwise an empty diff changes nothing; a consistent diff is counted under `added`; a conflicting diff is recorded under `changed` with field, current and proposed values; values are written only when consistent or overwriting; on success the object is in `rec` |
| LoadAccount.Diffs | mibios/load.py:147-150 | one triple per differing field, in order, holding its name, its current value and the value `from_row` proposes |
| LoadAccount.Get | mibios/load.py:147-150 | a proposed value is that of the last assignment of the key, and `None` when the key is not assigned |
| LoadAccount.GetIsWritten | mibios/load.py:154-155 | writing `from_row` leaves each assigned field holding its proposed value |
| LoadAccount.FillUnsetIsAddition | mibios/load.py:140-157 | filling an unset field counts as `added` and is written even without overwriting |
| LoadAccount.ReplaceSetIsChange | mibios/load.py:140-157 | replacing a set value is recorded under `changed` with old and new value, and written only when overwriting |
| LoadAccount.AccountTwiceQuiet | mibios/load.py:140-157 | after `from_row` has been written, accounting it again counts and changes nothing |
| LoadFields.SupplementFromRow | mibios/load.py:340-345 | the supplement lookup exists exactly when all three columns are present and none is `NA` |
| LoadFields.ProcessSupplement | mibios/load.py:334-348 | an incomplete supplement is skipped; otherwise the supplement found or created matches the row and is in `rec`, and the store only grows; the only errors are an ambiguous lookup or a new supplement failing validation |
| LoadFields.FindAndAccount | mibios/load.py:347-348 | after get-or-create and `account`, the remembered object matches the lookup and earlier objects are untouched |
| LoadFields.SupplementCreated | mibios/load.py:347-348 | a supplement not yet stored is appended and counted as new |
| LoadFields.SupplementFound | mibios/load.py:347-348 | a supplement stored once is found; only `rec` changes |
| LoadFields.SupplementSecondTimeFound | mibios/load.py:334-348 | processing the same complete supplement twice creates it once; the second time nothing is counted and the store is unchanged |
| LoadFields.UseDataGate | mibios/load.py:427-429 | a row is rejected with `UserDataError` exactly when `use_data` is present and its lower-case is not `yes` |
| LoadFields.YesInAnyCasePasses | mibios/load.py:427-429 | every capitalisation of `yes` passes |
| LoadFields.ParsePlate | mibios/load.py:508-514 | the plate pattern matches exactly the texts `P<digit>-<capital><digits>`; the result is the single-digit plate and the position |
| LoadFields.PlateRoundTrip | mibios/load.py:508-514 | any plate and well position written out reads back |
| LoadFields.PlateParsedIsRendered | mibios/load.py:508-514 | a parsed plate field is exactly the rendering of its parts |
| LoadFields.ParseSnum | mibios/load.py:519-523 | the S-number pattern matches exactly `S` followed by digits, and gives their value |
| LoadFields.SnumRoundTrip | mibios/load.py:519-523 | `S` plus any rendered number reads back as that number |
| LoadFields.PathName | mibios/load.py:501 | a path's name is its longest suffix without `/`: the whole path, or what follows its last `/` |
| LoadFields.Stem | mibios/load.py:499 | a file stem is a prefix of the name; a name whose last `.` is neither first nor last loses exactly the suffix from that `.`, and any other name is kept whole |
| LoadFields.StemRoundTrip | mibios/load.py:499 | a non-empty stem with a `.`-free suffix is what the stem of `stem.suffix` gives back |
| LoadFields.PathNameRoundTrip | mibios/load.py:501 | a `/`-free name under any directory is what the path's name gives back |
| LoadFields.CutAfterSnum | mibios/load.py:499 | the substitution keeps the text up to the first `_S<digits>` and its whole digit run, or all of it when there is none |
| LoadFields.CutAfterSnumIdempotent | mibios/load.py:499 | cutting twice is cutting once |
| LoadFields.MmpFromRow | mibios/load.py:495-525 | a missing read column is a `KeyError`; the checks run in the code's order, each failing with its own `UserDataError`: an r2 name not starting with the file id, then a plate that does not parse, then an S-number that is not a suffix of the name, then one that does not parse; a row passes exactly when none of these applies; on success the name is the file id with `-` as `_`, and the plate, S-number and sample are present exactly when their columns are |
| LoadFields.MmpSequencing | mibios/load.py:487-531 | a parsing error leaves the context as it was; otherwise the record step runs on the parsed fields |
| LoadFields.MmpRecord | mibios/load.py:527-531 | on success the remembered `Sequencing` object carries the parsed name |
| LoadFields.MmpRecordNew | mibios/load.py:527-531 | with no `Sequencing` object of that name, one holding the name with the parsed fields as defaults is appended, counted as new and validated, and remembered on success |
| LoadFields.MmpRecordFound | mibios/load.py:527-531 | the one object of that name is accounted against the parsed fields |
| LoadFields.MmpRecordAmbiguous | mibios/load.py:527-531 | two objects of that name make the row fail with `MultipleObjectsReturned`, with nothing changed |
| LoadFields.MmpRecordAgain | mibios/load.py:527-531 | the object a row created is found by that row again, which counts and writes nothing and remembers it |
| LoadFields.MmpRecordTwice | mibios/load.py:527-531 | a manifest row recorded twice creates its object once; the second time the store, tallies and remembered objects stay as they were |
| LoadRun.NewLoader | mibios/load.py:41-69 | the loader starts with the mapped column of each header, empty tallies and warnings, no pending warning, and exactly the headers without `COLS` entry as ignored |
| LoadRun.Coalesce | mibios/load.py:231-245 | a warning on the line right after the pending one, with the same message, extends it; otherwise the pending one is emitted and a new one starts |
| LoadRun.Flush | mibios/load.py:239-245 | an emitted warning is the line `skipping row: at line <first>: <msg> (<error type>)`, followed by `    (and for next <n> lines)` exactly when it spans several lines |
| LoadRun.Settle | mibios/load.py:196-255 | a row without error is committed; an error escapes unless warn mode is on and it is a validation, integrity or user-data error; a skipped row rolls back the store but keeps what it counted, and records a pending warning for its line |
| LoadRun.ProcessLine | mibios/load.py:178-255 | the line number advances first; an escaping error carries the line number and the normalised row; a line that does not escape is counted |
| LoadRun.ProcessLines | mibios/load.py:85-86 | from line number `n`, a clean run counts every line and ends at line `n + |lines|`; an error names the k-th line (from 0) as line `n + k + 1`, so the first data line after the header is line 2 |
| LoadRun.ProcessFile | mibios/load.py:76-107 | the report is that of the line loop from line 1: it succeeds exactly when the loop does, with the loop's tallies and warnings, and a wet run keeps the loop's store; the store is unchanged by a failing or dry run; the report counts every line and echoes dry-run, overwrite and the ignored columns; a `UserDataError` propagates as is; any other error becomes a `RuntimeError` quoting the line of the file that its cause's line number names (line 2 being the first after the header); which line that is, the first to escape, is stated by `LoadRun.ProcessFileFails` |
| LoadRun.ProcessLinesCons | mibios/load.py:85-86 | the loop's first line either escapes, ending the loop with its failure and its text, or hands the rest of the file to the loader it leaves |
| LoadRun.ProcessLinesAppend | mibios/load.py:85-86 | the loop over two runs of lines is the loop over the first, then, unless a line of it escaped, the loop over the second from where the first left the loader |
| LoadRun.FirstEscape | mibios/load.py:85-86 | when the lines before line `k` run through and line `k` escapes, the loop ends with exactly that line's failure, numbered `n + k + 1`, and that line's text |
| LoadRun.FailureEscapes | mibios/load.py:85-86 | a failed loop has a line that escapes after all lines before it ran through |
| LoadRun.ProcessLinesFails | mibios/load.py:85-86 | the loop fails if and only if some line escapes after all lines before it ran through |
| LoadRun.ProcessFileFails | mibios/load.py:76-104 | `process_file` fails if and only if some line escapes; then the error is the first escaping line's: its failure is the cause, numbered `k + 2` for the `k`-th data line (from 0), it propagates as itself exactly when it is a `UserDataError`, and otherwise the `RuntimeError` quotes that line |
| LoadRun.Conclude | mibios/load.py:88-107 | the end of `process_file`: it succeeds exactly when the loop did, rolling the store back on an error or a dry run; a `UserDataError` escapes as itself and any other error as a `RuntimeError` quoting the line, both caused by the line's error; the report carries the loop's count, tallies, ignored columns and warnings, and the dry-run and overwrite flags |
| LoadRun.LoadFile | mibios/load.py:71-74 | the header line is stripped and split to name the columns; the result is the line loop's over a fresh loader; the report counts every data line and lists exactly the unknown headers |
| LoadRun.DryRunSameReport | mibios/load.py:87-91 | a dry run gives the same report or error as a wet one, except for its flag, and leaves the store as it was |
| LoadRun.ProcessFileIgnoresDryRun | mibios/load.py:76-107 | the same, for `process_file` from any loader state |
| LoadRun.ConcludeDryRun | mibios/load.py:87-107 | the end of `process_file` depends on `dry_run` only through the flag and the store |
| LoadRun.ProcessLinesIgnoresDryRun | mibios/load.py:85-86 | the line loop does not depend on `dry_run` |
| LoadRun.FailingLine | mibios/load.py:196-255 | in warn mode, a failing line is counted and coalesced, with tallies and store unchanged |
| LoadRun.FailingRunCoalesces | mibios/load.py:231-235 | consecutive lines failing with the same message only extend the pending warning |
| LoadRun.AllRowsFailingNoWarnings | mibios/load.py:222-255 | in warn mode, a file whose every line fails with one message reports every line counted, no tallies and no warning at all, because the last pending warning is never emitted |
| LoadRun.CleanRunNoWarnings | mibios/load.py:196-255 | rows that never fail add no warning |
| Utils.Grouper | mibios_umrad/utils.py:296-303 | every group has `n` elements; the groups concatenate to the input plus fewer than `n` fill values; there are ceil(len/n) of them; nothing for `n <= 0` |
| Utils.ChunkerStep | mibios_umrad/utils.py:306-316 | a chunk sequence is a full first chunk followed by the chunks of the rest, or the whole short input |
| Utils.ChunkerSplits | mibios_umrad/utils.py:306-316 | the chunks concatenate to the input; all but the last have size `n`; none is empty; empty input or `n <= 0` gives no chunk |
| Utils.SetupLists | mibios_umrad/utils.py:330-376 | `setup` fails exactly on a non-callable converter; `all_keys` has one entry per declaration; `keys` holds its non-`None` entries; `all_cols` holds the header of each tuple declaration, in order; the converter slots are cut at the key positions, so each is the first converter of a tuple declaration with a key, or `None` |
| Utils.SetupPairs | mibios_umrad/utils.py:340-370 | the key and the converter slot a declaration with a key contributes sit at the same position, the number of keys declared before it |
| Utils.NewCsvSpec | mibios_umrad/utils.py:323-379 | no declaration or a non-callable converter raises `ValueError`; otherwise `len` is the number of declarations, `all_keys`, `keys`, `all_cols` and the converters are as `setup` builds them, `cols` is empty, and `has_header` is set by the last declaration: true exactly when it is a tuple |
| Utils.Cut | mibios_umrad/utils.py:381-387 | the values at the used positions, in order, up to the shorter of `all_keys` and the row, so never more than there are keys |
| Utils.CutIsFilter | mibios_umrad/utils.py:381-387 | `cut` is the row masked by the used positions of `all_keys`, up to the shorter of the two, with the unused positions dropped |
| Utils.InitTemplate | mibios_umrad/utils.py:121-145 | no field: `'{} '` is prefixed and there is no variable; one anonymous field: no variable; one named field: that name; two or more fields, or a malformed template: `ValueError` |
| Utils.InitTemplateSettled | mibios_umrad/utils.py:121-145 | the chosen template holds exactly one field, named by the variable, so classifying it again changes nothing |
| Utils.Inc | mibios_umrad/utils.py:147-160 | `last` becomes the previous count (zero for a fresh printer) and the count grows by `step` |
| Utils.IncCounts | mibios_umrad/utils.py:147-160 | `n` unit increments of a fresh printer leave count `n` and last `n - 1` |
| PyStr.Strip | mibios/load.py:186 | the strip is a contiguous slice with whitespace only outside it and no whitespace at its ends |
| PyStr.Split | mibios/load.py:186 | at least one piece, no piece holds the separator, and joining the pieces gives the text back |
| PyStr.SplitJoin | mibios/load.py:186 | split undoes join for separator-free pieces |
| PyStr.ParseInt | mibios/views.py:202 | `int()` succeeds exactly on an optionally signed decimal literal after stripping |
| PyStr.IntToStrRoundTrip | mibios/views.py:202 | `int(str(i)) == i` for every integer |
| PyStr.ZFillDigits | mibios_seq/models.py:290 | zero-filling a digit string keeps its value |
| SeqNames.ParseControl | mibios_seq/models.py:68-80 | `''` exactly for blank text; otherwise the first control choice in the lower-cased text, else `other`; so always `''` or a choice |
| SeqNames.ChoiceFixed | mibios_seq/models.py:68-80 | every control choice coerces to itself |
| SeqNames.ParseControlIdempotent | mibios_seq/models.py:68-80 | coercing a coerced value changes nothing |
| SeqNames.RunNatural | mibios_seq/models.py:92-94 | a run's name splits at `-` into its serial and its number's digits when the serial has no `-`, and into more than two parts otherwise |
| SeqNames.RunNaturalLookup | mibios_seq/models.py:96-99 | a lookup succeeds exactly when the value splits on `-` into two pieces whose second is an integer, and then gives the first piece and that integer |
| SeqNames.RunNaturalRoundTrip | mibios_seq/models.py:92-99 | a run's name reads back as its serial and number when the serial has no `-` |
| SeqNames.RunSerialWithDash | mibios_seq/models.py:92-99 | a serial holding `-` does not read back |
| SeqNames.AsvNatural | mibios_seq/models.py:287-292 | the primary key exactly when the number is missing or zero; otherwise `ASV` and the number's digits zero-filled to at least five |
| SeqNames.AsvNaturalLookup | mibios_seq/models.py:294-302 | `int` of everything after the first three characters |
| SeqNames.AsvNaturalRoundTrip | mibios_seq/models.py:287-302 | looking up an ASV's name gives back its positive number |
| SeqNames.AsvLookupIgnoresPrefix | mibios_seq/models.py:301-302 | the prefix is not checked: `XYZ42` reads as 42 |
| SeqAbundance.AsvKeyOf | mibios_seq/models.py:221-224 | an ASV key is its parsed number, or the raw name when it does not parse |
| SeqAbundance.FromFile | mibios_seq/models.py:208-240 | the loop computes the fold over the cells: zeros and unknown samples counted, records built in order, the first unknown ASV an error |
| SeqAbundance.TalliedAccounts | mibios_seq/models.py:208-240 | on success every cell is counted once as zero, skipped or a record; `zeros` counts the zero cells, `skipped` the non-zero cells of unknown samples, and the records are exactly those of the remaining cells, in order, none with a zero count |
| SeqAbundance.TalliedFails | mibios_seq/models.py:226-229 | the import fails exactly when a non-zero cell of a known sample names an unknown ASV |
| SeqAbundance.TalliedFirstUnknown | mibios_seq/models.py:226-229 | the error names the first such ASV |
| SeqFasta.Create | mibios_seq/models.py:327 | a create succeeds exactly when the sequence and the number are new (and the number is non-negative), and keeps the table unique |
| SeqFasta.StepAsWritten | mibios_seq/models.py:318-342 | one record as the code handles it keeps the table unique, counts the record and at most one creation, never counts an update, settles the record and files an unparsed id under `irregular` with its ASV; it fails exactly when the lookup by sequence and number misses and the create violates a unique constraint; on success the table is unchanged when the lookup hits and otherwise gains exactly the new ASV at its end |
| SeqFasta.FromFastaAsWritten | mibios_seq/models.py:316-345 | the import as written keeps the table unique, counts every record in `total`, keeps the old table as a prefix with `new` counting the ASVs appended, and adds to `irregular` exactly the ids that do not parse |
| SeqFasta.AsWrittenNeverUpdates | mibios_seq/models.py:327-336 | as written, `updated` never moves |
| SeqFasta.AsWrittenRenumberFails | mibios_seq/models.py:327-336 | as written, re-loading an unnumbered ASV's sequence under an ASV name fails |
| SeqFasta.NumberedRenumberFails | mibios_seq/models.py:327-336 | as written, re-loading an unnumbered ASV's sequence under any id that reads as a number fails |
| SeqFasta.Step | mibios_seq/models.py:307-342 | one record as documented keeps the table unique and extends it, counts the record and at most one creation, settles the record, and files an unparsed id under `irregular` with its ASV; it fails exactly when a new sequence cannot be created, or the found ASV cannot take the id's number; only the found ASV may change, and `updated` grows exactly when an unnumbered ASV takes a non-zero number |
| SeqFasta.StepFound | mibios_seq/models.py:329-336 | a record found by sequence fails exactly when the id's non-zero number differs from the ASV's and cannot be taken (the ASV is numbered, or the number is negative or held by another ASV); on success the table is the same except that an unnumbered ASV takes the number, which is exactly when `updated` grows by one |
| SeqFasta.FromFasta | mibios_seq/models.py:316-345 | a successful import keeps the table unique and extends it, counts every record in `total` and every creation in `new`, and adds to `irregular` exactly the ids that do not parse |
| SeqFasta.FromFastaFails | mibios_seq/models.py:316-345 | the import fails exactly when, for some record, all records before it load and its own step fails |
| SeqFasta.FromFastaFile | mibios_seq/models.py:304-345 | the same as `FromFasta`, with ids read as ASV names; every record settled afterwards; and it fails exactly when some record's step fails after the records before it have loaded |
| SeqFasta.RenumberUpdates | mibios_seq/models.py:332-336 | re-loading an unnumbered ASV under an ASV name with a free number gives it that number and counts one update |
| SeqFasta.FromFastaSettles | mibios_seq/models.py:316-345 | after a successful import every record's sequence is stored, numbered as its id says |
| SeqFasta.FromFastaIrregular | mibios_seq/models.py:316-345 | a record whose id does not parse, and no later record has that id, leaves its id in `irregular` with the primary key of its sequence's ASV |
| SeqFasta.FromFastaKeepsIrregular | mibios_seq/models.py:316-345 | an `irregular` entry whose id no record repeats keeps its value |
| SeqFasta.ReloadQuiet | mibios_seq/models.py:316-345 | loading records that are already settled creates and updates nothing |
| SeqBlast.GetOrCreateTaxon | mibios_seq/models.py:396 | a taxon is found when stored, else created unless its taxid or name clashes or the taxid is negative, which fails with `IntegrityError` |
| SeqBlast.ParseLine | mibios_seq/models.py:382-390 | a line parses exactly when it has eight tab-separated fields, the chosen taxid is an integer and the ASV name reads as a number; the name and taxid are the chosen pair |
| SeqBlast.LineRoundTrip | mibios_seq/models.py:382 | eight tab- and newline-free fields written as a line read back as those fields |
| SeqBlast.InitPending | mibios_seq/models.py:376 | the dict holds every numbered ASV by its number, with its stored taxon |
| SeqBlast.ApplyAsWritten | mibios_seq/models.py:392-401 | an ASV not in the dict is skipped; otherwise the taxon is fetched or created (the only error), and the ASV leaves the dict when it already holds that taxon in memory, else takes it and one update is counted |
| SeqBlast.Apply | mibios_seq/models.py:392-401 | the intended step: as written, except that the ASV stays in the dict with the line's taxon, an update is counted only when its taxon changes, and no other entry changes |
| SeqBlast.Finish | mibios_seq/models.py:407 | the bulk update gives every ASV in the dict its dict taxon and leaves the others as stored |
| SeqBlast.LineStep | mibios_seq/models.py:381-400 | a data line is counted; it fails with `ValueError` exactly when it does not parse; a line that parses goes through the as-written or the intended step on the counted state, and fails, with `IntegrityError`, exactly when its ASV is in the dict and its taxon can be neither found nor created |
| SeqBlast.Lines | mibios_seq/models.py:379-405 | a clean run counts every data line; an error's line number lies within the run's lines; which line it is, the first to fail, is stated by `SeqBlast.FirstFailingLine` |
| SeqBlast.LinesErrorRow | mibios_seq/models.py:402-405 | the error names one of the data lines, by its number counted from the first data line, together with that line's fields |
| SeqBlast.LinesCons | mibios_seq/models.py:379-405 | the loop's first line either fails, ending the loop with an error naming it as the next line with its fields and its step's cause, or hands the rest to the state its step leaves |
| SeqBlast.LinesConcat | mibios_seq/models.py:379-405 | the loop over two runs of lines is the loop over the first, then, unless a line of it failed, the loop over the second from the state the first leaves |
| SeqBlast.FirstFailingLine | mibios_seq/models.py:379-405 | when the lines before data line `k` go through and line `k`'s step fails, the loop's error is exactly that line's: number `total + k + 1`, its fields, its step's cause |
| SeqBlast.LinesFailure | mibios_seq/models.py:379-405 | a failed loop has a line whose step fails after all lines before it went through |
| SeqBlast.LinesFails | mibios_seq/models.py:379-405 | the loop fails if and only if some line's step fails after all lines before it went through |
| SeqBlast.BlastTop1With | mibios_seq/models.py:376-408 | `total` counts the lines after the header; the ASVs keep their numbers and sequences; taxa are only added and stay unique; at most one update per line; an error names one of the data lines, by its number after the header, and its fields; `SeqBlast.BlastTop1Fails` states that it is the first failing line |
| SeqBlast.BlastTop1Fails | mibios_seq/models.py:376-405 | the import, as written or as intended, fails if and only if some data line's step fails after all lines before it went through; the `RuntimeError` then names the first such line, data line `k + 1` for the `k`-th (from 0), with its fields and its step's cause |
| SeqBlast.BlastTop1OneLine | mibios_seq/models.py:376-408 | a file with one data line that parses, and whose taxon can be found or created, imports without error, whether or not the line names a stored ASV |
| SeqBlast.BlastTop1AsWritten | mibios_seq/models.py:376-408 | `from_blast_top1` as written: the same bounds as the intended import (counts, ASVs kept, taxa only added, updates bounded by lines, the error's line) |
| SeqBlast.BlastTop1 | mibios_seq/models.py:376-408 | `from_blast_top1` as intended: the same bounds; which taxon each ASV ends with is stated by `BlastTop1LastLine` and `BlastTop1Untouched` |
| SeqBlast.LinesUpdated | mibios_seq/models.py:397-401 | each data line counts at most one update |
| SeqBlast.BlastTop1LastLine | mibios_seq/models.py:376-408 | as intended, an ASV named by some data line ends with the taxon of the last data line naming it |
| SeqBlast.BlastTop1Untouched | mibios_seq/models.py:376-408 | an ASV no data line names keeps its stored taxon |
| SeqBlast.LinesLastSets | mibios_seq/models.py:379-401 | from any state where an ASV is in the dict, the ASV ends with the taxon of the last line naming it |
| SeqBlast.LinesKeepOther | mibios_seq/models.py:379-401 | lines that do not name an ASV leave the taxon it would end with alone |
| SeqBlast.LinesAppend | mibios_seq/models.py:379-405 | the line loop over two runs of lines is the loop over the first followed by the loop over the second |
| SeqBlast.ApplySetsTaxon | mibios_seq/models.py:396-401 | the intended step gives the line's ASV the line's taxon and leaves every other ASV's outcome alone |
| SeqBlast.AsWrittenRepeatLosesUpdate | mibios_seq/models.py:397-401 | as written, the same line twice counts an update but leaves the stored taxon unchanged |
| SeqBlast.RepeatKeepsUpdate | mibios_seq/models.py:397-401 | as intended, the same line twice leaves the ASV with the line's taxon and counts the update once |
| ViewQuery.DecodeValue | mibios/views.py:198-204 | `NULL` is `None`, an integer literal is its integer, any other text stays text |
| ViewQuery.ValueRoundTrip | mibios/views.py:198-204 | any value written out reads back, except text that reads as `NULL` or as an integer |
| ViewQuery.AfterFirst | mibios/views.py:197 | the text after the first `-`, empty without one |
| ViewQuery.GetFilterFromUrl | mibios/views.py:183-229 | the filter and negation of the decoded state, and its exclude groups in order without their indices |
| ViewQuery.DecodeFails | mibios/views.py:208 | decoding fails exactly when an exclude name does not split into three parts |
| ViewQuery.DecodeNegate | mibios/views.py:220-221 | `negate` holds exactly when the negation parameter is present |
| ViewQuery.DecodeFilterKeys | mibios/views.py:196-205 | the filter has exactly the keys that some filter parameter names |
| ViewQuery.DecodeFilterLast | mibios/views.py:196-205 | each filter key holds the decoded value of the last parameter naming it |
| ViewQuery.DecodeGroups | mibios/views.py:207-218 | the exclude groups have distinct indices, one for each index some parameter names |
| ViewQuery.DecodeGroupKeys | mibios/views.py:207-218 | each group holds exactly the keys the parameters naming its index set |
| ViewQuery.DecodeGroupLast | mibios/views.py:207-218 | each group key holds the decoded value of the last parameter setting it |
| ViewQuery.DecodeGroupOrder | mibios/views.py:216-227 | the groups come in the order their indices were first seen |
| ViewQuery.DropWithout | mibios/views.py:247-256 | a non-dict, non-list element raises; a dict drops a key only when it holds it with an equal value; a list present in the excludes empties them |
| ViewQuery.ToQueryString | mibios/views.py:231-267 | the filter is the merge minus what `without` drops; the excludes are concatenated unless emptied; negation is off without filter or exclude, otherwise toggled when asked |
| ViewQuery.AddThenDrop | mibios/views.py:244-251 | adding new filter keys and dropping them again gives back the view's own filter |
| ViewQuery.NegateTwice | mibios/views.py:258-262 | negating twice returns to the current flag |
| ViewQuery.AvgBy | mibios/views.py:876-886 | empty `avg_by` gives no grouping; otherwise its parts are accepted exactly when their set is one of the `average_by` entries, else 404 |
| ViewQuery.AvgByAnyOrder | mibios/views.py:881-883 | any order of an entry's fields is accepted, and kept in the URL's order |
| ViewQuery.SortByField | mibios/views.py:397-405 | the parameter without leading `-` when that is one of the fields, else none |
| ViewQuery.SortByDescending | mibios/views.py:401 | descending and ascending orderings name the same field |

## Left out

- The Django ORM, transactions and change records (`add_change_record`, `note.add`). The store is an abstract sequence with get-or-create. A row's or a run's rollback is "the store as it was before".
- The model methods the loader calls (`obj.compare`, `full_clean`/`save`, `Model.decode_blank`). They are parameters; `LoadAccount.FieldCompare` is one concrete `compare`, used by the accounting lemmas.
- `GeneralLoader` and `SampleMasterLoader`: they depend on model introspection and `DeepRecord`, which are not part of this model.
- `process_semester`, `process_participant`, `process_week`, `process_sample_id` and `process_note`: they call `natural_lookup` methods of models that are not part of this model. The MMP loader is modelled from its file-name parsing onwards; its first three steps are left out.
- The rest of `SequencingLoader.process_row` after the `use_data` gate, for the same reason.
- `ProgressPrinter` beyond `_init_template` and the counter of `inc`: timers, threads, rate estimates and printing.
- Parsing of the input files: `MothurShared` and pandas for the shared table, `Bio.SeqIO` for fasta. The loops take their parsed records.
- `build_query_string` (Django `slugify`/`urlencode`), the rest of the views, and `mibios/tables.py` apart from its `NONE_LOOKUP` constant.
- `str(Path(p))` normalisation (repeated or trailing `/`, `.` parts). Paths are taken as written.
- `casefold` and `lower` beyond ASCII letters.
- `int()` accepts underscores between digits and non-ASCII digits. The model accepts only an optional sign and ASCII digits, after stripping whitespace.
- The query string is a sequence of (name, value) pairs, one value per name. Django's `QueryDict.items()` reports the last value of a repeated name at its first position, and that is not modelled.
- `SeqBlast.InitPending`: the code's dict also holds the unnumbered ASVs under the key `None`. No line reads as `None`, so they are never touched; the model leaves them out.
- `LoadRun.ProcessFile`: `count` and the line numbers are those of the data lines read.
- `SeqBlast.BlastTop1With`: the error's line number counts the data lines only, as `total` does in the code (the header is not counted).
- `SeqBlast.ChosenTaxon` follows the code's test `lcname and lcname`, which looks only at the name column. The documented tie rule (both LCA columns present) is not what runs.
- `LoadRun.ProcessFile`: an ambiguous lookup (`MultipleObjectsReturned`) is not caught as a user error. It is not one of the error types the warn-mode handler at line 205 catches, so it escapes even in warn mode and becomes a `RuntimeError`.
- `LoadRun.AllRowsFailingNoWarnings`: the pending coalesced warning is never emitted at the end of `process_file`. This is modelled as written.
- `ViewQuery.DropWithout`: a list in `without` that is an element of the exclude list empties the whole list, not just that element, because the comprehension at line 253 tests `i not in elist` rather than anything about `j`. The model follows the code.

## Findings

| source | as written | input that shows it | evidently intended | confidence | as-written member | corrected member |
|---|---|---|---|---|---|---|
| mibios_seq/models.py:327-336 | `get_or_create(sequence=..., number=n)` looks the ASV up by sequence and number, so an existing ASV without a number is never found. The create then violates the unique sequence, and `updated` can never move. | An ASV with sequence `s` and no number, then a fasta record `>ASV00007` with sequence `s` | Look up by sequence only, then give an unnumbered ASV the id's number and count it under `updated`, as the docstring at lines 312-313 says | not executed | SeqFasta.AsWrittenRenumberFails | SeqFasta.RenumberUpdates |
| mibios_seq/models.py:397-401 | An ASV leaves the update dict when its in-memory taxon equals the line's. A second line repeating the first line's new taxon therefore drops the ASV with its unsaved change, and any later line for that ASV is skipped. | An ASV stored with taxon `T0`, then two data lines both assigning `T1` | Keep the ASV in the dict and give it the line's taxon, counting an update only when the taxon changes; the ASV ends with `T1`, the taxon of the last line naming it, and one update is counted | not executed | SeqBlast.AsWrittenRepeatLosesUpdate | SeqBlast.RepeatKeepsUpdate |
