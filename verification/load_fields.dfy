/**
 * The loader-specific row steps: the supplement completeness gate, the
 * `use_data` gate of the sequencing loader, and the MMP manifest's parsing of
 * fastq file names, plate positions and S-numbers into a `Sequencing` record.
 */
module LoadFields {
  import opened Basics
  import opened PyStr
  import opened LoadStore
  import opened LoadAccount
  import opened LoadRow

  // ---------------------------------------------------------------------------
  // Supplement

  const SupplementKeys: seq<string> := ["frequency", "dose", "composition"]

  /** All three supplement columns are present and none of them is `'NA'`. */
  predicate SupplementComplete(row: map<string, string>) {
    forall k :: k in SupplementKeys ==> k in row && row[k] != "NA"
  }

  /** The supplement's lookup: the three columns in order. */
  function SupplementLookup(row: map<string, string>): Assignments
    requires SupplementComplete(row)
  {
    [("frequency", Str(row["frequency"])), ("dose", Str(row["dose"])), ("composition", Str(row["composition"]))]
  }

  /** `get_from_row('frequency', 'dose', 'composition')` when it passes the
      completeness gate, `None` when the step is skipped. */
  function SupplementFromRow(row: map<string, string>): (r: Option<Assignments>)
    ensures r.Some? <==> SupplementComplete(row)
    ensures r.Some? ==> r.value == SupplementLookup(row)
  {
    var fromRow := GetFromRow(row, SupplementKeys);
    if |fromRow| < 3 then None
    else if exists i :: 0 <= i < |fromRow| && fromRow[i].1 == Str("NA") then
      assert !SupplementComplete(row) by {
        var i :| 0 <= i < |fromRow| && fromRow[i].1 == Str("NA");
        assert row[SupplementKeys[i]] == "NA";
      }
      None
    else
      assert SupplementComplete(row) by {
        forall k | k in SupplementKeys ensures k in row && row[k] != "NA" {
          var i :| 0 <= i < 3 && SupplementKeys[i] == k;
          assert fromRow[i].1 == Str(row[k]);
        }
      }
      Some(fromRow)
  }

  /** `process_supplement()`: with all three supplement columns present and none
      of them `'NA'`, get or create the supplement and account for it. */
  function ProcessSupplement(c: Collab, overwrite: bool, ctx: RowCtx, row: map<string, string>): (r: Step)
    // an incomplete supplement is skipped
    ensures !SupplementComplete(row) ==> r == Step(ctx, None)
    // otherwise the row's supplement is found or created and remembered
    ensures SupplementComplete(row) && r.err.None? ==>
              && "supplement" in r.ctx.rec && r.ctx.rec["supplement"] < |r.ctx.store|
              && Matches(r.ctx.store[r.ctx.rec["supplement"]], "supplement", SupplementLookup(row))
              && |r.ctx.store| >= |ctx.store| && r.ctx.store[..|ctx.store|] == ctx.store
    // the possible errors: an ambiguous lookup, or a new supplement failing validation
    ensures r.err.Some? && r.err.value.kind != OtherError("MultipleObjectsReturned") ==>
              |r.ctx.store| == |ctx.store| + 1 && r.err == c.check(r.ctx.store[|ctx.store|])
  {
    match SupplementFromRow(row)
    case None => Step(ctx, None)
    case Some(lookup) =>
      SupplementKeysDistinct(row);
      FindAndAccount(c, overwrite, ctx, "supplement", lookup)
  }

  lemma SupplementKeysDistinct(row: map<string, string>)
    requires SupplementComplete(row)
    ensures DistinctKeys(SupplementLookup(row))
  {
  }

  /** An object created from a lookup with distinct keys matches it. */
  lemma CreatedMatches(model: string, lookup: Assignments)
    requires DistinctKeys(lookup)
    ensures Matches(Entity(model, Apply(Apply(map[], lookup), [])), model, lookup)
  {
    ApplyDistinct(map[], lookup);
  }

  /** `obj, new = Model.objects.get_or_create(**lookup)` followed by
      `account(obj, new)`: the object found or created is remembered. */
  function FindAndAccount(c: Collab, overwrite: bool, ctx: RowCtx, model: string, lookup: Assignments): (r: Step)
    requires DistinctKeys(lookup)
    ensures r.err.None? ==>
              && model in r.ctx.rec && r.ctx.rec[model] < |r.ctx.store|
              && Matches(r.ctx.store[r.ctx.rec[model]], model, lookup)
              && |r.ctx.store| >= |ctx.store| && r.ctx.store[..|ctx.store|] == ctx.store
    ensures r.err.Some? && r.err.value.kind != OtherError("MultipleObjectsReturned") ==>
              |r.ctx.store| == |ctx.store| + 1 && r.err == c.check(r.ctx.store[|ctx.store|])
  {
    match GetOrCreate(ctx.store, model, lookup, [])
    case Err(e) => Step(ctx, Some(e))
    case Ok((st, pk, isNew)) =>
      if isNew then
        CreatedMatches(model, lookup);
        Account(c, overwrite, ctx.(store := st), pk, isNew, None)
      else
        Account(c, overwrite, ctx.(store := st), pk, isNew, None)
  }

  /** A complete supplement not yet in the store is created at the end of it
      and counted as new. */
  lemma SupplementCreated(c: Collab, overwrite: bool, ctx: RowCtx, row: map<string, string>)
    requires SupplementComplete(row)
    requires forall p :: 0 <= p < |ctx.store| ==> !Matches(ctx.store[p], "supplement", SupplementLookup(row))
    ensures var r := ProcessSupplement(c, overwrite, ctx, row);
            && r.ctx.stats.created == Bump(ctx.stats.created, "supplement")
            && r.ctx.store == ctx.store + [Entity("supplement", Apply(Apply(map[], SupplementLookup(row)), []))]
  {
    var lookup := SupplementLookup(row);
    var g := GetOrCreate(ctx.store, "supplement", lookup, []);
    assert g.Ok? && g.value.2;
  }

  /** A complete supplement already stored exactly once is found: only the
      record accumulator changes. */
  lemma SupplementFound(c: Collab, overwrite: bool, ctx: RowCtx, row: map<string, string>, pk: nat)
    requires SupplementComplete(row)
    requires pk < |ctx.store| && Matches(ctx.store[pk], "supplement", SupplementLookup(row))
    requires forall p :: 0 <= p < |ctx.store| && Matches(ctx.store[p], "supplement", SupplementLookup(row)) ==> p == pk
    ensures var r := ProcessSupplement(c, overwrite, ctx, row);
            && r.err.None? && r.ctx.stats == ctx.stats && r.ctx.store == ctx.store
            && r.ctx.rec == ctx.rec["supplement" := pk]
  {
    var g := GetOrCreate(ctx.store, "supplement", SupplementLookup(row), []);
    assert g.Ok? && !g.value.2 && g.value.1 == pk;
  }

  /** Loading the same complete supplement twice creates it once: the second
      time it is found, nothing is counted and the store is unchanged. */
  lemma SupplementSecondTimeFound(c: Collab, overwrite: bool, ctx: RowCtx, row: map<string, string>)
    requires SupplementComplete(row)
    requires forall p :: 0 <= p < |ctx.store| ==> !Matches(ctx.store[p], "supplement", SupplementLookup(row))
    ensures var r1 := ProcessSupplement(c, overwrite, ctx, row);
            var r2 := ProcessSupplement(c, overwrite, r1.ctx, row);
            && r1.ctx.stats.created == Bump(ctx.stats.created, "supplement")
            && r2.err.None? && r2.ctx.stats == r1.ctx.stats && r2.ctx.store == r1.ctx.store
  {
    var r1 := ProcessSupplement(c, overwrite, ctx, row);
    var lookup := SupplementLookup(row);
    var e := Entity("supplement", Apply(Apply(map[], lookup), []));
    SupplementCreated(c, overwrite, ctx, row);
    SupplementKeysDistinct(row);
    CreatedMatches("supplement", lookup);
    OnlyLastMatches(ctx.store, e, lookup);
    SupplementFound(c, overwrite, r1.ctx, row, |ctx.store|);
  }

  /** An object appended to a store where nothing matched is the only match. */
  lemma OnlyLastMatches(st: Store, e: Entity, lookup: Assignments)
    requires forall p :: 0 <= p < |st| ==> !Matches(st[p], e.model, lookup)
    requires Matches(e, e.model, lookup)
    ensures Matches((st + [e])[|st|], e.model, lookup)
    ensures forall p :: 0 <= p < |st + [e]| && Matches((st + [e])[p], e.model, lookup) ==> p == |st|
  {
  }

  // ---------------------------------------------------------------------------
  // Sequencing loader

  /** The `use_data` gate: a present `use_data` that is not `yes` in any case
      rejects the row. */
  function UseDataGate(row: map<string, string>): (r: Option<LoadError>)
    ensures r.Some? <==> "use_data" in row && Lower(row["use_data"]) != "yes"
    ensures r.Some? ==> r.value.kind == UserDataError
  {
    if "use_data" in row && Lower(row["use_data"]) != "yes" then
      Some(LoadError(UserDataError, "encountered use_data!=yes"))
    else None
  }

  /** Any capitalisation of `yes` passes the gate. */
  lemma YesInAnyCasePasses(row: map<string, string>)
    requires "use_data" in row && |row["use_data"]| == 3
    requires LowerChar(row["use_data"][0]) == 'y' && LowerChar(row["use_data"][1]) == 'e'
             && LowerChar(row["use_data"][2]) == 's'
    ensures UseDataGate(row).None?
  {
    assert Lower(row["use_data"]) == "yes";
  }

  // ---------------------------------------------------------------------------
  // MMP manifest loader

  predicate IsUpper(c: char) { 'A' <= c <= 'Z' }

  /** The text `^P([0-9])-([A-Z][0-9]+)$` matches (row values carry no newline). */
  predicate PlateSyntax(s: string) {
    |s| >= 5 && s[0] == 'P' && IsDigit(s[1]) && s[2] == '-' && IsUpper(s[3]) && AllDigits(s[4..])
  }

  /** The plate field's plate number and well position, `None` when the
      pattern does not match. */
  function ParsePlate(s: string): (r: Option<(nat, string)>)
    ensures r.Some? <==> PlateSyntax(s)
    ensures r.Some? ==> r.value.0 < 10 && r.value.1 == s[3..]
  {
    if PlateSyntax(s) then Some((s[1] as int - '0' as int, s[3..])) else None
  }

  /** The plate field written for plate `d` at position `pos`. */
  function PlateText(d: nat, pos: string): string
    requires d < 10
  {
    "P" + [DigitChar(d)] + "-" + pos
  }

  /** Parsing gives back the plate and position of any well-formed field. */
  lemma PlateRoundTrip(d: nat, pos: string)
    requires d < 10 && |pos| >= 2 && IsUpper(pos[0]) && AllDigits(pos[1..])
    ensures ParsePlate(PlateText(d, pos)) == Some((d, pos))
  {
    var s := PlateText(d, pos);
    assert s[4..] == pos[1..];
    assert s[3..] == pos;
  }

  /** A parsed plate field is exactly the rendering of its parts. */
  lemma PlateParsedIsRendered(s: string)
    requires ParsePlate(s).Some?
    ensures PlateText(ParsePlate(s).value.0, ParsePlate(s).value.1) == s
  {
    assert s == [s[0]] + [s[1]] + [s[2]] + s[3..];
  }

  /** `re.match(r'^S([0-9]+$)', s)` and `int` of its group. */
  function ParseSnum(s: string): (r: Option<nat>)
    ensures r.Some? <==> |s| >= 2 && s[0] == 'S' && AllDigits(s[1..])
    ensures r.Some? ==> r.value == DigitsValue(s[1..])
  {
    if |s| >= 2 && s[0] == 'S' && AllDigits(s[1..]) then Some(DigitsValue(s[1..])) else None
  }

  /** `ParseSnum` reads back any rendered S-number. */
  lemma SnumRoundTrip(n: nat)
    ensures ParseSnum("S" + NatToStr(n)) == Some(n)
  {
    var s := "S" + NatToStr(n);
    assert s[1..] == NatToStr(n);
    NatToStrValue(n);
  }

  /** The last position of `c` in `s`, `-1` if none (`str.rfind`). */
  function RFind(s: string, c: char): (i: int)
    ensures -1 <= i < |s|
    ensures i >= 0 ==> s[i] == c
    ensures forall j :: i < j < |s| ==> s[j] != c
  {
    if |s| == 0 then -1
    else if s[|s| - 1] == c then |s| - 1
    else RFind(s[..|s| - 1], c)
  }

  /** `PurePath(p).name`: the text after the last `/`. */
  function PathName(p: string): (r: string)
    ensures '/' !in r
    ensures |r| <= |p| && r == p[|p| - |r|..]
    ensures |r| < |p| ==> p[|p| - |r| - 1] == '/'
  {
    p[RFind(p, '/') + 1..]
  }

  /** `PurePath.stem` of a file name: drop the last suffix, unless the only dot
      is the first or the last character. */
  function Stem(name: string): (r: string)
    ensures StartsWith(name, r)
    ensures 0 < RFind(name, '.') < |name| - 1 ==> r == name[..RFind(name, '.')]
    ensures r != name ==> RFind(name, '.') == |r| && 0 < |r| < |name| - 1
  {
    var i := RFind(name, '.');
    if 0 < i < |name| - 1 then name[..i] else name
  }

  /** The last `/` of a path followed by a slash-free name is the one before the name. */
  lemma PathNameRoundTrip(dir: string, name: string)
    requires '/' !in name
    ensures PathName(dir + "/" + name) == name
  {
    var p := dir + "/" + name;
    var i := RFind(p, '/');
    assert p[|dir|] == '/';
    assert forall j :: |dir| < j < |p| ==> p[j] == name[j - |dir| - 1];
    assert i == |dir|;
    assert p[i + 1..] == name;
  }

  /** A name with a dot-free, non-empty suffix after a non-empty stem loses
      exactly that suffix. */
  lemma StemRoundTrip(stem: string, ext: string)
    requires |stem| > 0 && |ext| > 0 && '.' !in ext
    ensures Stem(stem + "." + ext) == stem
  {
    var n := stem + "." + ext;
    var i := RFind(n, '.');
    assert n[|stem|] == '.';
    assert forall j :: |stem| < j < |n| ==> n[j] == ext[j - |stem| - 1];
    assert i == |stem|;
    assert n[..i] == stem;
  }

  /** Is there `_S` followed by a digit at position `k`? */
  predicate SnumAt(s: string, k: int) {
    0 <= k && k + 3 <= |s| && s[k] == '_' && s[k + 1] == 'S' && IsDigit(s[k + 2])
  }

  /** The leftmost position from `from` on where `SnumAt` holds. */
  function FirstSnumFrom(s: string, from: nat): (r: Option<nat>)
    requires from <= |s|
    ensures r.Some? ==> from <= r.value && SnumAt(s, r.value)
    ensures forall k :: from <= k && (r.None? || k < r.value) ==> !SnumAt(s, k)
    decreases |s| - from
  {
    if from + 3 > |s| then None
    else if SnumAt(s, from) then Some(from)
    else FirstSnumFrom(s, from + 1)
  }

  /** Length of the run of digits starting at `j`. */
  function DigitRun(s: string, j: nat): (n: nat)
    requires j <= |s|
    ensures j + n <= |s| && AllDigits(s[j..j + n])
    ensures j + n < |s| ==> !IsDigit(s[j + n])
    decreases |s| - j
  {
    if j < |s| && IsDigit(s[j]) then
      var n := DigitRun(s, j + 1);
      assert s[j..j + 1 + n] == [s[j]] + s[j + 1..j + 1 + n];
      1 + n
    else 0
  }

  /** `re.sub(r'(_S[0-9]+).*', r'\1', s)`: cut everything after the first
      `_S<digits>`; the first match runs to the end of the text, so there is no
      second one. */
  function CutAfterSnum(s: string): (r: string)
    ensures StartsWith(s, r)
    ensures FirstSnumFrom(s, 0).None? ==> r == s
    ensures FirstSnumFrom(s, 0).Some? ==>
              var k := FirstSnumFrom(s, 0).value;
              && |r| >= k + 3 && SnumAt(r, k) && AllDigits(r[k + 2..])
              && (|r| < |s| ==> !IsDigit(s[|r|]))
  {
    match FirstSnumFrom(s, 0)
    case None => s
    case Some(k) =>
      var n := DigitRun(s, k + 2);
      assert s[k + 2..k + 2 + n] == s[..k + 2 + n][k + 2..];
      s[..k + 2 + n]
  }

  /** Cutting twice is cutting once. */
  lemma CutAfterSnumIdempotent(s: string)
    ensures CutAfterSnum(CutAfterSnum(s)) == CutAfterSnum(s)
  {
    var r := CutAfterSnum(s);
    var f := FirstSnumFrom(s, 0);
    if f.Some? {
      var k := f.value;
      assert forall j :: 0 <= j < k ==> (SnumAt(r, j) <==> SnumAt(s, j));
      var g := FirstSnumFrom(r, 0);
      assert g == Some(k);
      var n := DigitRun(r, k + 2);
      assert k + 2 + n == |r|;
    } else {
    }
  }

  /** The keys of the `Sequencing` record built from an MMP row, in order. */
  datatype MmpFields = MmpFields(
    r1: string, r2: string, name: string, plate: Option<(nat, string)>, snumber: Option<nat>, sample: Option<nat>)

  /** The `Sequencing` lookup and `from_row` values. */
  function MmpAssignments(f: MmpFields): Assignments {
    [("r1_file", Str(f.r1)), ("r2_file", Str(f.r2)), ("name", Str(f.name))]
    + (if f.plate.Some? then [("plate", Int(f.plate.value.0)), ("plate_position", Str(f.plate.value.1))] else [])
    + (if f.snumber.Some? then [("snumber", Int(f.snumber.value))] else [])
    + (if f.sample.Some? then [("sample", Ref(f.sample.value))] else [])
  }

  /** The fastq file id of a read file: its stem cut after the S-number. */
  function FastqId(r1: string): string {
    CutAfterSnum(Stem(PathName(r1)))
  }

  /** The parsing part of `MMPManifestLoader.process_row`: file names, plate and
      S-number, with the user errors it raises (a missing read column is a
      `KeyError`). */
  function MmpFromRow(row: map<string, string>, rec: map<string, nat>): (r: Result<MmpFields, LoadError>)
    ensures "r1" !in row || "r2" !in row ==> r == Err(LoadError(OtherError("KeyError"), if "r1" !in row then "r1" else "r2"))
    ensures "r1" in row && "r2" in row && !StartsWith(PathName(row["r2"]), FastqId(row["r1"])) ==>
              r == Err(LoadError(UserDataError, "fastq file name inconsistency"))
    ensures r.Ok? ==>
              && "r1" in row && "r2" in row
              && r.value.r1 == row["r1"] && r.value.r2 == row["r2"]
              && StartsWith(PathName(row["r2"]), FastqId(row["r1"]))
              && r.value.name == ReplaceChar(FastqId(row["r1"]), '-', '_')
              && (r.value.plate.Some? <==> "plate" in row)
              && ("plate" in row ==> r.value.plate == ParsePlate(row["plate"]))
              && (r.value.snumber.Some? <==> "snum" in row)
              && ("snum" in row ==> EndsWith(r.value.name, row["snum"]) && r.value.snumber == ParseSnum(row["snum"]))
              && (r.value.sample.Some? <==> "fecalsample" in rec)
              && ("fecalsample" in rec ==> r.value.sample == Some(rec["fecalsample"]))
    ensures r.Err? && r.error.kind == UserDataError ==>
              || r.error.msg == "fastq file name inconsistency"
              || ("plate" in row && ParsePlate(row["plate"]).None? && r.error.msg == "Failed parsing plate field")
              || ("snum" in row && r.error.msg == "S-number is inconsistent with filenames")
              || ("snum" in row && ParseSnum(row["snum"]).None? && r.error.msg == "Failed parsing s-number")
    // past the file-name check, the plate and S-number checks in the code's order
    ensures "r1" in row && "r2" in row && StartsWith(PathName(row["r2"]), FastqId(row["r1"])) ==>
              var name := ReplaceChar(FastqId(row["r1"]), '-', '_');
              var plateOk := "plate" in row ==> ParsePlate(row["plate"]).Some?;
              && (!plateOk ==> r == Err(LoadError(UserDataError, "Failed parsing plate field")))
              && (plateOk && "snum" in row && !EndsWith(name, row["snum"]) ==>
                    r == Err(LoadError(UserDataError, "S-number is inconsistent with filenames")))
              && (plateOk && "snum" in row && EndsWith(name, row["snum"]) && ParseSnum(row["snum"]).None? ==>
                    r == Err(LoadError(UserDataError, "Failed parsing s-number")))
    // a row passing every check is parsed
    ensures r.Ok? <==>
              && "r1" in row && "r2" in row && StartsWith(PathName(row["r2"]), FastqId(row["r1"]))
              && ("plate" in row ==> ParsePlate(row["plate"]).Some?)
              && ("snum" in row ==> EndsWith(ReplaceChar(FastqId(row["r1"]), '-', '_'), row["snum"])
                                    && ParseSnum(row["snum"]).Some?)
  {
    if "r1" !in row then Err(LoadError(OtherError("KeyError"), "r1"))
    else if "r2" !in row then Err(LoadError(OtherError("KeyError"), "r2"))
    else
      var r1 := row["r1"];
      var r2 := row["r2"];
      var fq := FastqId(r1);
      if !StartsWith(PathName(r2), fq) then Err(LoadError(UserDataError, "fastq file name inconsistency"))
      else
        var name := ReplaceChar(fq, '-', '_');
        var plate := if "plate" in row then ParsePlate(row["plate"]) else None;
        if "plate" in row && plate.None? then Err(LoadError(UserDataError, "Failed parsing plate field"))
        else if "snum" in row && !EndsWith(name, row["snum"]) then
          Err(LoadError(UserDataError, "S-number is inconsistent with filenames"))
        else if "snum" in row && ParseSnum(row["snum"]).None? then
          Err(LoadError(UserDataError, "Failed parsing s-number"))
        else
          var snumber := if "snum" in row then ParseSnum(row["snum"]) else None;
          var sample := if "fecalsample" in rec then Some(rec["fecalsample"]) else None;
          Ok(MmpFields(r1, r2, name, plate, snumber, sample))
  }

  /** The `Sequencing` step of the MMP loader: parse the row, then record it. */
  function MmpSequencing(c: Collab, overwrite: bool, ctx: RowCtx, row: map<string, string>): (r: Step)
    ensures MmpFromRow(row, ctx.rec).Err? ==> r == Step(ctx, Some(MmpFromRow(row, ctx.rec).error))
    ensures MmpFromRow(row, ctx.rec).Ok? ==> r == MmpRecord(c, overwrite, ctx, MmpFromRow(row, ctx.rec).value)
  {
    match MmpFromRow(row, ctx.rec)
    case Err(e) => Step(ctx, Some(e))
    case Ok(f) => MmpRecord(c, overwrite, ctx, f)
  }

  /** Get or create the `Sequencing` record by name, with the parsed fields as
      defaults, and account for it with them as `from_row`. */
  function MmpRecord(c: Collab, overwrite: bool, ctx: RowCtx, f: MmpFields): (r: Step)
    ensures r.err.None? ==>
              && "sequencing" in r.ctx.rec && r.ctx.rec["sequencing"] < |r.ctx.store|
              && FieldOf(r.ctx.store[r.ctx.rec["sequencing"]], "name") == Str(f.name)
  {
    var fromRow := MmpAssignments(f);
    var lookup := NameLookup(f);
    match GetOrCreate(ctx.store, "sequencing", lookup, fromRow)
    case Err(e) => Step(ctx, Some(e))
    case Ok((st, pk, isNew)) =>
      MmpNamed(c, overwrite, ctx, f, st, pk, isNew);
      Account(c, overwrite, ctx.(store := st), pk, isNew, Some(fromRow))
  }

  /** No record of that name: one is created from the parsed fields and
      counted. */
  lemma MmpRecordNew(c: Collab, overwrite: bool, ctx: RowCtx, f: MmpFields)
    requires forall p :: 0 <= p < |ctx.store| ==> !Matches(ctx.store[p], "sequencing", NameLookup(f))
    ensures var r := MmpRecord(c, overwrite, ctx, f);
            && r.ctx.store == ctx.store + [MmpNew(f)]
            && r.ctx.stats == ctx.stats.(created := Bump(ctx.stats.created, "sequencing"))
            && r.err == c.check(MmpNew(f))
            && (r.err.None? ==> r.ctx.rec == ctx.rec["sequencing" := |ctx.store|])
  {
    GetOrCreateCases(ctx.store, "sequencing", NameLookup(f), MmpAssignments(f));
  }

  /** Exactly one record of that name: it is accounted for with the parsed
      fields as `from_row`. */
  lemma MmpRecordFound(c: Collab, overwrite: bool, ctx: RowCtx, f: MmpFields, pk: nat)
    requires pk < |ctx.store| && Matches(ctx.store[pk], "sequencing", NameLookup(f))
    requires forall q :: 0 <= q < |ctx.store| && Matches(ctx.store[q], "sequencing", NameLookup(f)) ==> q == pk
    ensures MmpRecord(c, overwrite, ctx, f) == Account(c, overwrite, ctx, pk, false, Some(MmpAssignments(f)))
  {
    GetOrCreateCases(ctx.store, "sequencing", NameLookup(f), MmpAssignments(f));
  }

  /** Several records of that name: `get` raises and nothing changes. */
  lemma MmpRecordAmbiguous(c: Collab, overwrite: bool, ctx: RowCtx, f: MmpFields, p: nat, q: nat)
    requires p < q < |ctx.store|
    requires Matches(ctx.store[p], "sequencing", NameLookup(f)) && Matches(ctx.store[q], "sequencing", NameLookup(f))
    ensures MmpRecord(c, overwrite, ctx, f) == Step(ctx, Some(Multiple("sequencing")))
  {
    GetOrCreateCases(ctx.store, "sequencing", NameLookup(f), MmpAssignments(f));
  }

  /** The record `MmpRecord` accounts for carries the parsed name. */
  lemma MmpNamed(c: Collab, overwrite: bool, ctx: RowCtx, f: MmpFields, st: Store, pk: nat, isNew: bool)
    requires GetOrCreate(ctx.store, "sequencing", NameLookup(f), MmpAssignments(f)) == Ok((st, pk, isNew))
    ensures var r := Account(c, overwrite, ctx.(store := st), pk, isNew, Some(MmpAssignments(f)));
            r.err.None? ==> pk < |r.ctx.store| && FieldOf(r.ctx.store[pk], "name") == Str(f.name)
  {
    var lookup := NameLookup(f);
    var r := Account(c, overwrite, ctx.(store := st), pk, isNew, Some(MmpAssignments(f)));
    if r.err.None? {
      if isNew {
        MmpNameKept(f, Apply(map[], lookup));
      } else if r.ctx.store[pk] != st[pk] {
        MmpNameKept(f, st[pk].fields);
      } else {
        assert Matches(st[pk], "sequencing", lookup);
        assert lookup[0].0 == "name";
      }
    }
  }

  /** Whatever is written from the parsed fields keeps the record's name. */
  lemma MmpNameKept(f: MmpFields, fields: map<string, Value>)
    ensures "name" in Apply(fields, MmpAssignments(f)) && Apply(fields, MmpAssignments(f))["name"] == Str(f.name)
  {
    var a := MmpAssignments(f);
    MmpKeysDistinct(f);
    ApplyDistinct(fields, a);
    assert a[2] == ("name", Str(f.name));
  }

  lemma MmpKeysDistinct(f: MmpFields)
    ensures DistinctKeys(MmpAssignments(f))
  {
  }

  /** The `Sequencing` lookup by name. */
  function NameLookup(f: MmpFields): Assignments {
    [("name", Str(f.name))]
  }

  /** The `Sequencing` record `get_or_create` makes: the name lookup with the
      parsed fields as defaults over it. */
  function MmpNew(f: MmpFields): Entity {
    Entity("sequencing", Apply(Apply(map[], NameLookup(f)), MmpAssignments(f)))
  }

  /** A record just created from a row is found by the same row again, and the
      second pass, compared field by field, counts and changes nothing. */
  lemma MmpRecordTwice(check: Entity -> Option<LoadError>, overwrite: bool, ctx: RowCtx, f: MmpFields)
    requires forall p :: 0 <= p < |ctx.store| ==> !Matches(ctx.store[p], "sequencing", NameLookup(f))
    requires MmpRecord(Collab(FieldCompare, check), overwrite, ctx, f).err.None?
    ensures var c := Collab(FieldCompare, check);
            var r1 := MmpRecord(c, overwrite, ctx, f);
            var r2 := MmpRecord(c, overwrite, r1.ctx, f);
            && r2.err.None? && r2.ctx.store == r1.ctx.store && r2.ctx.stats == r1.ctx.stats && r2.ctx.rec == r1.ctx.rec
  {
    var r1 := MmpRecord(Collab(FieldCompare, check), overwrite, ctx, f);
    MmpRecordNew(Collab(FieldCompare, check), overwrite, ctx, f);
    MmpNewFoundAlone(ctx.store, f);
    MmpRecordAgain(check, overwrite, r1.ctx, f, |ctx.store|);
    UpdateTwice(ctx.rec, "sequencing", |ctx.store|);
  }

  /** A row whose record is the only one of its name, exactly as created from
      that row, is accounted for without any change. */
  lemma MmpRecordAgain(check: Entity -> Option<LoadError>, overwrite: bool, ctx: RowCtx, f: MmpFields, pk: nat)
    requires pk < |ctx.store| && ctx.store[pk] == MmpNew(f)
    requires forall q :: 0 <= q < |ctx.store| && Matches(ctx.store[q], "sequencing", NameLookup(f)) ==> q == pk
    ensures var r := MmpRecord(Collab(FieldCompare, check), overwrite, ctx, f);
            && r.err.None? && r.ctx.store == ctx.store && r.ctx.stats == ctx.stats
            && r.ctx.rec == ctx.rec["sequencing" := pk]
  {
    var c := Collab(FieldCompare, check);
    MmpNewMatches(f);
    MmpRecordFound(c, overwrite, ctx, f, pk);
    MmpNewAgrees(f);
    assert |c.compare(ctx.store[pk], MmpAssignments(f)).1| == 0;
  }

  /** The new record matches its own name lookup. */
  lemma MmpNewMatches(f: MmpFields)
    ensures Matches(MmpNew(f), "sequencing", NameLookup(f))
  {
    MmpNameKept(f, Apply(map[], NameLookup(f)));
    assert NameLookup(f)[0] == ("name", Str(f.name));
  }

  /** In the store with the new record appended, it is the only one of its name. */
  lemma MmpNewFoundAlone(st: Store, f: MmpFields)
    requires forall p :: 0 <= p < |st| ==> !Matches(st[p], "sequencing", NameLookup(f))
    ensures var st1 := st + [MmpNew(f)];
            && Matches(st1[|st|], "sequencing", NameLookup(f))
            && forall q :: 0 <= q < |st1| && Matches(st1[q], "sequencing", NameLookup(f)) ==> q == |st|
  {
    var st1 := st + [MmpNew(f)];
    MmpNewMatches(f);
    assert forall q :: 0 <= q < |st| ==> st1[q] == st[q];
  }

  /** The new record holds every parsed field as given. */
  lemma MmpNewAgrees(f: MmpFields)
    ensures DiffFields(MmpNew(f), MmpAssignments(f)) == []
  {
    MmpKeysDistinct(f);
    NoDiffAfterApply(Entity("sequencing", Apply(map[], NameLookup(f))), MmpAssignments(f));
  }
}
