/**
 * `Taxonomy.from_blast_top1`: a tab-separated top-1 blast result assigns a
 * taxon to each ASV already in the table.  The in-memory dict of ASVs by number
 * collects the new taxa, an ASV whose in-memory taxon already equals the line's
 * is dropped from it, and one bulk update writes what is left.  As written, a
 * second line giving an ASV the taxon the first line just gave it drops the
 * ASV with its unsaved change, and any later line for that ASV is skipped;
 * `Apply` is the evidently intended step, which keeps every ASV in the dict.
 */
module SeqBlast {
  import opened Basics
  import opened PyStr
  import opened SeqNames
  import opened SeqFasta

  /** A taxonomy record; taxids and names are both unique, and taxids are
      non-negative. */
  datatype Taxon = Taxon(taxid: int, name: string)

  type TaxonStore = seq<Taxon>

  predicate UniqueTaxa(taxa: TaxonStore) {
    forall p, q :: 0 <= p < q < |taxa| ==> taxa[p].taxid != taxa[q].taxid && taxa[p].name != taxa[q].name
  }

  /** Does some taxon clash with `(taxid, name)` on either unique column? */
  predicate Clashes(taxa: TaxonStore, taxid: int, name: string) {
    exists p :: 0 <= p < |taxa| && (taxa[p].taxid == taxid || taxa[p].name == name)
  }

  /** The taxon with exactly these values. */
  function FindTaxon(taxa: TaxonStore, t: Taxon): (r: Option<nat>)
    ensures r.Some? ==> r.value < |taxa| && taxa[r.value] == t
    ensures r.None? ==> t !in taxa
  {
    if |taxa| == 0 then None
    else if taxa[|taxa| - 1] == t then Some(|taxa| - 1)
    else FindTaxon(taxa[..|taxa| - 1], t)
  }

  /** `Taxonomy.objects.get_or_create(taxid=..., name=...)`: the matching taxon,
      or a new one unless it would clash with an existing taxid or name or have
      a negative taxid. */
  function GetOrCreateTaxon(taxa: TaxonStore, taxid: int, name: string): (r: Result<(TaxonStore, nat), string>)
    requires UniqueTaxa(taxa)
    ensures r.Ok? ==> var (taxa1, pk) := r.value;
                      && UniqueTaxa(taxa1) && pk < |taxa1| && taxa1[pk] == Taxon(taxid, name)
                      && |taxa| <= |taxa1| && taxa1[..|taxa|] == taxa
    ensures r.Err? <==> Taxon(taxid, name) !in taxa && (taxid < 0 || Clashes(taxa, taxid, name))
    ensures Taxon(taxid, name) in taxa ==> r.Ok? && r.value.0 == taxa
    ensures r.Err? ==> r.error == "IntegrityError"
  {
    match FindTaxon(taxa, Taxon(taxid, name))
    case Some(pk) => Ok((taxa, pk))
    case None =>
      if taxid < 0 || Clashes(taxa, taxid, name) then Err("IntegrityError")
      else Ok((taxa + [Taxon(taxid, name)], |taxa|))
  }

  /** The values one line contributes: the ASV number and the taxon. */
  datatype BlastRow = BlastRow(num: int, taxid: int, name: string)

  /** The fields of a line: the line without its newline, split on tabs. */
  function LineFields(line: string): seq<string> {
    Split(RStripChar(line, '\n'), '\t')
  }

  /** The taxid and name a row names: the least-common-ancestor pair of columns
      7 and 8 when the name in column 8 is given, else columns 5 and 6. */
  function ChosenTaxon(row: seq<string>): (string, string)
    requires |row| == 8
  {
    if row[7] != "" then (row[6], row[7]) else (row[4], row[5])
  }

  /** One line read as the code reads it; `None` where the code raises
      (`ValueError` from the unpacking, `int` or `natural_lookup`). */
  function ParseLine(line: string): (r: Option<BlastRow>)
    ensures r.Some? <==>
              var row := LineFields(line);
              && |row| == 8
              && ParseInt(ChosenTaxon(row).0).Some?
              && AsvNaturalLookup(row[0]).Some?
    ensures r.Some? ==> var row := LineFields(line);
                        && r.value.name == ChosenTaxon(row).1
                        && Some(r.value.taxid) == ParseInt(ChosenTaxon(row).0)
                        && Some(r.value.num) == AsvNaturalLookup(row[0])
  {
    var row := LineFields(line);
    if |row| != 8 then None
    else
      var (taxid, name) := ChosenTaxon(row);
      match ParseInt(taxid)
      case None => None
      case Some(t) =>
        match AsvNaturalLookup(row[0])
        case None => None
        case Some(n) => Some(BlastRow(n, t, name))
  }

  /** The taxon a line that parses names. */
  function LineTaxon(line: string): Taxon
    requires ParseLine(line).Some?
  {
    Taxon(ParseLine(line).value.taxid, ParseLine(line).value.name)
  }

  /** A line written from eight tab- and newline-free fields reads back as the
      values those fields hold. */
  lemma LineRoundTrip(fields: seq<string>)
    requires |fields| == 8
    requires forall i :: 0 <= i < 8 ==> '\t' !in fields[i] && '\n' !in fields[i]
    ensures LineFields(Join(fields, '\t') + "\n") == fields
  {
    var j := Join(fields, '\t');
    JoinNoChar(fields, '\t', '\n');
    assert RStripChar(j + "\n", '\n') == j by {
      assert (j + "\n")[..|j|] == j;
      if |j| > 0 {
        assert j[|j| - 1] in j;
      }
    }
    SplitJoin(fields, '\t');
  }

  /** Joining pieces free of `c` with a separator other than `c` leaves no `c`. */
  lemma {:induction false} JoinNoChar(parts: seq<string>, sep: char, c: char)
    requires sep != c && forall i :: 0 <= i < |parts| ==> c !in parts[i]
    ensures c !in Join(parts, sep)
    decreases |parts|
  {
    if |parts| > 1 {
      JoinNoChar(parts[1..], sep, c);
    }
  }

  /** An entry of the in-memory dict: the ASV's primary key and its taxon. */
  datatype Pending = Pending(pk: nat, taxon: Option<nat>)

  /** The tables, the dict `asvs` of ASVs by number, and the counters. */
  datatype BlastRun = BlastRun(asvs: AsvStore, taxa: TaxonStore, pending: map<int, Pending>, total: nat, updated: nat)

  /** Every dict entry is the ASV with that number. */
  predicate PendingOk(asvs: AsvStore, pending: map<int, Pending>) {
    forall n :: n in pending ==> pending[n].pk < |asvs| && asvs[pending[n].pk].number == Some(n)
  }

  predicate Good(run: BlastRun) {
    UniqueAsvs(run.asvs) && UniqueTaxa(run.taxa) && PendingOk(run.asvs, run.pending)
  }

  /** `{i.number: i for i in ASV.objects...}` for the numbered ASVs, with the
      taxa they have in the table. */
  function InitPending(asvs: AsvStore): (r: map<int, Pending>)
    ensures PendingOk(asvs, r)
    ensures forall n :: n in r ==> r[n].taxon == asvs[r[n].pk].taxon
    ensures forall p :: 0 <= p < |asvs| && asvs[p].number.Some? ==> asvs[p].number.value in r
  {
    if |asvs| == 0 then map[]
    else
      var init := InitPending(asvs[..|asvs| - 1]);
      var a := asvs[|asvs| - 1];
      if a.number.Some? then init[a.number.value := Pending(|asvs| - 1, a.taxon)] else init
  }

  /** The state before the first data line. */
  function Start(asvs: AsvStore, taxa: TaxonStore): (r: BlastRun)
    requires UniqueAsvs(asvs) && UniqueTaxa(taxa)
    ensures Good(r) && r.asvs == asvs && r.taxa == taxa && r.total == 0 && r.updated == 0
    ensures forall p :: 0 <= p < |asvs| && asvs[p].number.Some? ==> asvs[p].number.value in r.pending
  {
    BlastRun(asvs, taxa, InitPending(asvs), 0, 0)
  }

  /** `b` extends `a`: every taxon keeps its primary key. */
  predicate TaxaGrow(a: TaxonStore, b: TaxonStore) {
    |a| <= |b| && b[..|a|] == a
  }

  /** One parsed line, as written: ASVs not in the dict are skipped; the
      taxon is fetched or created; an ASV already holding it in memory leaves
      the dict, otherwise it takes it and counts as updated. */
  function ApplyAsWritten(run: BlastRun, row: BlastRow): (r: Result<BlastRun, string>)
    requires Good(run)
    ensures r.Ok? ==> Good(r.value) && r.value.asvs == run.asvs && r.value.total == run.total
    ensures r.Ok? ==> TaxaGrow(run.taxa, r.value.taxa)
    ensures row.num !in run.pending ==> r == Ok(run)
    ensures r.Err? <==> row.num in run.pending && GetOrCreateTaxon(run.taxa, row.taxid, row.name).Err?
    // the ASV leaves the dict when it already holds the taxon in memory,
    // otherwise it takes the taxon and one update is counted
    ensures r.Ok? && row.num in run.pending ==>
              && GetOrCreateTaxon(run.taxa, row.taxid, row.name).Ok?
              && var (taxa, t) := GetOrCreateTaxon(run.taxa, row.taxid, row.name).value;
                 var e := run.pending[row.num];
                 && r.value.taxa == taxa
                 && (e.taxon == Some(t) ==> r.value.pending == run.pending - {row.num} && r.value.updated == run.updated)
                 && (e.taxon != Some(t) ==> r.value.pending == run.pending[row.num := e.(taxon := Some(t))]
                                            && r.value.updated == run.updated + 1)
  {
    if row.num !in run.pending then Ok(run)
    else
      match GetOrCreateTaxon(run.taxa, row.taxid, row.name)
      case Err(e) => Err(e)
      case Ok((taxa, tpk)) =>
        var e := run.pending[row.num];
        if e.taxon == Some(tpk) then Ok(run.(taxa := taxa, pending := run.pending - {row.num}))
        else Ok(run.(taxa := taxa, pending := run.pending[row.num := e.(taxon := Some(tpk))], updated := run.updated + 1))
  }

  /** One parsed line as intended: as written, except that the ASV stays in
      the dict, so that its new taxon is written and later lines for it are
      still applied. */
  function Apply(run: BlastRun, row: BlastRow): (r: Result<BlastRun, string>)
    requires Good(run)
    ensures r.Ok? ==> Good(r.value) && r.value.asvs == run.asvs && r.value.total == run.total
    ensures r.Ok? ==> TaxaGrow(run.taxa, r.value.taxa) && r.value.pending.Keys == run.pending.Keys
    ensures row.num !in run.pending ==> r == Ok(run)
    ensures r.Err? <==> row.num in run.pending && GetOrCreateTaxon(run.taxa, row.taxid, row.name).Err?
    // the ASV takes the taxon, an update is counted when it did not hold it
    // already, and no other entry changes
    ensures r.Ok? && row.num in run.pending ==>
              && GetOrCreateTaxon(run.taxa, row.taxid, row.name).Ok?
              && var (taxa, t) := GetOrCreateTaxon(run.taxa, row.taxid, row.name).value;
                 var e := run.pending[row.num];
                 && r.value.taxa == taxa
                 && r.value.pending[row.num] == e.(taxon := Some(t))
                 && (forall m :: m in run.pending && m != row.num ==> r.value.pending[m] == run.pending[m])
                 && r.value.updated == run.updated + (if e.taxon == Some(t) then 0 else 1)
  {
    if row.num !in run.pending then Ok(run)
    else
      match GetOrCreateTaxon(run.taxa, row.taxid, row.name)
      case Err(e) => Err(e)
      case Ok((taxa, tpk)) =>
        var e := run.pending[row.num];
        if e.taxon == Some(tpk) then Ok(run.(taxa := taxa))
        else Ok(run.(taxa := taxa, pending := run.pending[row.num := e.(taxon := Some(tpk))], updated := run.updated + 1))
  }

  /** The taxon ASV `p` ends up with if the run stopped now: its dict entry's,
      or its stored one if it has left the dict. */
  function Effective(run: BlastRun, p: nat): Option<nat>
    requires p < |run.asvs|
  {
    var number := run.asvs[p].number;
    if number.Some? && number.value in run.pending then run.pending[number.value].taxon else run.asvs[p].taxon
  }

  /** `ASV.objects.bulk_update(asvs.values(), ['taxon'])`. */
  function Finish(run: BlastRun): (r: AsvStore)
    ensures |r| == |run.asvs|
    ensures forall p :: 0 <= p < |r| ==> r[p] == run.asvs[p].(taxon := Effective(run, p))
  {
    seq(|run.asvs|, p requires 0 <= p < |run.asvs| => run.asvs[p].(taxon := Effective(run, p)))
  }

  /** Where a line went wrong: the data line number (`total`, which does not
      count the header) and the split row. */
  datatype BlastError = BlastError(line: nat, row: seq<string>, cause: string)

  /** One data line: count it, read it, and apply the as-written or the
      intended step; the error is the exception's name. */
  function LineStep(run: BlastRun, line: string, asWritten: bool): (r: Result<BlastRun, string>)
    requires Good(run)
    ensures r.Ok? ==> Good(r.value) && r.value.asvs == run.asvs && r.value.total == run.total + 1
    ensures r.Ok? ==> TaxaGrow(run.taxa, r.value.taxa)
    ensures r.Ok? && !asWritten ==> r.value.pending.Keys == run.pending.Keys
    ensures r.Ok? ==> r.value.updated <= run.updated + 1
    ensures ParseLine(line).None? ==> r == Err("ValueError")
    // a line that parses is the step's, on the counted state
    ensures ParseLine(line).Some? ==>
              var run1 := run.(total := run.total + 1);
              r == if asWritten then ApplyAsWritten(run1, ParseLine(line).value) else Apply(run1, ParseLine(line).value)
    // it fails when its ASV is in the dict and its taxon can be neither found
    // nor created
    ensures ParseLine(line).Some? ==>
              (r.Err? <==> && ParseLine(line).value.num in run.pending
                           && GetOrCreateTaxon(run.taxa, LineTaxon(line).taxid, LineTaxon(line).name).Err?)
    ensures ParseLine(line).Some? && r.Err? ==> r.error == "IntegrityError"
  {
    var run1 := run.(total := run.total + 1);
    match ParseLine(line)
    case None => Err("ValueError")
    case Some(b) => if asWritten then ApplyAsWritten(run1, b) else Apply(run1, b)
  }

  /** The loop over the data lines, with the as-written or the intended step. */
  function Lines(run: BlastRun, data: seq<string>, asWritten: bool): (r: Result<BlastRun, BlastError>)
    requires Good(run)
    ensures r.Ok? ==> Good(r.value) && r.value.asvs == run.asvs && r.value.total == run.total + |data|
    ensures r.Ok? ==> TaxaGrow(run.taxa, r.value.taxa)
    ensures r.Ok? && !asWritten ==> r.value.pending.Keys == run.pending.Keys
    ensures r.Err? ==> run.total < r.error.line <= run.total + |data|
    decreases |data|
  {
    if |data| == 0 then Ok(run)
    else
      match LineStep(run, data[0], asWritten)
      case Err(cause) => Err(BlastError(run.total + 1, LineFields(data[0]), cause))
      case Ok(run1) => Lines(run1, data[1..], asWritten)
  }

  /** Each line counts at most one update. */
  lemma {:induction false} LinesUpdated(run: BlastRun, data: seq<string>, asWritten: bool)
    requires Good(run) && Lines(run, data, asWritten).Ok?
    ensures Lines(run, data, asWritten).value.updated <= run.updated + |data|
    decreases |data|
  {
    if |data| > 0 {
      var run1 := LineStep(run, data[0], asWritten).value;
      assert Lines(run, data, asWritten) == Lines(run1, data[1..], asWritten);
      LinesUpdated(run1, data[1..], asWritten);
    }
  }

  /** The error names a line of `data`, numbered after `base`, and its fields. */
  predicate ReportsLine(base: nat, data: seq<string>, e: BlastError) {
    base < e.line <= base + |data| && e.row == LineFields(data[e.line - base - 1])
  }

  /** A line of the tail is a line of the whole, one further on. */
  lemma ReportsTailLine(base: nat, next: nat, data: seq<string>, e: BlastError)
    requires |data| > 0 && next == base + 1 && ReportsLine(next, data[1..], e)
    ensures ReportsLine(base, data, e)
  {
    assert data[1..][e.line - base - 2] == data[e.line - base - 1];
  }

  /** An error reports the line it happened on, counted from the first data
      line, and that line's fields. */
  lemma {:induction false} LinesErrorRow(run: BlastRun, data: seq<string>, asWritten: bool)
    requires Good(run) && Lines(run, data, asWritten).Err?
    ensures ReportsLine(run.total, data, Lines(run, data, asWritten).error)
    decreases |data|
  {
    var r1 := LineStep(run, data[0], asWritten);
    if r1.Ok? {
      var rest := Lines(r1.value, data[1..], asWritten);
      assert Lines(run, data, asWritten) == rest;
      LinesErrorRow(r1.value, data[1..], asWritten);
      ReportsTailLine(run.total, r1.value.total, data, rest.error);
    } else {
      var e := BlastError(run.total + 1, LineFields(data[0]), r1.error);
      assert Lines(run, data, asWritten) == Err(e);
      assert ReportsLine(run.total, data, e);
    }
  }

  /** The first line of a loop: its step's error ends the loop there, its
      step's state carries the rest. */
  lemma LinesCons(run: BlastRun, data: seq<string>, asWritten: bool)
    requires Good(run) && |data| > 0
    ensures var s := LineStep(run, data[0], asWritten);
            && (s.Err? ==> Lines(run, data, asWritten) == Err(BlastError(run.total + 1, LineFields(data[0]), s.error)))
            && (s.Ok? ==> Lines(run, data, asWritten) == Lines(s.value, data[1..], asWritten))
  {
  }

  /** The loop over `a + b` is the loop over `a`, then, unless a line of `a`
      failed, the loop over `b` from the state `a` leaves. */
  lemma {:induction false} LinesConcat(run: BlastRun, a: seq<string>, b: seq<string>, asWritten: bool)
    requires Good(run)
    ensures var ra := Lines(run, a, asWritten);
            Lines(run, a + b, asWritten) == if ra.Err? then ra else Lines(ra.value, b, asWritten)
    decreases |a|
  {
    ConsAppend(a, b);
    if |a| > 0 {
      LinesCons(run, a + b, asWritten);
      LinesCons(run, a, asWritten);
      var s := LineStep(run, a[0], asWritten);
      if s.Ok? {
        LinesConcat(s.value, a[1..], b, asWritten);
      }
    }
  }

  /** Data line `k` (from 0) is the first to fail: the lines before it go
      through, and its step fails on the state they leave. */
  predicate LineFailsAt(run: BlastRun, data: seq<string>, asWritten: bool, k: int)
    requires Good(run)
  {
    && 0 <= k < |data|
    && Lines(run, data[..k], asWritten).Ok?
    && LineStep(Lines(run, data[..k], asWritten).value, data[k], asWritten).Err?
  }

  /** The loop over `data` is the loop over its first `k` lines, then, unless
      one of them failed, the loop over the rest. */
  lemma LinesAt(run: BlastRun, data: seq<string>, k: int, asWritten: bool)
    requires Good(run) && 0 <= k <= |data|
    ensures var ra := Lines(run, data[..k], asWritten);
            Lines(run, data, asWritten) == if ra.Err? then ra else Lines(ra.value, data[k..], asWritten)
  {
    SplitAt(data, k);
    LinesConcat(run, data[..k], data[k..], asWritten);
  }

  /** The loop stops at the first failing line: the error carries its number,
      counted from the first data line, its fields and its step's cause. */
  lemma FirstFailingLine(run: BlastRun, data: seq<string>, asWritten: bool, k: int)
    requires Good(run) && LineFailsAt(run, data, asWritten, k)
    ensures Lines(run, data, asWritten)
            == Err(BlastError(run.total + k + 1, LineFields(data[k]),
                              LineStep(Lines(run, data[..k], asWritten).value, data[k], asWritten).error))
  {
    var m := Lines(run, data[..k], asWritten).value;
    var rest := data[k..];
    var e := LineStep(m, data[k], asWritten).error;
    assert rest[0] == data[k];
    assert Lines(m, rest, asWritten) == Err(BlastError(m.total + 1, LineFields(data[k]), e)) by {
      LinesCons(m, rest, asWritten);
    }
    LinesAt(run, data, k, asWritten);
    assert BlastError(m.total + 1, LineFields(data[k]), e) == BlastError(run.total + k + 1, LineFields(data[k]), e);
  }

  /** A line failing in a prefix of the data fails in the data. */
  lemma FailsInPrefix(run: BlastRun, data: seq<string>, asWritten: bool, n: int, k: int)
    requires Good(run) && 0 <= n <= |data| && LineFailsAt(run, data[..n], asWritten, k)
    ensures LineFailsAt(run, data, asWritten, k)
  {
    assert data[..n][..k] == data[..k] && data[..n][k] == data[k];
  }

  /** When all but the last line go through and the loop fails, the last
      line fails. */
  lemma FailsLast(run: BlastRun, data: seq<string>, asWritten: bool)
    requires Good(run) && |data| > 0 && Lines(run, data, asWritten).Err?
    requires Lines(run, data[..|data| - 1], asWritten).Ok?
    ensures LineFailsAt(run, data, asWritten, |data| - 1)
  {
    var n := |data| - 1;
    var last := data[n..];
    SplitAt(data, n);
    LinesConcat(run, data[..n], last, asWritten);
    LinesCons(Lines(run, data[..n], asWritten).value, last, asWritten);
    assert last[0] == data[n];
  }

  /** A failed loop has a failing line. */
  lemma {:induction false} LinesFailure(run: BlastRun, data: seq<string>, asWritten: bool)
    requires Good(run) && Lines(run, data, asWritten).Err?
    ensures exists k :: LineFailsAt(run, data, asWritten, k)
    decreases |data|
  {
    var n := |data| - 1;
    if Lines(run, data[..n], asWritten).Err? {
      LinesFailure(run, data[..n], asWritten);
      var k :| LineFailsAt(run, data[..n], asWritten, k);
      FailsInPrefix(run, data, asWritten, n, k);
    } else {
      FailsLast(run, data, asWritten);
    }
  }

  /** The loop fails exactly when some line fails. */
  lemma LinesFails(run: BlastRun, data: seq<string>, asWritten: bool)
    requires Good(run)
    ensures Lines(run, data, asWritten).Err? <==> exists k :: LineFailsAt(run, data, asWritten, k)
  {
    if exists k :: LineFailsAt(run, data, asWritten, k) {
      var k :| LineFailsAt(run, data, asWritten, k);
      FirstFailingLine(run, data, asWritten, k);
    }
    if Lines(run, data, asWritten).Err? {
      LinesFailure(run, data, asWritten);
    }
  }

  /** The outcome of a successful import: the tables and `total`/`update`. */
  datatype BlastOutcome = BlastOutcome(asvs: AsvStore, taxa: TaxonStore, total: nat, updated: nat)

  /** The import over the file's lines (the first is the header); on an error
      the transaction leaves both tables as they were. */
  function BlastTop1With(asvs: AsvStore, taxa: TaxonStore, lines: seq<string>, asWritten: bool): (r: Result<BlastOutcome, BlastError>)
    requires UniqueAsvs(asvs) && UniqueTaxa(taxa)
    ensures r.Ok? ==> r.value.total == (if |lines| == 0 then 0 else |lines| - 1)
    ensures r.Ok? ==> |r.value.asvs| == |asvs| && UniqueTaxa(r.value.taxa)
    ensures r.Ok? ==> forall p :: 0 <= p < |asvs| ==>
                        (r.value.asvs[p].number == asvs[p].number && r.value.asvs[p].sequence == asvs[p].sequence)
    ensures r.Ok? ==> TaxaGrow(taxa, r.value.taxa) && r.value.updated <= r.value.total
    // the `RuntimeError` names the data line and its fields
    ensures r.Err? ==> ReportsLine(0, DataLines(lines), r.error)
  {
    match Lines(Start(asvs, taxa), DataLines(lines), asWritten)
    case Err(e) => LinesErrorRow(Start(asvs, taxa), DataLines(lines), asWritten); Err(e)
    case Ok(run) =>
      LinesUpdated(Start(asvs, taxa), DataLines(lines), asWritten);
      Ok(BlastOutcome(Finish(run), run.taxa, run.total, run.updated))
  }

  /** The import fails exactly when a data line fails, and then with the
      first such line: data line `k + 1` (the header is not counted), its
      fields, and the cause its step raises. */
  lemma BlastTop1Fails(asvs: AsvStore, taxa: TaxonStore, lines: seq<string>, asWritten: bool, k: int)
    requires UniqueAsvs(asvs) && UniqueTaxa(taxa)
    ensures BlastTop1With(asvs, taxa, lines, asWritten).Err? <==>
              exists j :: LineFailsAt(Start(asvs, taxa), DataLines(lines), asWritten, j)
    ensures LineFailsAt(Start(asvs, taxa), DataLines(lines), asWritten, k) ==>
              var before := Lines(Start(asvs, taxa), DataLines(lines)[..k], asWritten).value;
              BlastTop1With(asvs, taxa, lines, asWritten)
              == Err(BlastError(k + 1, LineFields(lines[k + 1]), LineStep(before, lines[k + 1], asWritten).error))
  {
    var start, data := Start(asvs, taxa), DataLines(lines);
    LinesFails(start, data, asWritten);
    if LineFailsAt(start, data, asWritten, k) {
      FirstFailingLine(start, data, asWritten, k);
      assert data[k] == lines[k + 1];
    }
  }

  /** A file with one data line succeeds when the line parses and its taxon
      can be found or created, whether or not it names an ASV in the table. */
  lemma BlastTop1OneLine(asvs: AsvStore, taxa: TaxonStore, header: string, line: string, asWritten: bool)
    requires UniqueAsvs(asvs) && UniqueTaxa(taxa) && ParseLine(line).Some?
    requires GetOrCreateTaxon(taxa, LineTaxon(line).taxid, LineTaxon(line).name).Ok?
    ensures BlastTop1With(asvs, taxa, [header, line], asWritten).Ok?
  {
    var start := Start(asvs, taxa);
    assert DataLines([header, line]) == [line];
    LinesCons(start, [line], asWritten);
  }

  /** `from_blast_top1` as written. */
  function BlastTop1AsWritten(asvs: AsvStore, taxa: TaxonStore, lines: seq<string>): (r: Result<BlastOutcome, BlastError>)
    requires UniqueAsvs(asvs) && UniqueTaxa(taxa)
    ensures r.Ok? ==> r.value.total == (if |lines| == 0 then 0 else |lines| - 1)
    // only taxa change: every ASV keeps its number and sequence, taxa are
    // only added, and at most one update is counted per line
    ensures r.Ok? ==> |r.value.asvs| == |asvs| && UniqueTaxa(r.value.taxa) && TaxaGrow(taxa, r.value.taxa)
    ensures r.Ok? ==> forall p :: 0 <= p < |asvs| ==>
                        (r.value.asvs[p].number == asvs[p].number && r.value.asvs[p].sequence == asvs[p].sequence)
    ensures r.Ok? ==> r.value.updated <= r.value.total
    ensures r.Err? ==> ReportsLine(0, DataLines(lines), r.error)
  {
    BlastTop1With(asvs, taxa, lines, true)
  }

  /** `from_blast_top1` with the intended step. */
  function BlastTop1(asvs: AsvStore, taxa: TaxonStore, lines: seq<string>): (r: Result<BlastOutcome, BlastError>)
    requires UniqueAsvs(asvs) && UniqueTaxa(taxa)
    ensures r.Ok? ==> r.value.total == (if |lines| == 0 then 0 else |lines| - 1)
    // only taxa change: every ASV keeps its number and sequence, taxa are
    // only added, and at most one update is counted per line
    ensures r.Ok? ==> |r.value.asvs| == |asvs| && UniqueTaxa(r.value.taxa) && TaxaGrow(taxa, r.value.taxa)
    ensures r.Ok? ==> forall p :: 0 <= p < |asvs| ==>
                        (r.value.asvs[p].number == asvs[p].number && r.value.asvs[p].sequence == asvs[p].sequence)
    ensures r.Ok? ==> r.value.updated <= r.value.total
    ensures r.Err? ==> ReportsLine(0, DataLines(lines), r.error)
  {
    BlastTop1With(asvs, taxa, lines, false)
  }

  /** Before any line every ASV's effective taxon is its stored one. */
  lemma InitEffective(asvs: AsvStore, taxa: TaxonStore, p: nat)
    requires UniqueAsvs(asvs) && UniqueTaxa(taxa) && p < |asvs|
    ensures Effective(Start(asvs, taxa), p) == asvs[p].taxon
  {
    var pending := InitPending(asvs);
    var number := asvs[p].number;
    if number.Some? {
      var n := number.value;
      assert n in pending;
      PendingAt(asvs, pending, n, p);
    }
  }

  /** With unique numbers the dict entry for a number is the ASV holding it. */
  lemma PendingAt(asvs: AsvStore, pending: map<int, Pending>, n: int, p: nat)
    requires UniqueAsvs(asvs) && PendingOk(asvs, pending)
    requires n in pending && p < |asvs| && asvs[p].number == Some(n)
    ensures pending[n].pk == p
  {
  }

  /** The intended step gives the line's ASV the line's taxon and leaves every
      other ASV's effective taxon alone. */
  lemma ApplySetsTaxon(run: BlastRun, row: BlastRow, p: nat)
    requires Good(run) && Apply(run, row).Ok? && row.num in run.pending && p < |run.asvs|
    ensures var r := Apply(run, row).value;
            && (p == run.pending[row.num].pk ==>
                  Effective(r, p).Some? && Effective(r, p).value < |r.taxa|
                  && r.taxa[Effective(r, p).value] == Taxon(row.taxid, row.name))
            && (p != run.pending[row.num].pk ==> Effective(r, p) == Effective(run, p))
  {
    if p == run.pending[row.num].pk {
      ApplySetsOwn(run, row);
    } else {
      ApplyKeepsOthers(run, row, p);
    }
  }

  lemma ApplySetsOwn(run: BlastRun, row: BlastRow)
    requires Good(run) && Apply(run, row).Ok? && row.num in run.pending
    ensures var r := Apply(run, row).value;
            var p := run.pending[row.num].pk;
            && Effective(r, p).Some? && Effective(r, p).value < |r.taxa|
            && r.taxa[Effective(r, p).value] == Taxon(row.taxid, row.name)
  {
    var n := row.num;
    var p := run.pending[n].pk;
    assert run.asvs[p].number == Some(n);
    var (taxa, tpk) := GetOrCreateTaxon(run.taxa, row.taxid, row.name).value;
    var r := Apply(run, row).value;
    assert r.asvs == run.asvs && r.taxa == taxa && taxa[tpk] == Taxon(row.taxid, row.name);
    assert n in r.pending && r.pending[n].taxon == Some(tpk);
    assert Effective(r, p) == Some(tpk);
  }

  lemma ApplyKeepsOthers(run: BlastRun, row: BlastRow, p: nat)
    requires Good(run) && Apply(run, row).Ok? && row.num in run.pending && p < |run.asvs|
    requires p != run.pending[row.num].pk
    ensures Effective(Apply(run, row).value, p) == Effective(run, p)
  {
    if run.asvs[p].number.Some? {
      assert run.asvs[p].number != Some(row.num);
    }
  }

  /** As written, the same line twice for an ASV whose stored taxon differs
      from the line's counts one update but leaves the stored taxon as it was:
      the second line finds the unsaved taxon in memory and drops the ASV. */
  lemma AsWrittenRepeatLosesUpdate(run: BlastRun, row: BlastRow)
    requires Good(run) && row.num in run.pending
    requires run.pending[row.num].taxon == run.asvs[run.pending[row.num].pk].taxon
    requires ApplyAsWritten(run, row).Ok?
    requires ApplyAsWritten(run, row).value.updated == run.updated + 1
    ensures var r1 := ApplyAsWritten(run, row).value;
            var r2 := ApplyAsWritten(r1, row);
            var pk := run.pending[row.num].pk;
            && r2.Ok? && r2.value.updated == run.updated + 1
            && Finish(r2.value)[pk].taxon == run.asvs[pk].taxon
            && Effective(r1, pk) != run.asvs[pk].taxon
  {
    var r1 := ApplyAsWritten(run, row).value;
    var pk := run.pending[row.num].pk;
    var tpk := r1.pending[row.num].taxon.value;
    assert r1.taxa[tpk] == Taxon(row.taxid, row.name);
    assert GetOrCreateTaxon(r1.taxa, row.taxid, row.name) == Ok((r1.taxa, tpk)) by {
      assert FindTaxon(r1.taxa, Taxon(row.taxid, row.name)) == Some(tpk) by {
        FindTaxonUnique(r1.taxa, Taxon(row.taxid, row.name), tpk);
      }
    }
  }

  /** With unique taxids the taxon holding a value is the one `FindTaxon` finds. */
  lemma FindTaxonUnique(taxa: TaxonStore, t: Taxon, pk: nat)
    requires UniqueTaxa(taxa) && pk < |taxa| && taxa[pk] == t
    ensures FindTaxon(taxa, t) == Some(pk)
  {
  }

  /** As intended, the same line twice leaves the ASV with the line's taxon
      and the update counted once. */
  lemma RepeatKeepsUpdate(run: BlastRun, row: BlastRow)
    requires Good(run) && row.num in run.pending
    requires Apply(run, row).Ok?
    ensures var r1 := Apply(run, row).value;
            var r2 := Apply(r1, row);
            var pk := run.pending[row.num].pk;
            && r2.Ok? && r2.value.updated == r1.updated
            && Effective(r2.value, pk).Some? && Effective(r2.value, pk).value < |r2.value.taxa|
            && r2.value.taxa[Effective(r2.value, pk).value] == Taxon(row.taxid, row.name)
  {
    var r1 := Apply(run, row).value;
    var pk := run.pending[row.num].pk;
    ApplySetsTaxon(run, row, pk);
    var tpk := Effective(r1, pk).value;
    assert GetOrCreateTaxon(r1.taxa, row.taxid, row.name) == Ok((r1.taxa, tpk)) by {
      FindTaxonUnique(r1.taxa, Taxon(row.taxid, row.name), tpk);
    }
    if row.num in r1.pending {
      ApplySetsTaxon(r1, row, pk);
    }
  }

  // ---------------------------------------------------------------------------
  // Which taxon each ASV ends with

  /** Does the line parse and name ASV number `n`? */
  predicate NamesAsv(line: string, n: int) {
    ParseLine(line).Some? && ParseLine(line).value.num == n
  }

  /** Does the line parse and name the ASV's number? */
  predicate NamesAsvOf(line: string, a: Asv) {
    a.number.Some? && NamesAsv(line, a.number.value)
  }

  /** A line that does not name ASV `p` leaves its effective taxon alone. */
  lemma LineStepKeepsOther(run: BlastRun, line: string, p: nat)
    requires Good(run) && LineStep(run, line, false).Ok? && p < |run.asvs|
    requires !NamesAsvOf(line, run.asvs[p])
    ensures Effective(LineStep(run, line, false).value, p) == Effective(run, p)
  {
    var run1 := run.(total := run.total + 1);
    var row := ParseLine(line).value;
    assert Effective(run1, p) == Effective(run, p);
    if row.num in run1.pending {
      assert run1.asvs[run1.pending[row.num].pk].number == Some(row.num);
      ApplyKeepsOthers(run1, row, p);
    }
  }

  /** Lines none of which names ASV `p` leave its effective taxon alone. */
  lemma {:induction false} LinesKeepOther(run: BlastRun, data: seq<string>, p: nat)
    requires Good(run) && Lines(run, data, false).Ok? && p < |run.asvs|
    requires forall k :: 0 <= k < |data| ==> !NamesAsvOf(data[k], run.asvs[p])
    ensures Effective(Lines(run, data, false).value, p) == Effective(run, p)
    decreases |data|
  {
    if |data| > 0 {
      var s := LineStep(run, data[0], false).value;
      assert Lines(run, data, false) == Lines(s, data[1..], false);
      LineStepKeepsOther(run, data[0], p);
      DropIndex(data, 1);
      LinesKeepOther(s, data[1..], p);
    }
  }

  /** A line naming a numbered ASV of the dict gives it the line's taxon. */
  lemma LineStepSetsOwn(run: BlastRun, line: string, p: nat)
    requires Good(run) && LineStep(run, line, false).Ok? && p < |run.asvs|
    requires NamesAsvOf(line, run.asvs[p]) && run.asvs[p].number.value in run.pending
    ensures var s := LineStep(run, line, false).value;
            var row := ParseLine(line).value;
            && Effective(s, p).Some? && Effective(s, p).value < |s.taxa|
            && s.taxa[Effective(s, p).value] == Taxon(row.taxid, row.name)
  {
    var run1 := run.(total := run.total + 1);
    var row := ParseLine(line).value;
    PendingAt(run.asvs, run.pending, row.num, p);
    ApplySetsOwn(run1, row);
  }

  /** The effective taxon `p` has after the lines, as the index of `t`. */
  predicate EndsWith(f: BlastRun, p: nat, t: Taxon)
    requires p < |f.asvs|
  {
    Effective(f, p).Some? && Effective(f, p).value < |f.taxa| && f.taxa[Effective(f, p).value] == t
  }

  /** Line `j` names the ASV and no later one does. */
  predicate LastNames(data: seq<string>, j: nat, a: Asv) {
    j < |data| && NamesAsvOf(data[j], a) && forall k :: j < k < |data| ==> !NamesAsvOf(data[k], a)
  }

  /** The first line names ASV `p` and no later one does. */
  lemma LinesFirstSets(run: BlastRun, data: seq<string>, p: nat)
    requires Good(run) && Lines(run, data, false).Ok? && p < |run.asvs|
    requires LastNames(data, 0, run.asvs[p]) && run.asvs[p].number.value in run.pending
    ensures EndsWith(Lines(run, data, false).value, p, LineTaxon(data[0]))
  {
    var s := LineStep(run, data[0], false).value;
    var f := Lines(s, data[1..], false).value;
    assert Lines(run, data, false).value == f;
    LineStepSetsOwn(run, data[0], p);
    DropIndex(data, 1);
    LinesKeepOther(s, data[1..], p);
    var t := Effective(s, p).value;
    assert f.taxa[..|s.taxa|] == s.taxa;
    assert f.taxa[t] == s.taxa[t];
  }

  /** The last line naming a numbered ASV decides its taxon. */
  lemma LinesLastSets(run: BlastRun, data: seq<string>, p: nat, j: nat)
    requires Good(run) && Lines(run, data, false).Ok? && p < |run.asvs|
    requires run.asvs[p].number.Some? && run.asvs[p].number.value in run.pending
    requires LastNames(data, j, run.asvs[p])
    ensures EndsWith(Lines(run, data, false).value, p, LineTaxon(data[j]))
  {
    LinesSplit(run, data, j);
    LastFromHere(data, j, run.asvs[p]);
    LinesFirstSets(Lines(run, data[..j], false).value, data[j..], p);
  }

  /** The loop over `data` is the loop over its first `j` lines, then over
      the rest. */
  lemma LinesSplit(run: BlastRun, data: seq<string>, j: nat)
    requires Good(run) && Lines(run, data, false).Ok? && j <= |data|
    ensures var r := Lines(run, data[..j], false);
            && r.Ok? && r.value.asvs == run.asvs && r.value.pending.Keys == run.pending.Keys
            && Lines(run, data, false) == Lines(r.value, data[j..], false)
  {
    SplitAt(data, j);
    LinesAppend(run, data[..j], data[j..]);
  }

  /** The loop over `a + b` is the loop over `a`, then over `b`. */
  lemma {:induction false} LinesAppend(run: BlastRun, a: seq<string>, b: seq<string>)
    requires Good(run) && Lines(run, a + b, false).Ok?
    ensures Lines(run, a, false).Ok?
    ensures Lines(run, a + b, false) == Lines(Lines(run, a, false).value, b, false)
    decreases |a|
  {
    ConsAppend(a, b);
    if |a| > 0 {
      var s := LineStep(run, a[0], false).value;
      assert Lines(run, a + b, false) == Lines(s, a[1..] + b, false);
      LinesAppend(s, a[1..], b);
    }
  }

  /** From line `j` on, the first line names the ASV and no later one does. */
  lemma LastFromHere(data: seq<string>, j: nat, a: Asv)
    requires LastNames(data, j, a)
    ensures LastNames(data[j..], 0, a) && data[j..][0] == data[j]
  {
    DropIndex(data, j);
  }

  /** The data lines of the file: all but the header. */
  function DataLines(lines: seq<string>): seq<string> {
    if |lines| == 0 then [] else lines[1..]
  }

  /** The loop over the data lines of an import as intended. */
  function DataRun(asvs: AsvStore, taxa: TaxonStore, lines: seq<string>): Result<BlastRun, BlastError>
    requires UniqueAsvs(asvs) && UniqueTaxa(taxa)
  {
    Lines(Start(asvs, taxa), DataLines(lines), false)
  }

  /** A successful import is the loop over the data lines, then the bulk
      update that writes each ASV's effective taxon. */
  lemma BlastTop1Run(asvs: AsvStore, taxa: TaxonStore, lines: seq<string>, p: nat)
    requires UniqueAsvs(asvs) && UniqueTaxa(taxa) && BlastTop1(asvs, taxa, lines).Ok? && p < |asvs|
    ensures var f := DataRun(asvs, taxa, lines);
            && f.Ok? && p < |f.value.asvs|
            && BlastTop1(asvs, taxa, lines).value.asvs[p].taxon == Effective(f.value, p)
            && BlastTop1(asvs, taxa, lines).value.taxa == f.value.taxa
  {
    assert BlastTop1(asvs, taxa, lines) == BlastTop1With(asvs, taxa, lines, false);
  }

  /** The import as intended gives every numbered ASV the taxon of the last
      data line naming it. */
  lemma BlastTop1LastLine(asvs: AsvStore, taxa: TaxonStore, lines: seq<string>, p: nat, j: nat)
    requires UniqueAsvs(asvs) && UniqueTaxa(taxa) && BlastTop1(asvs, taxa, lines).Ok?
    requires p < |asvs| && LastNames(DataLines(lines), j, asvs[p])
    ensures HasTaxon(BlastTop1(asvs, taxa, lines).value, p, LineTaxon(DataLines(lines)[j]))
  {
    BlastTop1Run(asvs, taxa, lines, p);
    DataRunLastLine(asvs, taxa, DataLines(lines), p, j);
  }

  /** ASV `p` of the outcome holds taxon `t`. */
  predicate HasTaxon(o: BlastOutcome, p: nat, t: Taxon) {
    p < |o.asvs| && o.asvs[p].taxon.Some? && o.asvs[p].taxon.value < |o.taxa| && o.taxa[o.asvs[p].taxon.value] == t
  }

  /** `LinesLastSets` from the start of an import over data lines `data`. */
  lemma DataRunLastLine(asvs: AsvStore, taxa: TaxonStore, data: seq<string>, p: nat, j: nat)
    requires UniqueAsvs(asvs) && UniqueTaxa(taxa) && Lines(Start(asvs, taxa), data, false).Ok?
    requires p < |asvs| && LastNames(data, j, asvs[p])
    ensures EndsWith(Lines(Start(asvs, taxa), data, false).value, p, LineTaxon(data[j]))
  {
    LinesLastSets(Start(asvs, taxa), data, p, j);
  }

  /** The import as intended leaves the taxon of an ASV that no data line
      names as it was. */
  lemma BlastTop1Untouched(asvs: AsvStore, taxa: TaxonStore, lines: seq<string>, p: nat)
    requires UniqueAsvs(asvs) && UniqueTaxa(taxa) && BlastTop1(asvs, taxa, lines).Ok?
    requires p < |asvs| && forall k :: 1 <= k < |lines| ==> !NamesAsvOf(lines[k], asvs[p])
    ensures BlastTop1(asvs, taxa, lines).value.asvs[p].taxon == asvs[p].taxon
  {
    var start := Start(asvs, taxa);
    var data := DataLines(lines);
    BlastTop1Run(asvs, taxa, lines, p);
    if |lines| > 0 {
      DropIndex(lines, 1);
    }
    LinesKeepOther(start, data, p);
    InitEffective(asvs, taxa, p);
  }
}
