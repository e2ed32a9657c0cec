/**
 * `ASV.from_fasta`: each fasta record is looked up by sequence (and by number
 * when its id parses as an ASV name); new sequences are created, irregular ids
 * are mapped to their ASV, and the run counts records, creations and number
 * updates.  The code as written cannot renumber an existing unnumbered ASV;
 * `FromFasta` is the evidently intended behaviour, `FromFastaAsWritten` the
 * code's.
 */
module SeqFasta {
  import opened Basics
  import opened SeqNames

  /** An ASV record: its number (if any), its sequence and its taxon. */
  datatype Asv = Asv(number: Option<int>, sequence: string, taxon: Option<nat>)

  /** The ASV table, by primary key. */
  type AsvStore = seq<Asv>

  /** The table's unique constraints: sequences and set numbers are unique
      (numbers are also non-negative, which `Create` checks). */
  predicate UniqueAsvs(st: AsvStore) {
    forall p, q :: 0 <= p < q < |st| ==>
      st[p].sequence != st[q].sequence && (st[p].number.Some? ==> st[p].number != st[q].number)
  }

  datatype FastaRecord = FastaRecord(id: string, sequence: string)

  /** The table and the run's `total`, `new`, `updated` and `irregular`. */
  datatype FastaRun = FastaRun(store: AsvStore, total: nat, added: nat, updated: nat, irregular: map<string, nat>)

  /** The ASV with the given sequence. */
  function FindSeq(st: AsvStore, s: string): (r: Option<nat>)
    ensures r.Some? ==> r.value < |st| && st[r.value].sequence == s
    ensures r.None? ==> forall p :: 0 <= p < |st| ==> st[p].sequence != s
  {
    if |st| == 0 then None
    else if st[|st| - 1].sequence == s then Some(|st| - 1)
    else FindSeq(st[..|st| - 1], s)
  }

  /** With unique sequences the ASV holding a sequence is the one `FindSeq` finds. */
  lemma FindSeqUnique(st: AsvStore, s: string, pk: nat)
    requires UniqueAsvs(st)
    requires pk < |st| && st[pk].sequence == s
    ensures FindSeq(st, s) == Some(pk)
  {
  }

  /** Is the number taken by some ASV? */
  predicate NumberTaken(st: AsvStore, n: int) {
    exists p :: 0 <= p < |st| && st[p].number == Some(n)
  }

  /** The table with ASV `pk` given the number. */
  function SetNumber(st: AsvStore, pk: nat, number: Option<int>): (r: AsvStore)
    ensures |r| == |st|
    ensures forall p :: 0 <= p < |st| ==> r[p].sequence == st[p].sequence
    ensures forall p :: 0 <= p < |st| && p != pk ==> r[p] == st[p]
    ensures pk < |st| ==> r[pk].number == number
  {
    if pk < |st| then st[pk := st[pk].(number := number)] else st
  }

  /** `Asv.objects.create(sequence=s, number=n)` under the unique constraints. */
  function Create(st: AsvStore, number: Option<int>, s: string): (r: Result<AsvStore, string>)
    requires UniqueAsvs(st)
    ensures r.Ok? <==> FindSeq(st, s).None? && (number.Some? ==> number.value >= 0 && !NumberTaken(st, number.value))
    ensures r.Ok? ==> r.value == st + [Asv(number, s, None)] && UniqueAsvs(r.value)
  {
    if FindSeq(st, s).Some? || (number.Some? && (number.value < 0 || NumberTaken(st, number.value))) then Err("IntegrityError")
    else Ok(st + [Asv(number, s, None)])
  }

  /** `get_or_create(sequence=..., number=n)` finds an ASV: one holds the
      sequence and, when the id gives a number, that number. */
  predicate LookupHits(st: AsvStore, rec: FastaRecord) {
    var number := AsvNaturalLookup(rec.id);
    var found := FindSeq(st, rec.sequence);
    found.Some? && (number.None? || st[found.value].number == number)
  }

  /** As written, the table changes only by the one ASV a missed lookup creates. */
  predicate AsWrittenStore(st: AsvStore, rec: FastaRecord, st1: AsvStore) {
    st1 == if LookupHits(st, rec) then st else st + [Asv(AsvNaturalLookup(rec.id), rec.sequence, None)]
  }

  /** One record as the code handles it: `get_or_create(sequence=..., number=n)`
      when the id parses, `get_or_create(sequence=...)` otherwise. */
  function StepAsWritten(run: FastaRun, rec: FastaRecord): (r: Result<FastaRun, string>)
    requires UniqueAsvs(run.store)
    ensures r.Ok? ==> UniqueAsvs(r.value.store) && r.value.total == run.total + 1
    ensures r.Ok? ==> r.value.updated == run.updated
    // `new` counts the one ASV a record may create
    ensures r.Ok? ==> |r.value.store| == |run.store| + r.value.added - run.added && r.value.added <= run.added + 1
    ensures r.Ok? ==> Settled(r.value.store, rec, AsvNaturalLookup)
    ensures r.Ok? ==> IrregularAfter(run.irregular, r.value, rec, AsvNaturalLookup)
    // the lookup misses and the create violates a unique constraint
    ensures var number := AsvNaturalLookup(rec.id);
            var found := FindSeq(run.store, rec.sequence);
            r.Err? <==> && (found.None? || (number.Some? && run.store[found.value].number != number))
                        && Create(run.store, number, rec.sequence).Err?
    // nothing else changes: the table is kept, or gains the one created ASV
    ensures r.Ok? ==> AsWrittenStore(run.store, rec, r.value.store)
  {
    var number := AsvNaturalLookup(rec.id);
    var found := FindSeq(run.store, rec.sequence);
    // the lookup also filters on the number when there is one
    var hit := if found.Some? && (number.None? || run.store[found.value].number == number) then found else None;
    var got: Result<(AsvStore, nat, bool), string> :=
      if hit.Some? then Ok((run.store, hit.value, false))
      else match Create(run.store, number, rec.sequence)
        case Err(e) => Err(e)
        case Ok(st) => Ok((st, |run.store|, true));
    match got
    case Err(e) => Err(e)
    case Ok((st, pk, isNew)) =>
      var (st1, updated) :=
        if !isNew && pk < |st| && st[pk].number.None? && number.Some? && number != Some(0) then
          (SetNumber(st, pk, number), run.updated + 1)
        else (st, run.updated);
      var irregular := if number.None? then run.irregular[rec.id := pk] else run.irregular;
      FindSeqUnique(st1, rec.sequence, pk);
      Ok(FastaRun(st1, run.total + 1, if isNew then run.added + 1 else run.added, updated, irregular))
  }

  /** The `irregular` dict after one record: an id that does not parse maps to
      the ASV holding the record's sequence, any other id leaves it alone. */
  predicate IrregularAfter(before: map<string, nat>, after: FastaRun, rec: FastaRecord, num: string -> Option<int>) {
    if num(rec.id).None? then
      FindSeq(after.store, rec.sequence).Some?
      && after.irregular == before[rec.id := FindSeq(after.store, rec.sequence).value]
    else after.irregular == before
  }

  /** The keys `irregular` has after one record. */
  lemma IrregularKeys(before: map<string, nat>, after: FastaRun, rec: FastaRecord, num: string -> Option<int>)
    requires IrregularAfter(before, after, rec, num)
    ensures after.irregular.Keys == before.Keys + (if num(rec.id).None? then {rec.id} else {})
  {
  }

  /** `from_fasta` as written, over the records in order. */
  function FromFastaAsWritten(run: FastaRun, recs: seq<FastaRecord>): (r: Result<FastaRun, string>)
    requires UniqueAsvs(run.store)
    ensures r.Ok? ==> UniqueAsvs(r.value.store)
    // every record counted, the old table kept as a prefix, `new` counting the
    // ASVs appended, and `irregular` gaining the ids that do not parse
    ensures r.Ok? ==> AsWrittenTally(run, recs, r.value)
    decreases |recs|
  {
    if |recs| == 0 then
      assert UnparsedIds(recs, AsvNaturalLookup) == {};
      Ok(run)
    else
      match StepAsWritten(run, recs[0])
      case Err(e) => Err(e)
      case Ok(run1) =>
        var r := FromFastaAsWritten(run1, recs[1..]);
        if r.Ok? then
          StepAsWrittenGrows(run, recs[0]);
          AsWrittenCons(run, run1, recs, r.value);
          r
        else r
  }

  /** The counts of the as-written import from `run` to `after` over `recs`. */
  predicate AsWrittenTally(run: FastaRun, recs: seq<FastaRecord>, after: FastaRun) {
    && after.total == run.total + |recs|
    && |run.store| <= |after.store| && after.store[..|run.store|] == run.store
    && |after.store| == |run.store| + after.added - run.added
    && after.irregular.Keys == run.irregular.Keys + UnparsedIds(recs, AsvNaturalLookup)
  }

  /** The first record's step followed by the rest's tally is the whole tally. */
  lemma AsWrittenCons(run: FastaRun, run1: FastaRun, recs: seq<FastaRecord>, after: FastaRun)
    requires |recs| > 0 && run1.total == run.total + 1
    requires |run.store| <= |run1.store| && run1.store[..|run.store|] == run.store
    requires |run1.store| == |run.store| + run1.added - run.added
    requires IrregularAfter(run.irregular, run1, recs[0], AsvNaturalLookup)
    requires AsWrittenTally(run1, recs[1..], after)
    ensures AsWrittenTally(run, recs, after)
  {
    UnparsedCons(recs, AsvNaturalLookup);
    IrregularKeys(run.irregular, run1, recs[0], AsvNaturalLookup);
    PrefixTrans(run.store, run1.store, after.store);
  }

  /** As written, a step keeps the table as a prefix of the new one. */
  lemma StepAsWrittenGrows(run: FastaRun, rec: FastaRecord)
    requires UniqueAsvs(run.store) && StepAsWritten(run, rec).Ok?
    ensures var st := StepAsWritten(run, rec).value.store;
            |run.store| <= |st| && st[..|run.store|] == run.store
  {
    AppendPrefix(run.store, [Asv(AsvNaturalLookup(rec.id), rec.sequence, None)]);
  }

  /** As written, `updated` never moves: a found ASV either matched on its
      number or the id had none. */
  lemma {:induction false} AsWrittenNeverUpdates(run: FastaRun, recs: seq<FastaRecord>)
    requires UniqueAsvs(run.store)
    ensures FromFastaAsWritten(run, recs).Ok? ==> FromFastaAsWritten(run, recs).value.updated == run.updated
    decreases |recs|
  {
    if |recs| > 0 {
      var s := StepAsWritten(run, recs[0]);
      if s.Ok? {
        AsWrittenNeverUpdates(s.value, recs[1..]);
      }
    }
  }

  /** As written, re-loading an unnumbered sequence under an ASV name fails:
      the lookup by sequence and number misses, and creating a second ASV with
      the same sequence violates the unique constraint. */
  lemma AsWrittenRenumberFails(run: FastaRun, pk: nat, n: nat)
    requires UniqueAsvs(run.store) && pk < |run.store| && run.store[pk].number.None?
    requires n > 0
    ensures StepAsWritten(run, FastaRecord(AsvNatural(Some(n), 0).s, run.store[pk].sequence)).Err?
  {
    AsvNaturalRoundTrip(n, 0);
    NumberedRenumberFails(run, pk, AsvNatural(Some(n), 0).s);
  }

  /** The same for any id that reads as a number: the found ASV has none. */
  lemma NumberedRenumberFails(run: FastaRun, pk: nat, id: string)
    requires UniqueAsvs(run.store) && pk < |run.store| && run.store[pk].number.None?
    requires AsvNaturalLookup(id).Some?
    ensures StepAsWritten(run, FastaRecord(id, run.store[pk].sequence)).Err?
  {
    FindSeqUnique(run.store, run.store[pk].sequence, pk);
  }

  // ---------------------------------------------------------------------------
  // The intended behaviour
  //
  // The record's id becomes an ASV number through `num` (`AsvNaturalLookup`
  // in `from_fasta`, see `FromFastaFile`); the properties below hold for any
  // such function.

  /** `st1` extends `st`: every ASV of `st` keeps its place, its sequence and
      any number it had. */
  predicate Extends(st: AsvStore, st1: AsvStore) {
    |st| <= |st1|
    && forall p :: 0 <= p < |st| ==>
         st1[p].sequence == st[p].sequence && (st[p].number.Some? ==> st1[p].number == st[p].number)
  }

  /** A record is settled in a table when its sequence is there and, if its id
      carries a non-zero number, the ASV has that number. */
  predicate Settled(st: AsvStore, rec: FastaRecord, num: string -> Option<int>) {
    var number := num(rec.id);
    FindSeq(st, rec.sequence).Some?
    && (number.Some? && number.value != 0 ==> st[FindSeq(st, rec.sequence).value].number == number)
  }

  /** The integrity error of a found ASV: the id carries a non-zero number the
      ASV does not have and cannot take (it has another, or the number is
      negative or taken). */
  predicate CannotTake(st: AsvStore, pk: nat, number: Option<int>)
    requires pk < |st|
  {
    && number.Some? && number.value != 0 && st[pk].number != number
    && (st[pk].number.None? ==> number.value < 0 || NumberTaken(st, number.value))
  }

  /** When a record fails: a new sequence as its create does, a found ASV when
      it cannot take the id's number. */
  predicate StepRejects(st: AsvStore, rec: FastaRecord, num: string -> Option<int>)
    requires UniqueAsvs(st)
  {
    var found := FindSeq(st, rec.sequence);
    if found.None? then Create(st, num(rec.id), rec.sequence).Err? else CannotTake(st, found.value, num(rec.id))
  }

  /** What a successful step does to the old ASVs and to `updated`: only the
      found ASV may change, and an update is counted exactly when it had no
      number and takes a non-zero one. */
  predicate StepCounts(run: FastaRun, after: FastaRun, rec: FastaRecord, num: string -> Option<int>) {
    var number := num(rec.id);
    var found := FindSeq(run.store, rec.sequence);
    && |run.store| <= |after.store|
    && after.updated == run.updated +
         (if found.Some? && run.store[found.value].number.None? && number.Some? && number.value != 0 then 1 else 0)
    && forall p :: 0 <= p < |run.store| && found != Some(p) ==> after.store[p] == run.store[p]
  }

  /** A record whose sequence is new: create it with the id's number. */
  function StepNew(run: FastaRun, rec: FastaRecord, number: Option<int>): (r: Result<FastaRun, string>)
    requires UniqueAsvs(run.store) && FindSeq(run.store, rec.sequence).None?
    ensures r.Ok? ==> UniqueAsvs(r.value.store) && Extends(run.store, r.value.store)
    ensures r.Ok? ==> r.value.store == run.store + [Asv(number, rec.sequence, None)]
    ensures r.Ok? ==> r.value.added == run.added + 1 && r.value.updated == run.updated
    ensures r.Ok? ==> r.value.irregular == if number.None? then run.irregular[rec.id := |run.store|] else run.irregular
  {
    match Create(run.store, number, rec.sequence)
    case Err(e) => Err(e)
    case Ok(st) =>
      var irregular := if number.None? then run.irregular[rec.id := |run.store|] else run.irregular;
      Ok(FastaRun(st, run.total + 1, run.added + 1, run.updated, irregular))
  }

  /** A record whose sequence is ASV `pk`: number it if it has no number yet,
      fail if it has a different one. */
  function StepFound(run: FastaRun, rec: FastaRecord, number: Option<int>, pk: nat): (r: Result<FastaRun, string>)
    requires UniqueAsvs(run.store) && pk < |run.store| && run.store[pk].sequence == rec.sequence
    ensures r.Ok? ==> UniqueAsvs(r.value.store) && Extends(run.store, r.value.store)
    ensures r.Ok? ==> |r.value.store| == |run.store| && r.value.added == run.added
    ensures r.Ok? && number.Some? && number.value != 0 ==> r.value.store[pk].number == number
    ensures r.Ok? && run.store[pk].number.None? && number.Some? && number.value != 0
            ==> r.value.updated == run.updated + 1
    ensures r.Ok? ==> r.value.irregular == if number.None? then run.irregular[rec.id := pk] else run.irregular
    ensures r.Err? <==> CannotTake(run.store, pk, number)
    // only the found ASV may change, by taking the id's number when it had none
    ensures var renumber := run.store[pk].number.None? && number.Some? && number.value != 0;
            r.Ok? ==> && r.value.store == (if renumber then run.store[pk := run.store[pk].(number := number)] else run.store)
                      && r.value.updated == run.updated + (if renumber then 1 else 0)
  {
    var a := run.store[pk];
    var irregular := if number.None? then run.irregular[rec.id := pk] else run.irregular;
    if number.Some? && number.value != 0 && a.number.None? then
      if number.value < 0 || NumberTaken(run.store, number.value) then Err("IntegrityError")
      else Ok(FastaRun(SetNumber(run.store, pk, number), run.total + 1, run.added, run.updated + 1, irregular))
    else if number.Some? && number.value != 0 && a.number != number then Err("IntegrityError")
    else Ok(run.(total := run.total + 1, irregular := irregular))
  }

  /** An unnumbered ASV found by sequence takes a free non-zero number from the id. */
  lemma StepFoundNumbers(run: FastaRun, rec: FastaRecord, pk: nat, n: int)
    requires UniqueAsvs(run.store) && pk < |run.store| && run.store[pk].sequence == rec.sequence
    requires run.store[pk].number.None?
    requires n > 0 && !NumberTaken(run.store, n)
    ensures StepFound(run, rec, Some(n), pk)
            == Ok(FastaRun(SetNumber(run.store, pk, Some(n)), run.total + 1, run.added, run.updated + 1, run.irregular))
  {
  }

  /** One record as documented: look up by sequence only; a new sequence is
      created with the id's number; an unnumbered ASV gets a non-zero number
      from the id; an ASV whose number differs from a non-zero one in the id is
      an integrity error. */
  function Step(run: FastaRun, rec: FastaRecord, num: string -> Option<int>): (r: Result<FastaRun, string>)
    requires UniqueAsvs(run.store)
    ensures r.Ok? ==> UniqueAsvs(r.value.store) && Extends(run.store, r.value.store)
    ensures r.Ok? ==> r.value.total == run.total + 1
    ensures r.Ok? ==> |r.value.store| == |run.store| + r.value.added - run.added && r.value.added <= run.added + 1
    ensures r.Ok? ==> Settled(r.value.store, rec, num)
    ensures r.Ok? ==> IrregularAfter(run.irregular, r.value, rec, num)
    ensures r.Err? <==> StepRejects(run.store, rec, num)
    ensures r.Ok? ==> StepCounts(run, r.value, rec, num)
  {
    match FindSeq(run.store, rec.sequence)
    case None =>
      var r := StepNew(run, rec, num(rec.id));
      if r.Ok? then
        FindSeqUnique(r.value.store, rec.sequence, |run.store|);
        r
      else r
    case Some(pk) =>
      var r := StepFound(run, rec, num(rec.id), pk);
      if r.Ok? then
        FindSeqUnique(r.value.store, rec.sequence, pk);
        r
      else r
  }

  /** A record whose sequence is in the table is handled by `StepFound`. */
  lemma StepIsFound(run: FastaRun, rec: FastaRecord, num: string -> Option<int>, pk: nat)
    requires UniqueAsvs(run.store) && FindSeq(run.store, rec.sequence) == Some(pk)
    ensures Step(run, rec, num) == StepFound(run, rec, num(rec.id), pk)
  {
  }

  /** `from_fasta` as intended, over the records in order. */
  function FromFasta(run: FastaRun, recs: seq<FastaRecord>, num: string -> Option<int>): (r: Result<FastaRun, string>)
    requires UniqueAsvs(run.store)
    ensures r.Ok? ==> UniqueAsvs(r.value.store) && Extends(run.store, r.value.store)
    ensures r.Ok? ==> r.value.total == run.total + |recs|
    ensures r.Ok? ==> |r.value.store| == |run.store| + r.value.added - run.added
    // the irregular ids gathered are those of the records whose id does not parse
    ensures r.Ok? ==> r.value.irregular.Keys == run.irregular.Keys + UnparsedIds(recs, num)
    decreases |recs|
  {
    if |recs| == 0 then
      assert UnparsedIds(recs, num) == {};
      Ok(run)
    else
      match Step(run, recs[0], num)
      case Err(e) => Err(e)
      case Ok(run1) =>
        UnparsedCons(recs, num);
        IrregularKeys(run.irregular, run1, recs[0], num);
        FromFasta(run1, recs[1..], num)
  }

  /** The import reaches record `i` and that record's step fails. */
  predicate StepFailsAt(run: FastaRun, recs: seq<FastaRecord>, num: string -> Option<int>, i: nat)
    requires UniqueAsvs(run.store) && i < |recs|
  {
    var before := FromFasta(run, recs[..i], num);
    before.Ok? && Step(before.value, recs[i], num).Err?
  }

  /** The import fails exactly when it reaches a record whose step fails. */
  lemma {:induction false} FromFastaFails(run: FastaRun, recs: seq<FastaRecord>, num: string -> Option<int>)
    requires UniqueAsvs(run.store)
    ensures FromFasta(run, recs, num).Err? <==> exists i :: 0 <= i < |recs| && StepFailsAt(run, recs, num, i)
    decreases |recs|
  {
    if |recs| > 0 {
      assert recs[..0] == [];
      var s := Step(run, recs[0], num);
      if s.Err? {
        assert StepFailsAt(run, recs, num, 0);
      } else {
        FromFastaFails(s.value, recs[1..], num);
        assert !StepFailsAt(run, recs, num, 0);
        forall i | 1 <= i < |recs|
          ensures StepFailsAt(run, recs, num, i) == StepFailsAt(s.value, recs[1..], num, i - 1)
        {
          StepFailsShift(run, recs, num, i);
        }
        if FromFasta(run, recs, num).Err? {
          var k :| 0 <= k < |recs| - 1 && StepFailsAt(s.value, recs[1..], num, k);
          assert StepFailsAt(run, recs, num, k + 1);
        }
      }
    }
  }

  /** After a first step that succeeds, failing at `i` is the rest failing at `i - 1`. */
  lemma StepFailsShift(run: FastaRun, recs: seq<FastaRecord>, num: string -> Option<int>, i: nat)
    requires UniqueAsvs(run.store) && 1 <= i < |recs| && Step(run, recs[0], num).Ok?
    ensures StepFailsAt(run, recs, num, i) == StepFailsAt(Step(run, recs[0], num).value, recs[1..], num, i - 1)
  {
    TakeTail(recs, i);
    assert recs[..i][0] == recs[0];
    assert recs[1..][i - 1] == recs[i];
  }

  /** The ids of the records that do not parse as ASV names. */
  function UnparsedIds(recs: seq<FastaRecord>, num: string -> Option<int>): set<string> {
    set i | 0 <= i < |recs| && num(recs[i].id).None? :: recs[i].id
  }

  lemma UnparsedCons(recs: seq<FastaRecord>, num: string -> Option<int>)
    requires |recs| > 0
    ensures UnparsedIds(recs, num)
            == (if num(recs[0].id).None? then {recs[0].id} else {}) + UnparsedIds(recs[1..], num)
  {
    var tail := recs[1..];
    forall x | x in UnparsedIds(recs, num)
      ensures x in (if num(recs[0].id).None? then {recs[0].id} else {}) + UnparsedIds(tail, num)
    {
      var i :| 0 <= i < |recs| && num(recs[i].id).None? && recs[i].id == x;
      if i > 0 {
        assert tail[i - 1] == recs[i];
      }
    }
    forall x | x in UnparsedIds(tail, num) ensures x in UnparsedIds(recs, num) {
      var i :| 0 <= i < |tail| && num(tail[i].id).None? && tail[i].id == x;
      assert recs[i + 1] == tail[i];
    }
  }

  /** `from_fasta` as intended, with ids parsed as ASV names. */
  function FromFastaFile(run: FastaRun, recs: seq<FastaRecord>): (r: Result<FastaRun, string>)
    requires UniqueAsvs(run.store)
    ensures r.Ok? ==> UniqueAsvs(r.value.store) && Extends(run.store, r.value.store)
    ensures r.Ok? ==> r.value.total == run.total + |recs|
    ensures r.Ok? ==> |r.value.store| == |run.store| + r.value.added - run.added
    ensures r.Ok? ==> r.value.irregular.Keys == run.irregular.Keys + UnparsedIds(recs, AsvNaturalLookup)
    ensures r.Ok? ==> forall i :: 0 <= i < |recs| ==> Settled(r.value.store, recs[i], AsvNaturalLookup)
    ensures r.Err? <==> exists i :: 0 <= i < |recs| && StepFailsAt(run, recs, AsvNaturalLookup, i)
  {
    FromFastaFails(run, recs, AsvNaturalLookup);
    var r := FromFasta(run, recs, AsvNaturalLookup);
    if r.Ok? then
      assert forall i :: 0 <= i < |recs| ==> Settled(r.value.store, recs[i], AsvNaturalLookup) by {
        forall i | 0 <= i < |recs| ensures Settled(r.value.store, recs[i], AsvNaturalLookup) {
          FromFastaSettles(run, recs, AsvNaturalLookup, i);
        }
      }
      r
    else r
  }

  /** The renumbering the code misses: an unnumbered ASV loaded again under an
      ASV name with a free number gets that number, and the update is counted. */
  lemma RenumberUpdates(run: FastaRun, pk: nat, n: nat)
    requires UniqueAsvs(run.store) && pk < |run.store| && run.store[pk].number.None?
    requires n > 0 && !NumberTaken(run.store, n)
    ensures var r := Step(run, FastaRecord(AsvNatural(Some(n), 0).s, run.store[pk].sequence), AsvNaturalLookup);
            && r.Ok?
            && r.value.store == SetNumber(run.store, pk, Some(n))
            && r.value.added == run.added && r.value.updated == run.updated + 1
  {
    var rec := FastaRecord(AsvNatural(Some(n), 0).s, run.store[pk].sequence);
    AsvNaturalRoundTrip(n, 0);
    FindSeqUnique(run.store, rec.sequence, pk);
    StepIsFound(run, rec, AsvNaturalLookup, pk);
    StepFoundNumbers(run, rec, pk, n);
  }

  /** A settled record stays settled in any table that extends this one. */
  lemma ExtendsKeepsSettled(st: AsvStore, st1: AsvStore, rec: FastaRecord, num: string -> Option<int>)
    requires UniqueAsvs(st1) && Extends(st, st1) && Settled(st, rec, num)
    ensures Settled(st1, rec, num)
  {
    var p := FindSeq(st, rec.sequence).value;
    FindSeqUnique(st1, rec.sequence, p);
  }

  /** On success every record is settled in the final table. */
  lemma {:induction false} FromFastaSettles(run: FastaRun, recs: seq<FastaRecord>, num: string -> Option<int>, i: nat)
    requires UniqueAsvs(run.store) && i < |recs| && FromFasta(run, recs, num).Ok?
    ensures Settled(FromFasta(run, recs, num).value.store, recs[i], num)
    decreases |recs|
  {
    if i == 0 {
      FirstSettled(run, recs, num);
    } else {
      var s := Step(run, recs[0], num).value;
      assert FromFasta(run, recs, num) == FromFasta(s, recs[1..], num);
      DropIndex(recs, 1);
      FromFastaSettles(s, recs[1..], num, i - 1);
    }
  }

  /** The first record is settled by its step and stays settled. */
  lemma FirstSettled(run: FastaRun, recs: seq<FastaRecord>, num: string -> Option<int>)
    requires UniqueAsvs(run.store) && 0 < |recs| && FromFasta(run, recs, num).Ok?
    ensures Settled(FromFasta(run, recs, num).value.store, recs[0], num)
  {
    var s := Step(run, recs[0], num).value;
    var rest := FromFasta(s, recs[1..], num);
    assert FromFasta(run, recs, num) == rest;
    ExtendsKeepsSettled(s.store, rest.value.store, recs[0], num);
  }

  /** A settled record changes nothing: it is found, numbered as its id says,
      and counted only in `total`. */
  lemma StepSettledQuiet(run: FastaRun, rec: FastaRecord, num: string -> Option<int>)
    requires UniqueAsvs(run.store) && Settled(run.store, rec, num)
    ensures Step(run, rec, num).Ok?
    ensures var r := Step(run, rec, num).value;
            r.store == run.store && r.added == run.added && r.updated == run.updated
  {
  }

  /** Loading records that are all settled creates and updates nothing and
      leaves the table as it is; with `FromFastaSettles` this makes a second
      load of the same file a no-op. */
  lemma {:induction false} ReloadQuiet(run: FastaRun, recs: seq<FastaRecord>, num: string -> Option<int>)
    requires UniqueAsvs(run.store)
    requires forall i :: 0 <= i < |recs| ==> Settled(run.store, recs[i], num)
    ensures FromFasta(run, recs, num).Ok?
    ensures var r := FromFasta(run, recs, num).value;
            r.store == run.store && r.added == run.added && r.updated == run.updated
    decreases |recs|
  {
    if |recs| > 0 {
      StepSettledQuiet(run, recs[0], num);
      var s := Step(run, recs[0], num).value;
      forall i | 0 <= i < |recs[1..]| ensures Settled(s.store, recs[1..][i], num) {
        assert recs[1..][i] == recs[i + 1];
      }
      ReloadQuiet(s, recs[1..], num);
    }
  }

  /** An id no later record carries keeps its `irregular` entry. */
  lemma {:induction false} FromFastaKeepsIrregular(run: FastaRun, recs: seq<FastaRecord>, num: string -> Option<int>, id: string)
    requires UniqueAsvs(run.store) && FromFasta(run, recs, num).Ok? && id in run.irregular
    requires forall j :: 0 <= j < |recs| ==> recs[j].id != id
    ensures id in FromFasta(run, recs, num).value.irregular
    ensures FromFasta(run, recs, num).value.irregular[id] == run.irregular[id]
    decreases |recs|
  {
    if |recs| > 0 {
      var s := Step(run, recs[0], num).value;
      assert FromFasta(run, recs, num) == FromFasta(s, recs[1..], num);
      FromFastaKeepsIrregular(s, recs[1..], num, id);
    }
  }

  /** What `irregular` maps an id that does not parse to: the ASV holding the
      sequence of the last record with that id. */
  lemma {:induction false} FromFastaIrregular(run: FastaRun, recs: seq<FastaRecord>, num: string -> Option<int>, i: nat)
    requires UniqueAsvs(run.store) && FromFasta(run, recs, num).Ok?
    requires i < |recs| && num(recs[i].id).None?
    requires forall j :: i < j < |recs| ==> recs[j].id != recs[i].id
    ensures var r := FromFasta(run, recs, num).value;
            && recs[i].id in r.irregular
            && FindSeq(r.store, recs[i].sequence) == Some(r.irregular[recs[i].id])
    decreases |recs|
  {
    var s := Step(run, recs[0], num).value;
    var r := FromFasta(s, recs[1..], num).value;
    assert FromFasta(run, recs, num).value == r;
    if i == 0 {
      var p := FindSeq(s.store, recs[0].sequence).value;
      assert s.irregular[recs[0].id] == p;
      forall j | 0 <= j < |recs[1..]| ensures recs[1..][j].id != recs[0].id {
        assert recs[1..][j] == recs[j + 1];
      }
      FromFastaKeepsIrregular(s, recs[1..], num, recs[0].id);
      FindSeqUnique(r.store, recs[0].sequence, p);
    } else {
      var tail := recs[1..];
      assert tail[i - 1] == recs[i];
      forall j | i - 1 < j < |tail| ensures tail[j].id != tail[i - 1].id {
        assert tail[j] == recs[j + 1];
      }
      FromFastaIrregular(s, tail, num, i - 1);
    }
  }
}
