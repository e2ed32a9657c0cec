/**
 * `Abundance.from_file`: the loop over the (sample, ASV, count) cells of a
 * shared table that drops zeros, skips unknown samples, resolves ASV names to
 * ASV records and builds one abundance record per remaining cell.
 */
module SeqAbundance {
  import opened Basics
  import opened SeqNames
  import opened Utils

  /** How an ASV is looked up: by its parsed number, or by its raw name (the
      irregular names of a fasta import). */
  datatype AsvKey = Num(n: int) | Name(s: string)

  /** The key of an ASV name in the shared table. */
  function AsvKeyOf(asv: string): (k: AsvKey)
    ensures k.Num? <==> AsvNaturalLookup(asv).Some?
    ensures k.Num? ==> k.n == AsvNaturalLookup(asv).value
    ensures k.Name? ==> k.s == asv
  {
    match AsvNaturalLookup(asv)
    case Some(n) => Num(n)
    case None => Name(asv)
  }

  /** One cell of the table. */
  datatype Cell = Cell(sample: string, asv: string, count: int)

  /** An abundance record to be created: name, count, sequencing and ASV by primary key. */
  datatype AbundanceRec = AbundanceRec(name: string, count: int, sequencing: nat, asv: nat)

  /** The records built and the cells dropped as zero or skipped. */
  datatype Tally = Tally(objs: seq<AbundanceRec>, zeros: nat, skipped: nat)

  /** What happens to one cell: dropped as zero, skipped, unknown ASV, or a record. */
  datatype CellFate = Zero | Skip | Unknown | Keep(rec: AbundanceRec)

  /** Where the loop looks names up: the sequencings by sample name, the ASVs
      by key, and how an ASV name becomes a key (`AsvKeyOf` in `from_file`;
      the properties below hold for any key function). */
  datatype Lookup = Lookup(sequencings: map<string, nat>, asvs: map<AsvKey, nat>, key: string -> AsvKey)

  function Fate(c: Cell, lk: Lookup): CellFate {
    if c.count == 0 then Zero
    else if c.sample !in lk.sequencings then Skip
    else if lk.key(c.asv) !in lk.asvs then Unknown
    else Keep(AbundanceRec(c.asv, c.count, lk.sequencings[c.sample], lk.asvs[lk.key(c.asv)]))
  }

  /** One cell's effect on the tally so far. */
  function StepTally(t: Tally, c: Cell, fate: CellFate): Result<Tally, string> {
    match fate
    case Zero => Ok(t.(zeros := t.zeros + 1))
    case Skip => Ok(t.(skipped := t.skipped + 1))
    case Unknown => Err("Unknown ASV: " + c.asv)
    case Keep(rec) => Ok(t.(objs := t.objs + [rec]))
  }

  /** The reference result for a prefix of the cells: the tally, or the error
      message of the first unknown ASV. */
  function Tallied(cells: seq<Cell>, lk: Lookup): Result<Tally, string>
  {
    if |cells| == 0 then Ok(Tally([], 0, 0))
    else
      match Tallied(cells[..|cells| - 1], lk)
      case Err(m) => Err(m)
      case Ok(t) => StepTally(t, cells[|cells| - 1], Fate(cells[|cells| - 1], lk))
  }

  /** `from_file`'s loop over the cells, returning the records and the
      `count`, `zeros` and `skipped` figures, or the `UserDataError` message. */
  method FromFile(cells: seq<Cell>, sequencings: map<string, nat>, asvs: map<AsvKey, nat>)
    returns (r: Result<Tally, string>)
    ensures r == Tallied(cells, Lookup(sequencings, asvs, AsvKeyOf))
  {
    var lk := Lookup(sequencings, asvs, AsvKeyOf);
    var objs: seq<AbundanceRec> := [];
    var zeros, skipped := 0, 0;
    var i := 0;
    while i < |cells|
      invariant 0 <= i <= |cells|
      invariant Tallied(cells[..i], lk) == Ok(Tally(objs, zeros, skipped))
    {
      var c := cells[i];
      assert cells[..i + 1][..i] == cells[..i];
      assert Tallied(cells[..i + 1], lk)
             == StepTally(Tally(objs, zeros, skipped), c, Fate(c, lk));
      match Fate(c, lk) {
        case Zero =>
          zeros := zeros + 1;
        case Skip =>
          skipped := skipped + 1;
        case Unknown =>
          ErrSticks(cells, lk, i + 1);
          return Err("Unknown ASV: " + c.asv);
        case Keep(rec) =>
          objs := objs + [rec];
      }
      i := i + 1;
    }
    assert cells[..i] == cells;
    return Ok(Tally(objs, zeros, skipped));
  }

  /** On success every cell is accounted for exactly once: the zeros and the
      skipped cells are counted, and the records are exactly those of the kept
      cells, in order. */
  lemma {:induction false} TalliedAccounts(cells: seq<Cell>, lk: Lookup)
    requires Tallied(cells, lk).Ok?
    ensures var t := Tallied(cells, lk).value;
            && |t.objs| + t.zeros + t.skipped == |cells|
            && t.zeros == |Zeros(cells)|
            && t.skipped == |Skips(cells, lk)|
            && t.objs == Kept(cells, lk)
            && (forall j :: 0 <= j < |t.objs| ==> t.objs[j].count != 0)
  {
    if |cells| > 0 {
      var init := cells[..|cells| - 1];
      TalliedAccounts(init, lk);
      var c := cells[|cells| - 1];
      var t := Tallied(init, lk).value;
      assert Tallied(cells, lk) == StepTally(t, c, Fate(c, lk));
      ZerosSnoc(cells);
      SkipsSnoc(cells, lk);
      KeptSnoc(cells, lk);
    }
  }

  /** The positions of the cells with a zero count. */
  function Zeros(cells: seq<Cell>): set<int> {
    set i | 0 <= i < |cells| && cells[i].count == 0
  }

  /** A cell appended adds its position when its count is zero. */
  lemma ZerosSnoc(cells: seq<Cell>)
    requires |cells| > 0
    ensures |Zeros(cells)| == |Zeros(cells[..|cells| - 1])| + (if cells[|cells| - 1].count == 0 then 1 else 0)
  {
    var init := cells[..|cells| - 1];
    if cells[|cells| - 1].count == 0 {
      assert Zeros(cells) == Zeros(init) + {|cells| - 1};
    } else {
      assert Zeros(cells) == Zeros(init);
    }
  }

  /** The positions of the counted cells of a sample without sequencing record. */
  function Skips(cells: seq<Cell>, lk: Lookup): set<int> {
    set i | 0 <= i < |cells| && cells[i].count != 0 && cells[i].sample !in lk.sequencings
  }

  /** A cell appended adds its position when it is skipped. */
  lemma SkipsSnoc(cells: seq<Cell>, lk: Lookup)
    requires |cells| > 0
    ensures |Skips(cells, lk)| == |Skips(cells[..|cells| - 1], lk)| + (if Fate(cells[|cells| - 1], lk).Skip? then 1 else 0)
  {
    var init := cells[..|cells| - 1];
    if Fate(cells[|cells| - 1], lk).Skip? {
      assert Skips(cells, lk) == Skips(init, lk) + {|cells| - 1};
    } else {
      assert Skips(cells, lk) == Skips(init, lk);
    }
  }

  /** The record a cell contributes, if it is kept. */
  function KeptRec(f: CellFate): Option<AbundanceRec> {
    if f.Keep? then Some(f.rec) else None
  }

  /** The records of the kept cells, in cell order. */
  function Kept(cells: seq<Cell>, lk: Lookup): seq<AbundanceRec> {
    FilterSome(seq(|cells|, i requires 0 <= i < |cells| => KeptRec(Fate(cells[i], lk))))
  }

  /** A cell appended adds its record when it is kept. */
  lemma KeptSnoc(cells: seq<Cell>, lk: Lookup)
    requires |cells| > 0
    ensures var f := Fate(cells[|cells| - 1], lk);
            Kept(cells, lk) == Kept(cells[..|cells| - 1], lk) + (if f.Keep? then [f.rec] else [])
  {
    var n := |cells| - 1;
    var init := cells[..n];
    var a := seq(|init|, i requires 0 <= i < |init| => KeptRec(Fate(init[i], lk)));
    var b := [KeptRec(Fate(cells[n], lk))];
    assert seq(|cells|, i requires 0 <= i < |cells| => KeptRec(Fate(cells[i], lk))) == a + b;
    FilterSomeConcat(a, b);
    assert b[1..] == [];
  }

  /** Once a prefix has failed, the whole run fails the same way. */
  lemma {:induction false} ErrSticks(cells: seq<Cell>, lk: Lookup, k: nat)
    requires k <= |cells| && Tallied(cells[..k], lk).Err?
    ensures Tallied(cells, lk) == Tallied(cells[..k], lk)
    decreases |cells| - k
  {
    if k < |cells| {
      var init := cells[..|cells| - 1];
      assert init[..k] == cells[..k];
      ErrSticks(init, lk, k);
    } else {
      assert cells[..k] == cells;
    }
  }

  /** Does the cell name an unknown ASV (with a non-zero count and a known sample)? */
  predicate UnknownAt(cells: seq<Cell>, lk: Lookup, i: int) {
    0 <= i < |cells| && Fate(cells[i], lk).Unknown?
  }

  /** The cells of a prefix fare as they do in the whole table. */
  lemma UnknownPrefix(cells: seq<Cell>, lk: Lookup, n: nat)
    requires n <= |cells|
    ensures forall i :: 0 <= i < n ==> (UnknownAt(cells[..n], lk, i) <==> UnknownAt(cells, lk, i))
  {
  }

  /** A cell naming an unknown ASV fails the run, whatever comes before or after it. */
  lemma {:induction false} UnknownFails(cells: seq<Cell>, lk: Lookup, i: nat)
    requires i < |cells| && UnknownAt(cells, lk, i)
    ensures Tallied(cells, lk).Err?
    decreases |cells|
  {
    var n := |cells| - 1;
    if i < n {
      UnknownPrefix(cells, lk, n);
      UnknownFails(cells[..n], lk, i);
    }
  }

  /** A failed run has a cell naming an unknown ASV. */
  lemma {:induction false} FailsHasUnknown(cells: seq<Cell>, lk: Lookup)
    requires Tallied(cells, lk).Err?
    ensures exists i :: 0 <= i < |cells| && UnknownAt(cells, lk, i)
  {
    var n := |cells| - 1;
    var init := cells[..n];
    if Tallied(init, lk).Err? {
      FailsHasUnknown(init, lk);
      var i :| 0 <= i < n && UnknownAt(init, lk, i);
      UnknownPrefix(cells, lk, n);
      assert UnknownAt(cells, lk, i);
    } else {
      assert UnknownAt(cells, lk, n);
    }
  }

  /** The run fails exactly when some counted cell of a known sample names an
      unknown ASV. */
  lemma TalliedFails(cells: seq<Cell>, lk: Lookup)
    ensures Tallied(cells, lk).Err? <==> exists i :: 0 <= i < |cells| && UnknownAt(cells, lk, i)
  {
    if Tallied(cells, lk).Err? {
      FailsHasUnknown(cells, lk);
    }
    if i :| 0 <= i < |cells| && UnknownAt(cells, lk, i) {
      UnknownFails(cells, lk, i);
    }
  }

  /** A prefix without an unknown ASV is tallied without error. */
  lemma PrefixOk(cells: seq<Cell>, lk: Lookup, n: nat)
    requires n <= |cells|
    requires forall j :: 0 <= j < n ==> !UnknownAt(cells, lk, j)
    ensures Tallied(cells[..n], lk).Ok?
  {
    UnknownPrefix(cells, lk, n);
    if Tallied(cells[..n], lk).Err? {
      FailsHasUnknown(cells[..n], lk);
    }
  }

  /** The error message names the first unknown ASV. */
  lemma TalliedFirstUnknown(cells: seq<Cell>, lk: Lookup, i: nat)
    requires i < |cells| && UnknownAt(cells, lk, i)
    requires forall j :: 0 <= j < i ==> !UnknownAt(cells, lk, j)
    ensures Tallied(cells, lk) == Err("Unknown ASV: " + cells[i].asv)
  {
    var pre := cells[..i];
    PrefixOk(cells, lk, i);
    var t := Tallied(pre, lk).value;
    assert cells[..i + 1][..i] == pre;
    assert Tallied(cells[..i + 1], lk) == StepTally(t, cells[i], Unknown);
    ErrSticks(cells, lk, i + 1);
  }
}
