/**
 * The per-object accounting rule of the loader (`AbstractLoader.account`):
 * a new object is counted under `new`; an existing object with a proposed
 * `from_row` is compared with it, a consistent difference is counted under
 * `added` and a conflicting one recorded under `changed`; the proposed values
 * are written only when consistent or when overwriting is allowed; the object
 * is then remembered in the row's record accumulator.
 */
module LoadAccount {
  import opened Basics
  import opened LoadStore

  /** The model code the loader calls but which is not part of this model:
      `obj.compare(from_row)` (consistency flag and differing field names) and
      `obj.full_clean(); obj.save()` (an error, if any). */
  datatype Collab = Collab(
    compare: (Entity, Assignments) -> (bool, seq<string>),
    check: Entity -> Option<LoadError>)

  /** What one row's processing works on: the run's tallies, the store and the
      record accumulator `rec` (model name to primary key). */
  datatype RowCtx = RowCtx(stats: Stats, store: Store, rec: map<string, nat>)

  /** The state after a processing step, and the error it raised if any.  After
      an error `ctx` holds whatever had been done up to the raise. */
  datatype Step = Step(ctx: RowCtx, err: Option<LoadError>)

  /** The `(field, current, proposed)` triples recorded for a conflicting change. */
  function Diffs(obj: Entity, fromRow: Assignments, diff: seq<string>): (r: seq<FieldDiff>)
    ensures |r| == |diff|
    ensures forall i :: 0 <= i < |diff| ==>
              r[i].field == diff[i] && r[i].current == FieldOf(obj, diff[i]) && r[i].proposed == Get(fromRow, diff[i])
  {
    seq(|diff|, i requires 0 <= i < |diff| => FieldDiff(diff[i], FieldOf(obj, diff[i]), Get(fromRow, diff[i])))
  }

  /** `from_row.get(k)`: the last assignment to `k`, `None` if there is none. */
  function Get(a: Assignments, k: string): (v: Value)
    ensures !HasKey(a, k) ==> v == Null
    ensures HasKey(a, k) ==> exists i :: 0 <= i < |a| && a[i] == (k, v) && forall j :: i < j < |a| ==> a[j].0 != k
  {
    if |a| == 0 then Null
    else if a[|a| - 1].0 == k then a[|a| - 1].1
    else (HasKeyLast(a); Get(a[..|a| - 1], k))
  }

  /** `from_row.get(k)` is the value `setattr` leaves in field `k` once
      `from_row` has been written. */
  lemma {:induction false} GetIsWritten(fields: map<string, Value>, a: Assignments, k: string)
    requires HasKey(a, k)
    ensures k in Apply(fields, a) && Apply(fields, a)[k] == Get(a, k)
  {
    var n := |a| - 1;
    if a[n].0 != k {
      HasKeyLast(a);
      GetIsWritten(fields, a[..n], k);
    }
  }

  /** Does `account` write `from_row` into an existing object? */
  predicate Writes(c: Collab, overwrite: bool, obj: Entity, fromRow: Assignments) {
    var (consistent, diff) := c.compare(obj, fromRow);
    |diff| > 0 && (consistent || overwrite)
  }

  /** `account(obj, is_new, from_row)` for the object with primary key `pk`. */
  function Account(c: Collab, overwrite: bool, ctx: RowCtx, pk: nat, isNew: bool, fromRow: Option<Assignments>)
    : (r: Step)
    requires pk < |ctx.store|
    // a new object is counted and validated, nothing else is tallied
    ensures isNew ==> r.ctx.stats == ctx.stats.(created := Bump(ctx.stats.created, ctx.store[pk].model))
    ensures isNew ==> r.ctx.store == ctx.store && r.err == c.check(ctx.store[pk])
    // an existing object without proposal is only remembered
    ensures !isNew && fromRow.None? ==> r.ctx.stats == ctx.stats && r.ctx.store == ctx.store && r.err.None?
    // an empty difference changes nothing
    ensures !isNew && fromRow.Some? && |c.compare(ctx.store[pk], fromRow.value).1| == 0 ==>
              r.ctx.stats == ctx.stats && r.ctx.store == ctx.store && r.err.None?
    // a consistent difference is an addition, a conflicting one a recorded change
    ensures !isNew && fromRow.Some? && |c.compare(ctx.store[pk], fromRow.value).1| > 0 ==>
              var (consistent, diff) := c.compare(ctx.store[pk], fromRow.value);
              var m := ctx.store[pk].model;
              r.ctx.stats ==
                if consistent then ctx.stats.(added := Bump(ctx.stats.added, m))
                else ctx.stats.(changed := AppendChange(ctx.stats.changed, m,
                                                        Change(pk, Diffs(ctx.store[pk], fromRow.value, diff))))
    // values are written only if consistent or overwriting is allowed
    ensures !isNew && fromRow.Some? && Writes(c, overwrite, ctx.store[pk], fromRow.value) ==>
              var written := Entity(ctx.store[pk].model, Apply(ctx.store[pk].fields, fromRow.value));
              r.err == c.check(written) && (r.err.None? ==> r.ctx.store == ctx.store[pk := written])
    ensures !isNew && fromRow.Some? && !Writes(c, overwrite, ctx.store[pk], fromRow.value) ==>
              r.ctx.store == ctx.store && r.err.None?
    // on success the object is in the record accumulator
    ensures r.err.None? ==> r.ctx.rec == ctx.rec[ctx.store[pk].model := pk]
  {
    var obj := ctx.store[pk];
    var m := obj.model;
    if isNew then
      var stats := ctx.stats.(created := Bump(ctx.stats.created, m));
      match c.check(obj)
      case Some(e) => Step(ctx.(stats := stats), Some(e))
      case None => Step(RowCtx(stats, ctx.store, ctx.rec[m := pk]), None)
    else if fromRow.Some? then
      var (consistent, diff) := c.compare(obj, fromRow.value);
      var stats :=
        if |diff| == 0 then ctx.stats
        else if consistent then ctx.stats.(added := Bump(ctx.stats.added, m))
        else ctx.stats.(changed := AppendChange(ctx.stats.changed, m, Change(pk, Diffs(obj, fromRow.value, diff))));
      if |diff| > 0 && (consistent || overwrite) then
        var written := Entity(m, Apply(obj.fields, fromRow.value));
        match c.check(written)
        case Some(e) => Step(ctx.(stats := stats), Some(e))
        case None => Step(RowCtx(stats, ctx.store[pk := written], ctx.rec[m := pk]), None)
      else
        Step(RowCtx(stats, ctx.store, ctx.rec[m := pk]), None)
    else
      Step(ctx.(rec := ctx.rec[m := pk]), None)
  }

  // ---------------------------------------------------------------------------
  // A reference comparison standing in for `obj.compare`

  /** A field counts as unset when it is `None` or blank. */
  predicate Unset(v: Value) {
    v == Null || v == Str("")
  }

  /** The proposed fields whose value differs from the object's. */
  function DiffFields(obj: Entity, fromRow: Assignments): (r: seq<string>)
    ensures forall i :: 0 <= i < |r| ==> HasKey(fromRow, r[i])
  {
    if |fromRow| == 0 then []
    else
      var (k, v) := fromRow[0];
      var rest := DiffFields(obj, fromRow[1..]);
      forall i | 0 <= i < |rest| ensures HasKey(fromRow, rest[i]) {
        var j :| 0 <= j < |fromRow[1..]| && fromRow[1..][j].0 == rest[i];
        assert fromRow[j + 1].0 == rest[i];
      }
      (if FieldOf(obj, k) != v then [k] else []) + rest
  }

  /** Field-by-field comparison: a difference is consistent when every differing
      field is currently unset, i.e. the row only fills in missing data. */
  function FieldCompare(obj: Entity, fromRow: Assignments): (bool, seq<string>) {
    var diff := DiffFields(obj, fromRow);
    (forall i :: 0 <= i < |diff| ==> Unset(FieldOf(obj, diff[i])), diff)
  }

  /** Filling an unset field of an existing object is counted as an addition
      and written even when overwriting is off. */
  lemma FillUnsetIsAddition(check: Entity -> Option<LoadError>, overwrite: bool, ctx: RowCtx, pk: nat, x: string, v: string)
    requires pk < |ctx.store|
    requires Unset(FieldOf(ctx.store[pk], x)) && v != ""
    requires check(Entity(ctx.store[pk].model, ctx.store[pk].fields[x := Str(v)])).None?
    ensures var r := Account(Collab(FieldCompare, check), overwrite, ctx, pk, false, Some([(x, Str(v))]));
            && r.err.None?
            && r.ctx.stats == ctx.stats.(added := Bump(ctx.stats.added, ctx.store[pk].model))
            && r.ctx.store[pk].fields[x] == Str(v)
  {
    var obj := ctx.store[pk];
    var fr := [(x, Str(v))];
    assert DiffFields(obj, fr) == [x] by {
      assert fr[1..] == [];
    }
    assert Apply(obj.fields, fr) == obj.fields[x := Str(v)] by {
      assert fr[..0] == [];
    }
  }

  /** Replacing a set field with a different value is a conflicting change: it
      is recorded with its current and proposed values, and written only when
      overwriting is allowed. */
  lemma ReplaceSetIsChange(check: Entity -> Option<LoadError>, overwrite: bool, ctx: RowCtx, pk: nat, x: string, v1: string, v2: string)
    requires pk < |ctx.store|
    requires FieldOf(ctx.store[pk], x) == Str(v1) && v1 != "" && v1 != v2
    requires check(Entity(ctx.store[pk].model, ctx.store[pk].fields[x := Str(v2)])).None?
    ensures var r := Account(Collab(FieldCompare, check), overwrite, ctx, pk, false, Some([(x, Str(v2))]));
            && r.err.None?
            && r.ctx.stats == ctx.stats.(changed := AppendChange(ctx.stats.changed, ctx.store[pk].model,
                                                                 Change(pk, [FieldDiff(x, Str(v1), Str(v2))])))
            && r.ctx.store[pk].fields[x] == (if overwrite then Str(v2) else Str(v1))
  {
    var obj := ctx.store[pk];
    var fr := [(x, Str(v2))];
    assert DiffFields(obj, fr) == [x] by {
      assert fr[1..] == [];
    }
    assert !Unset(FieldOf(obj, x));
    assert Apply(obj.fields, fr) == obj.fields[x := Str(v2)] by {
      assert fr[..0] == [];
    }
    assert Get(fr, x) == Str(v2);
    assert Diffs(obj, fr, [x]) == [FieldDiff(x, Str(v1), Str(v2))];
    assert !FieldCompare(obj, fr).0 by {
      assert DiffFields(obj, fr)[0] == x;
    }
  }

  /** Once `from_row` has been written, the object agrees with it. */
  lemma {:induction false} NoDiffAfterApply(obj: Entity, fromRow: Assignments)
    requires DistinctKeys(fromRow)
    ensures DiffFields(Entity(obj.model, Apply(obj.fields, fromRow)), fromRow) == []
  {
    ApplyDistinct(obj.fields, fromRow);
    NoDiffWhenAgreeing(Entity(obj.model, Apply(obj.fields, fromRow)), fromRow);
  }

  lemma {:induction false} NoDiffWhenAgreeing(obj: Entity, fromRow: Assignments)
    requires forall i :: 0 <= i < |fromRow| ==> fromRow[i].0 in obj.fields && obj.fields[fromRow[i].0] == fromRow[i].1
    ensures DiffFields(obj, fromRow) == []
  {
    if |fromRow| > 0 {
      NoDiffWhenAgreeing(obj, fromRow[1..]);
    }
  }

  /** Accounting the same row twice: after the first pass wrote `from_row`, the
      second finds no difference, so it neither counts nor changes anything. */
  lemma AccountTwiceQuiet(check: Entity -> Option<LoadError>, overwrite: bool, ctx: RowCtx, pk: nat, fromRow: Assignments)
    requires pk < |ctx.store| && DistinctKeys(fromRow)
    requires Account(Collab(FieldCompare, check), overwrite, ctx, pk, false, Some(fromRow)).err.None?
    ensures var c := Collab(FieldCompare, check);
            var r1 := Account(c, overwrite, ctx, pk, false, Some(fromRow));
            var r2 := Account(c, overwrite, r1.ctx, pk, false, Some(fromRow));
            Writes(c, overwrite, ctx.store[pk], fromRow) ==>
              r2.err.None? && r2.ctx.stats == r1.ctx.stats && r2.ctx.store == r1.ctx.store
  {
    var c := Collab(FieldCompare, check);
    var obj := ctx.store[pk];
    if Writes(c, overwrite, obj, fromRow) {
      NoDiffAfterApply(obj, fromRow);
    }
  }
}
