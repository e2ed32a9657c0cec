/**
 * The loader's view of the persistent store and of its run statistics: field
 * values, ordered field assignments (a Python `dict` in insertion order),
 * entities indexed by primary key, get-or-create by natural-key lookup, the
 * `new`/`added`/`changed` tallies and the error kinds the loader tells apart.
 */
module LoadStore {
  import opened Basics

  /** A field value: `None`, a string, an integer or a reference to another
      stored object by primary key. */
  datatype Value = Null | Str(s: string) | Int(i: int) | Ref(pk: nat)

  /** Field assignments in insertion order, as a `dict` like `from_row`. */
  type Assignments = seq<(string, Value)>

  predicate DistinctKeys(a: Assignments) {
    forall i, j :: 0 <= i < j < |a| ==> a[i].0 != a[j].0
  }

  predicate HasKey(a: Assignments, k: string) {
    exists i :: 0 <= i < |a| && a[i].0 == k
  }

  /** A stored object: its model name and its current field values. */
  datatype Entity = Entity(model: string, fields: map<string, Value>)

  /** `getattr(obj, k)`, `None` for an unset field. */
  function FieldOf(e: Entity, k: string): Value {
    if k in e.fields then e.fields[k] else Null
  }

  /** `for k, v in a.items(): setattr(obj, k, v)`: later assignments win, fields
      not assigned keep their values. */
  function Apply(fields: map<string, Value>, a: Assignments): (r: map<string, Value>)
    ensures forall k :: k in r <==> k in fields || HasKey(a, k)
    ensures forall k :: k in fields && !HasKey(a, k) ==> r[k] == fields[k]
  {
    if |a| == 0 then fields
    else
      var last := a[|a| - 1];
      HasKeyLast(a);
      Apply(fields, a[..|a| - 1])[last.0 := last.1]
  }

  lemma HasKeyLast(a: Assignments)
    requires |a| > 0
    ensures forall k :: HasKey(a, k) <==> HasKey(a[..|a| - 1], k) || k == a[|a| - 1].0
  {
    forall k | HasKey(a, k) ensures HasKey(a[..|a| - 1], k) || k == a[|a| - 1].0 {
      var i :| 0 <= i < |a| && a[i].0 == k;
      if i < |a| - 1 {
        assert a[..|a| - 1][i].0 == k;
      }
    }
    forall k | HasKey(a[..|a| - 1], k) ensures HasKey(a, k) {
      var i :| 0 <= i < |a| - 1 && a[..|a| - 1][i].0 == k;
      assert a[i].0 == k;
    }
  }

  /** With distinct keys every assignment is in effect afterwards. */
  lemma {:induction false} ApplyDistinct(fields: map<string, Value>, a: Assignments)
    requires DistinctKeys(a)
    ensures forall i :: 0 <= i < |a| ==> a[i].0 in Apply(fields, a) && Apply(fields, a)[a[i].0] == a[i].1
  {
    if |a| > 0 {
      var init := a[..|a| - 1];
      assert DistinctKeys(init);
      ApplyDistinct(fields, init);
      forall i | 0 <= i < |a| - 1
        ensures Apply(fields, a)[a[i].0] == a[i].1
      {
        assert init[i] == a[i];
      }
    }
  }

  /** The store: objects by primary key (their position). */
  type Store = seq<Entity>

  /** Does `e` satisfy `Model.objects.filter(**lookup)`? */
  predicate Matches(e: Entity, model: string, lookup: Assignments) {
    && e.model == model
    && forall i :: 0 <= i < |lookup| ==> lookup[i].0 in e.fields && e.fields[lookup[i].0] == lookup[i].1
  }

  /** The primary keys below `n` of the objects matching a lookup, ascending. */
  function MatchingBelow(st: Store, n: nat, model: string, lookup: Assignments): (r: seq<nat>)
    requires n <= |st|
    ensures forall j :: 0 <= j < |r| ==> r[j] < n && Matches(st[r[j]], model, lookup)
    ensures forall p :: 0 <= p < n && Matches(st[p], model, lookup) ==> p in r
    ensures forall i, j :: 0 <= i < j < |r| ==> r[i] < r[j]
  {
    if n == 0 then []
    else
      var rest := MatchingBelow(st, n - 1, model, lookup);
      if Matches(st[n - 1], model, lookup) then rest + [n - 1] else rest
  }

  /** The errors the loader distinguishes; everything not caught by name is `OtherError`. */
  datatype ErrKind = ValidationError | IntegrityError | UserDataError | OtherError(name: string)

  datatype LoadError = LoadError(kind: ErrKind, msg: string)

  /** `type(e).__name__`. */
  function KindName(k: ErrKind): string {
    match k
    case ValidationError => "ValidationError"
    case IntegrityError => "IntegrityError"
    case UserDataError => "UserDataError"
    case OtherError(n) => n
  }

  /** `Model.objects.get_or_create(defaults=defaults, **lookup)`: with no match a
      new object is appended holding the lookup values overridden by the
      defaults; exactly one match is returned as is; more than one raises
      `MultipleObjectsReturned`.  The result is `(store, pk, created)`. */
  function GetOrCreate(st: Store, model: string, lookup: Assignments, defaults: Assignments)
    : (r: Result<(Store, nat, bool), LoadError>)
    ensures r.Ok? ==> r.value.1 < |r.value.0|
    ensures r.Ok? && r.value.2 ==>
              && (forall p :: 0 <= p < |st| ==> !Matches(st[p], model, lookup))
              && r.value.0 == st + [Entity(model, Apply(Apply(map[], lookup), defaults))]
              && r.value.1 == |st|
    ensures r.Ok? && !r.value.2 ==>
              && r.value.0 == st
              && Matches(st[r.value.1], model, lookup)
              && (forall p :: 0 <= p < |st| && Matches(st[p], model, lookup) ==> p == r.value.1)
    ensures r.Err? <==> exists p, q :: 0 <= p < q < |st| && Matches(st[p], model, lookup) && Matches(st[q], model, lookup)
    ensures r.Err? ==> r.error == Multiple(model) && r.error.kind == OtherError("MultipleObjectsReturned")
  {
    var hits := MatchingBelow(st, |st|, model, lookup);
    HitsAreMatches(st, model, lookup);
    if |hits| == 0 then
      Ok((st + [Entity(model, Apply(Apply(map[], lookup), defaults))], |st|, true))
    else if |hits| == 1 then
      var pk: nat := hits[0];
      Ok((st, pk, false))
    else
      Err(Multiple(model))
  }

  /** The three outcomes of `GetOrCreate`, each as the value it returns. */
  lemma GetOrCreateCases(st: Store, model: string, lookup: Assignments, defaults: Assignments)
    ensures (forall p :: 0 <= p < |st| ==> !Matches(st[p], model, lookup)) ==>
              GetOrCreate(st, model, lookup, defaults)
              == Ok((st + [Entity(model, Apply(Apply(map[], lookup), defaults))], |st|, true))
    ensures forall pk :: 0 <= pk < |st| && Matches(st[pk], model, lookup)
                         && (forall q :: 0 <= q < |st| && Matches(st[q], model, lookup) ==> q == pk)
                         ==> GetOrCreate(st, model, lookup, defaults) == Ok((st, pk, false))
    ensures (exists p, q :: 0 <= p < q < |st| && Matches(st[p], model, lookup) && Matches(st[q], model, lookup))
            ==> GetOrCreate(st, model, lookup, defaults) == Err(Multiple(model))
  {
  }

  /** The `MultipleObjectsReturned` raised by `get` on an ambiguous lookup. */
  function Multiple(model: string): (e: LoadError)
    ensures e.kind == OtherError("MultipleObjectsReturned")
  {
    LoadError(OtherError("MultipleObjectsReturned"), "get() returned more than one " + model)
  }

  /** What the number of matches says: none, exactly the one found, or two
      distinct ones. */
  lemma HitsAreMatches(st: Store, model: string, lookup: Assignments)
    ensures var hits := MatchingBelow(st, |st|, model, lookup);
            && (|hits| == 0 ==> forall p :: 0 <= p < |st| ==> !Matches(st[p], model, lookup))
            && (|hits| == 1 ==> Matches(st[hits[0]], model, lookup)
                                && forall p :: 0 <= p < |st| && Matches(st[p], model, lookup) ==> p == hits[0])
            && (|hits| <= 1 <==> !exists p, q :: 0 <= p < q < |st| && Matches(st[p], model, lookup) && Matches(st[q], model, lookup))
  {
    var hits := MatchingBelow(st, |st|, model, lookup);
    if |hits| >= 2 {
      assert hits[0] < hits[1] && Matches(st[hits[0]], model, lookup) && Matches(st[hits[1]], model, lookup);
    }
  }

  /** A difference reported for one field: name, current value, proposed value. */
  datatype FieldDiff = FieldDiff(field: string, current: Value, proposed: Value)

  /** One conflicting change: the object and its differing fields. */
  datatype Change = Change(pk: nat, diffs: seq<FieldDiff>)

  /** The run's tallies by model name: the `new` counter (`created` here), the `added` counter and the
      `changed` lists. */
  datatype Stats = Stats(created: map<string, nat>, added: map<string, nat>, changed: map<string, seq<Change>>)

  const NoStats := Stats(map[], map[], map[])

  /** `counter[k]`, zero for a missing key. */
  function Tally(m: map<string, nat>, k: string): nat {
    if k in m then m[k] else 0
  }

  /** `counter[k] += 1`. */
  function Bump(m: map<string, nat>, k: string): (r: map<string, nat>)
    ensures Tally(r, k) == Tally(m, k) + 1
    ensures forall j :: j != k ==> Tally(r, j) == Tally(m, j)
    ensures r.Keys == m.Keys + {k}
  {
    m[k := Tally(m, k) + 1]
  }

  /** `changed[k].append(c)` on a `defaultdict(list)`. */
  function AppendChange(m: map<string, seq<Change>>, k: string, c: Change): (r: map<string, seq<Change>>)
    ensures k in r && r[k] == (if k in m then m[k] else []) + [c]
    ensures forall j :: j != k ==> (j in r <==> j in m) && (j in m ==> r[j] == m[j])
  {
    m[k := (if k in m then m[k] else []) + [c]]
  }
}
