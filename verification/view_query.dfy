/**
 * The table views' query-string state: decoding filters, excludes and the
 * negation flag from the GET parameters, deriving the state for a new query
 * string, and validating the average-by and sort-by parameters.
 */
module ViewQuery {
  import opened Basics
  import opened PyStr

  /** `NONE_LOOKUP`: the query-string spelling of `None`. */
  const NoneLookup := "NULL"

  /** A lookup value: `None`, an integer, or any other text. */
  datatype QVal = QNull | QInt(i: int) | QStr(s: string)

  /** A value from the query string: `NULL` is `None`, an integer literal is
      its integer, anything else stays text. */
  function DecodeValue(v: string): (r: QVal)
    ensures r.QNull? <==> v == NoneLookup
    ensures r.QInt? ==> v != NoneLookup && ParseInt(v) == Some(r.i)
    ensures r.QStr? ==> v != NoneLookup && ParseInt(v).None? && r.s == v
  {
    if v == NoneLookup then QNull
    else
      match ParseInt(v)
      case Some(i) => QInt(i)
      case None => QStr(v)
  }

  /** How `build_query_string` writes a value. */
  function EncodeValue(q: QVal): string {
    match q
    case QNull => NoneLookup
    case QInt(i) => IntToStr(i)
    case QStr(s) => s
  }

  /** Writing a value and reading it back gives the value, except for text that
      reads as `NULL` or as an integer. */
  lemma ValueRoundTrip(q: QVal)
    requires q.QStr? ==> q.s != NoneLookup && ParseInt(q.s).None?
    ensures DecodeValue(EncodeValue(q)) == q
  {
    if q.QInt? {
      IntToStrRoundTrip(q.i);
      var s := IntToStr(q.i);
      assert s[0] != 'N';
    }
  }

  /** The text after the first `c` (`s.partition(c)[2]`); empty without one. */
  function AfterFirst(s: string, c: char): (r: string)
    ensures c !in s ==> r == ""
    ensures c in s ==> |r| < |s| && r == s[|s| - |r|..] && s[|s| - |r| - 1] == c && c !in s[..|s| - |r| - 1]
  {
    if |s| == 0 then ""
    else if s[0] == c then s[1..]
    else
      var r := AfterFirst(s[1..], c);
      TailOfAfter(s, c, r);
      r
  }

  /** The suffix after the first `c` of `s[1..]` is the one of `s` when
      `s[0]` is not `c`. */
  lemma TailOfAfter(s: string, c: char, r: string)
    requires |s| > 0 && s[0] != c
    requires c !in s[1..] ==> r == ""
    requires c in s[1..] ==>
               && |r| < |s[1..]| && r == s[1..][|s[1..]| - |r|..] && s[1..][|s[1..]| - |r| - 1] == c
               && c !in s[1..][..|s[1..]| - |r| - 1]
    ensures c !in s ==> r == ""
    ensures c in s ==> |r| < |s| && r == s[|s| - |r|..] && s[|s| - |r| - 1] == c && c !in s[..|s| - |r| - 1]
  {
    if c in s {
      assert c in s[1..];
      assert s[..|s| - |r| - 1] == [s[0]] + s[1..][..|s| - 1 - |r| - 1];
    }
  }

  /** The configured parameter names `QUERY_FILTER`, `QUERY_EXCLUDE` and
      `QUERY_NEGATE`. */
  datatype UrlKeys = UrlKeys(filter: string, exclude: string, negate: string)

  datatype Kind = FilterKey | ExcludeKey | NegateKey | Unrelated

  /** Which branch a parameter name takes, in the order the `if` chain checks them. */
  function KindOf(keys: UrlKeys, qkey: string): Kind {
    if StartsWith(qkey, keys.filter + "-") then FilterKey
    else if StartsWith(qkey, keys.exclude + "-") then ExcludeKey
    else if qkey == keys.negate then NegateKey
    else Unrelated
  }

  /** The decoded state: the filter, the exclude groups by index in the order
      the indices were first seen, and the negation flag. */
  datatype UrlState = UrlState(filter: map<string, QVal>, groups: seq<(string, map<string, QVal>)>, negate: bool)

  /** The group with the given index. */
  function GroupOf(groups: seq<(string, map<string, QVal>)>, idx: string): (r: Option<nat>)
    ensures r.Some? ==> r.value < |groups| && groups[r.value].0 == idx
    ensures r.None? ==> forall g :: 0 <= g < |groups| ==> groups[g].0 != idx
  {
    if |groups| == 0 then None
    else if groups[|groups| - 1].0 == idx then Some(|groups| - 1)
    else GroupOf(groups[..|groups| - 1], idx)
  }

  /** `excludes[idx][key] = val`, creating the group if needed. */
  function AddExclude(groups: seq<(string, map<string, QVal>)>, idx: string, key: string, v: QVal)
    : (r: seq<(string, map<string, QVal>)>)
    ensures |groups| <= |r| <= |groups| + 1
    ensures forall g :: 0 <= g < |groups| ==> r[g].0 == groups[g].0
    ensures |r| == |groups| + 1 ==> r[|groups|] == (idx, map[key := v]) && GroupOf(groups, idx).None?
  {
    match GroupOf(groups, idx)
    case Some(g) => groups[g := (idx, groups[g].1[key := v])]
    case None => groups + [(idx, map[key := v])]
  }

  /** One GET parameter, its value read by `dv` (`DecodeValue` in
      `get_filter_from_url`; the properties below hold for any reading); a
      malformed exclude name is the unpacking's `ValueError`. */
  function Param(keys: UrlKeys, dv: string -> QVal, st: UrlState, qkey: string, val: string): Result<UrlState, string> {
    match KindOf(keys, qkey)
    case FilterKey => Ok(st.(filter := st.filter[AfterFirst(qkey, '-') := dv(val)]))
    case ExcludeKey =>
      var parts := Split(qkey, '-');
      if |parts| != 3 then Err("ValueError")
      else Ok(st.(groups := AddExclude(st.groups, parts[1], parts[2], dv(val))))
    case NegateKey => Ok(st.(negate := true))
    case Unrelated => Ok(st)
  }

  /** The loop of `get_filter_from_url` over the GET items in order. */
  function Decode(keys: UrlKeys, dv: string -> QVal, params: seq<(string, string)>): Result<UrlState, string> {
    if |params| == 0 then Ok(UrlState(map[], [], false))
    else
      match Decode(keys, dv, params[..|params| - 1])
      case Err(e) => Err(e)
      case Ok(st) => Param(keys, dv, st, params[|params| - 1].0, params[|params| - 1].1)
  }

  /** `get_filter_from_url`: the filter, the exclude dicts without their
      indices, and the negation flag. */
  function GetFilterFromUrl(keys: UrlKeys, params: seq<(string, string)>)
    : (r: Result<(map<string, QVal>, seq<map<string, QVal>>, bool), string>)
    ensures r.Ok? <==> Decode(keys, DecodeValue, params).Ok?
    ensures r.Ok? ==> var st := Decode(keys, DecodeValue, params).value;
                      && r.value.0 == st.filter && r.value.2 == st.negate
                      && |r.value.1| == |st.groups|
                      && forall g :: 0 <= g < |st.groups| ==> r.value.1[g] == st.groups[g].1
  {
    match Decode(keys, DecodeValue, params)
    case Err(e) => Err(e)
    case Ok(st) => Ok((st.filter, seq(|st.groups|, g requires 0 <= g < |st.groups| => st.groups[g].1), st.negate))
  }

  // Where each part of the state comes from

  /** Parameter `i` sets filter key `k`. */
  predicate FilterAt(keys: UrlKeys, params: seq<(string, string)>, i: int, k: string) {
    0 <= i < |params| && KindOf(keys, params[i].0) == FilterKey && AfterFirst(params[i].0, '-') == k
  }

  /** Parameter `i` is an exclude whose name does not split into three parts. */
  predicate BadExcludeAt(keys: UrlKeys, params: seq<(string, string)>, i: int) {
    0 <= i < |params| && KindOf(keys, params[i].0) == ExcludeKey && |Split(params[i].0, '-')| != 3
  }

  /** The parameter name is an exclude for group `idx`. */
  predicate ExcludeFor(keys: UrlKeys, qkey: string, idx: string) {
    KindOf(keys, qkey) == ExcludeKey && |Split(qkey, '-')| == 3 && Split(qkey, '-')[1] == idx
  }

  /** The parameter name sets key `k` of exclude group `idx`. */
  predicate ExcludeSets(keys: UrlKeys, qkey: string, idx: string, k: string) {
    ExcludeFor(keys, qkey, idx) && Split(qkey, '-')[2] == k
  }

  /** Parameter `i` is an exclude for group `idx`. */
  predicate NamesIdx(keys: UrlKeys, params: seq<(string, string)>, i: int, idx: string) {
    0 <= i < |params| && ExcludeFor(keys, params[i].0, idx)
  }

  /** Parameter `i` sets key `k` of exclude group `idx`. */
  predicate ExcludeAt(keys: UrlKeys, params: seq<(string, string)>, i: int, idx: string, k: string) {
    0 <= i < |params| && ExcludeSets(keys, params[i].0, idx, k)
  }

  /** Parameter `i` is the negation flag. */
  predicate NegateAt(keys: UrlKeys, params: seq<(string, string)>, i: int) {
    0 <= i < |params| && KindOf(keys, params[i].0) == NegateKey
  }

  /** Decoding fails exactly when some exclude name is malformed. */
  lemma {:induction false} DecodeFails(keys: UrlKeys, dv: string -> QVal, params: seq<(string, string)>)
    ensures Decode(keys, dv, params).Err? <==> exists i :: BadExcludeAt(keys, params, i)
  {
    if |params| > 0 {
      var init := params[..|params| - 1];
      DecodeFails(keys, dv, init);
      assert forall i :: 0 <= i < |init| ==> (BadExcludeAt(keys, init, i) <==> BadExcludeAt(keys, params, i));
      if Decode(keys, dv, init).Ok? && !BadExcludeAt(keys, params, |params| - 1) {
        forall i | 0 <= i < |params| ensures !BadExcludeAt(keys, params, i) {
          if i < |init| {
            assert !BadExcludeAt(keys, init, i);
          }
        }
      }
    }
  }

  /** `negate` is set exactly when the negation parameter is present. */
  lemma {:induction false} DecodeNegate(keys: UrlKeys, dv: string -> QVal, params: seq<(string, string)>)
    requires Decode(keys, dv, params).Ok?
    ensures Decode(keys, dv, params).value.negate <==> exists i :: NegateAt(keys, params, i)
  {
    if |params| > 0 {
      var init := params[..|params| - 1];
      DecodeNegate(keys, dv, init);
      assert forall i :: 0 <= i < |init| ==> (NegateAt(keys, init, i) <==> NegateAt(keys, params, i));
      if !NegateAt(keys, params, |params| - 1) && !Decode(keys, dv, init).value.negate {
        forall i | 0 <= i < |params| ensures !NegateAt(keys, params, i) {
          if i < |init| {
            assert !NegateAt(keys, init, i);
          }
        }
      }
    }
  }

  /** What one parameter does to filter key `k`. */
  lemma ParamFilter(keys: UrlKeys, dv: string -> QVal, st: UrlState, qkey: string, val: string, k: string)
    requires Param(keys, dv, st, qkey, val).Ok?
    ensures var f := Param(keys, dv, st, qkey, val).value.filter;
            if KindOf(keys, qkey) == FilterKey && AfterFirst(qkey, '-') == k then k in f && f[k] == dv(val)
            else (k in f <==> k in st.filter) && (k in f ==> f[k] == st.filter[k])
  {
  }

  /** The filter has exactly the keys some parameter sets. */
  lemma {:induction false} DecodeFilterKeys(keys: UrlKeys, dv: string -> QVal, params: seq<(string, string)>, k: string)
    requires Decode(keys, dv, params).Ok?
    ensures k in Decode(keys, dv, params).value.filter <==> exists i :: FilterAt(keys, params, i, k)
  {
    if |params| > 0 {
      var n := |params| - 1;
      var init := params[..n];
      DecodeFilterKeys(keys, dv, init, k);
      var st := Decode(keys, dv, init).value;
      ParamFilter(keys, dv, st, params[n].0, params[n].1, k);
      assert forall i :: 0 <= i < n ==> (FilterAt(keys, init, i, k) <==> FilterAt(keys, params, i, k));
      if !FilterAt(keys, params, n, k) && k !in st.filter {
        forall i | 0 <= i < |params| ensures !FilterAt(keys, params, i, k) {
          if i < n {
            assert !FilterAt(keys, init, i, k);
          }
        }
      }
    }
  }

  /** A filter key holds the value of the last parameter setting it. */
  lemma {:induction false} DecodeFilterLast(keys: UrlKeys, dv: string -> QVal, params: seq<(string, string)>, k: string, i: nat)
    requires Decode(keys, dv, params).Ok? && FilterAt(keys, params, i, k)
    requires forall j :: i < j < |params| ==> !FilterAt(keys, params, j, k)
    ensures k in Decode(keys, dv, params).value.filter
    ensures Decode(keys, dv, params).value.filter[k] == dv(params[i].1)
  {
    var n := |params| - 1;
    var init := params[..n];
    assert Decode(keys, dv, init).Ok?;
    var st := Decode(keys, dv, init).value;
    var (qkey, val) := params[n];
    assert Decode(keys, dv, params) == Param(keys, dv, st, qkey, val);
    if i < n {
      assert !FilterAt(keys, params, n, k);
      ParamKeepsFilter(keys, dv, st, qkey, val, k);
      assert init[i] == params[i];
      assert FilterAt(keys, init, i, k);
      forall j | i < j < n ensures !FilterAt(keys, init, j, k) {
        assert !FilterAt(keys, params, j, k);
      }
      DecodeFilterLast(keys, dv, init, k, i);
      assert st.filter[k] == dv(params[i].1);
    } else {
      ParamSetsFilter(keys, dv, st, qkey, val, k);
      assert val == params[i].1;
    }
  }

  /** A filter parameter for key `k` sets it to the decoded value. */
  lemma ParamSetsFilter(keys: UrlKeys, dv: string -> QVal, st: UrlState, qkey: string, val: string, k: string)
    requires KindOf(keys, qkey) == FilterKey && AfterFirst(qkey, '-') == k
    ensures Param(keys, dv, st, qkey, val).Ok?
    ensures var f := Param(keys, dv, st, qkey, val).value.filter;
            k in f && f[k] == dv(val)
  {
  }

  /** Any other parameter leaves filter key `k` alone. */
  lemma ParamKeepsFilter(keys: UrlKeys, dv: string -> QVal, st: UrlState, qkey: string, val: string, k: string)
    requires Param(keys, dv, st, qkey, val).Ok?
    requires !(KindOf(keys, qkey) == FilterKey && AfterFirst(qkey, '-') == k)
    ensures var f := Param(keys, dv, st, qkey, val).value.filter;
            (k in f <==> k in st.filter) && (k in f ==> f[k] == st.filter[k])
  {
  }

  /** No two groups share an index. */
  predicate DistinctIdx(groups: seq<(string, map<string, QVal>)>) {
    forall g, h :: 0 <= g < h < |groups| ==> groups[g].0 != groups[h].0
  }

  /** Adding an exclude keeps the indices distinct and adds its index. */
  lemma AddExcludeGroups(groups: seq<(string, map<string, QVal>)>, idx: string, key: string, v: QVal, other: string)
    requires DistinctIdx(groups)
    ensures DistinctIdx(AddExclude(groups, idx, key, v))
    ensures GroupOf(AddExclude(groups, idx, key, v), other).Some? <==> GroupOf(groups, other).Some? || other == idx
  {
    var r := AddExclude(groups, idx, key, v);
    if GroupOf(r, other).Some? && other != idx {
      var g := GroupOf(r, other).value;
      assert g < |groups|;
      assert groups[g].0 == other;
    }
    if GroupOf(groups, other).Some? {
      var g := GroupOf(groups, other).value;
      assert r[g].0 == other;
    }
    if other == idx {
      if GroupOf(groups, idx).Some? {
        var g := GroupOf(groups, idx).value;
        assert r[g].0 == idx;
      } else {
        assert r[|groups|].0 == idx;
      }
    }
  }

  /** What one parameter does to the groups. */
  lemma ParamGroups(keys: UrlKeys, dv: string -> QVal, st: UrlState, qkey: string, val: string)
    requires Param(keys, dv, st, qkey, val).Ok?
    ensures var groups := Param(keys, dv, st, qkey, val).value.groups;
            var parts := Split(qkey, '-');
            if KindOf(keys, qkey) == ExcludeKey then |parts| == 3 && groups == AddExclude(st.groups, parts[1], parts[2], dv(val))
            else groups == st.groups
  {
  }

  /** The exclude groups have distinct indices, one for each index some
      parameter names. */
  lemma {:induction false} DecodeGroups(keys: UrlKeys, dv: string -> QVal, params: seq<(string, string)>, idx: string)
    requires Decode(keys, dv, params).Ok?
    ensures DistinctIdx(Decode(keys, dv, params).value.groups)
    ensures GroupOf(Decode(keys, dv, params).value.groups, idx).Some? <==> exists i :: NamesIdx(keys, params, i, idx)
  {
    if |params| > 0 {
      var n := |params| - 1;
      var init := params[..n];
      LastParamIdx(keys, dv, params, idx);
      DecodeGroups(keys, dv, init, idx);
      NamesIdxPrefix(keys, params, n, idx);
      var st := Decode(keys, dv, init).value;
      if GroupOf(st.groups, idx).Some? {
        var i :| NamesIdx(keys, init, i, idx);
        assert NamesIdx(keys, params, i, idx);
      } else if !ExcludeFor(keys, params[n].0, idx) {
        forall i | 0 <= i < |params| ensures !NamesIdx(keys, params, i, idx) {
          if i < n {
            assert !NamesIdx(keys, init, i, idx);
          }
        }
      } else {
        assert NamesIdx(keys, params, n, idx);
      }
    }
  }

  /** What the last parameter does to the group indices. */
  lemma LastParamIdx(keys: UrlKeys, dv: string -> QVal, params: seq<(string, string)>, idx: string)
    requires |params| > 0 && Decode(keys, dv, params).Ok?
    ensures var n := |params| - 1;
            Decode(keys, dv, params[..n]).Ok? &&
            var st := Decode(keys, dv, params[..n]).value;
            var groups := Decode(keys, dv, params).value.groups;
            && (DistinctIdx(st.groups) ==> DistinctIdx(groups))
            && (DistinctIdx(st.groups) ==>
                 (GroupOf(groups, idx).Some? <==> GroupOf(st.groups, idx).Some? || ExcludeFor(keys, params[n].0, idx)))
  {
    var n := |params| - 1;
    var init := params[..n];
    assert Decode(keys, dv, init).Ok?;
    var st := Decode(keys, dv, init).value;
    assert Decode(keys, dv, params) == Param(keys, dv, st, params[n].0, params[n].1);
    ParamGroups(keys, dv, st, params[n].0, params[n].1);
    var parts := Split(params[n].0, '-');
    if KindOf(keys, params[n].0) == ExcludeKey && DistinctIdx(st.groups) {
      AddExcludeGroups(st.groups, parts[1], parts[2], dv(params[n].1), idx);
    }
  }

  /** The parameters of a prefix name the same groups as in the whole list. */
  lemma NamesIdxPrefix(keys: UrlKeys, params: seq<(string, string)>, n: nat, idx: string)
    requires n <= |params|
    ensures forall i :: 0 <= i < n ==> (NamesIdx(keys, params[..n], i, idx) <==> NamesIdx(keys, params, i, idx))
  {
  }

  /** What adding an exclude does to the entries of group `g`. */
  lemma AddExcludeContents(groups: seq<(string, map<string, QVal>)>, idx: string, key: string, v: QVal, g: nat, k: string)
    requires DistinctIdx(groups) && g < |AddExclude(groups, idx, key, v)|
    ensures var r := AddExclude(groups, idx, key, v);
            if r[g].0 == idx && k == key then k in r[g].1 && r[g].1[k] == v
            else (k in r[g].1 <==> g < |groups| && k in groups[g].1) && (k in r[g].1 ==> g < |groups| && r[g].1[k] == groups[g].1[k])
  {
    var r := AddExclude(groups, idx, key, v);
    match GroupOf(groups, idx)
    case Some(g0) =>
      if g != g0 {
        assert r[g] == groups[g];
        assert groups[g].0 != groups[g0].0 by {
          if g < g0 {
            assert groups[g].0 != groups[g0].0;
          } else {
            assert groups[g0].0 != groups[g].0;
          }
        }
      }
    case None =>
  }

  /** Each group holds exactly the keys the parameters naming its index set. */
  lemma {:induction false} DecodeGroupKeys(keys: UrlKeys, dv: string -> QVal, params: seq<(string, string)>, g: nat, k: string)
    requires Decode(keys, dv, params).Ok? && g < |Decode(keys, dv, params).value.groups|
    ensures var grp := Decode(keys, dv, params).value.groups[g];
            k in grp.1 <==> exists i :: ExcludeAt(keys, params, i, grp.0, k)
  {
    if |params| == 0 {
      return;
    }
    var n := |params| - 1;
    var init := params[..n];
    assert Decode(keys, dv, init).Ok?;
    var st := Decode(keys, dv, init).value;
    var grp := Decode(keys, dv, params).value.groups[g];
    var here := ExcludeAt(keys, params, n, grp.0, k);
    LastParamGroup(keys, dv, params, g, k);
    ExcludeAtPrefix(keys, params, n, grp.0, k);
    if g < |st.groups| {
      DecodeGroupKeys(keys, dv, init, g, k);
    }
    if k in grp.1 {
      if !here {
        var i :| ExcludeAt(keys, init, i, grp.0, k);
        assert ExcludeAt(keys, params, i, grp.0, k);
      }
    } else {
      assert !here;
      forall i | 0 <= i < n ensures !ExcludeAt(keys, params, i, grp.0, k) {
        if g >= |st.groups| {
          assert !NamesIdx(keys, init, i, grp.0);
        }
        assert !ExcludeAt(keys, init, i, grp.0, k);
      }
    }
  }

  /** What the last parameter does to group `g`: key `k` is in it exactly
      when that parameter sets it or it was there before; an earlier group keeps
      its index, and a new group's index was not named before. */
  lemma LastParamGroup(keys: UrlKeys, dv: string -> QVal, params: seq<(string, string)>, g: nat, k: string)
    requires |params| > 0 && Decode(keys, dv, params).Ok? && g < |Decode(keys, dv, params).value.groups|
    ensures var n := |params| - 1;
            Decode(keys, dv, params[..n]).Ok? &&
            var st := Decode(keys, dv, params[..n]).value;
            var grp := Decode(keys, dv, params).value.groups[g];
            && (k in grp.1 <==> ExcludeAt(keys, params, n, grp.0, k) || (g < |st.groups| && k in st.groups[g].1))
            && (g < |st.groups| ==> st.groups[g].0 == grp.0)
            && (g >= |st.groups| ==> forall i :: !NamesIdx(keys, params[..n], i, grp.0))
            && (ExcludeAt(keys, params, n, grp.0, k) ==> grp.1[k] == dv(params[n].1))
            && (!ExcludeAt(keys, params, n, grp.0, k) && k in grp.1 ==> grp.1[k] == st.groups[g].1[k])
  {
    var n := |params| - 1;
    var init := params[..n];
    assert Decode(keys, dv, init).Ok?;
    var st := Decode(keys, dv, init).value;
    assert Decode(keys, dv, params) == Param(keys, dv, st, params[n].0, params[n].1);
    ParamGroups(keys, dv, st, params[n].0, params[n].1);
    var grp := Decode(keys, dv, params).value.groups[g];
    DecodeGroups(keys, dv, init, grp.0);
    var parts := Split(params[n].0, '-');
    if KindOf(keys, params[n].0) == ExcludeKey {
      AddExcludeContents(st.groups, parts[1], parts[2], dv(params[n].1), g, k);
    }
  }

  /** The parameters of a prefix set the same group keys as in the whole list. */
  lemma ExcludeAtPrefix(keys: UrlKeys, params: seq<(string, string)>, n: nat, idx: string, k: string)
    requires n <= |params|
    ensures forall i :: 0 <= i < n ==> (ExcludeAt(keys, params[..n], i, idx, k) <==> ExcludeAt(keys, params, i, idx, k))
  {
  }

  /** A group's key holds the value of the last parameter setting it. */
  lemma {:induction false} DecodeGroupLast(keys: UrlKeys, dv: string -> QVal, params: seq<(string, string)>, g: nat, k: string, i: nat)
    requires Decode(keys, dv, params).Ok? && g < |Decode(keys, dv, params).value.groups|
    requires ExcludeAt(keys, params, i, Decode(keys, dv, params).value.groups[g].0, k)
    requires forall j :: i < j < |params| ==> !ExcludeAt(keys, params, j, Decode(keys, dv, params).value.groups[g].0, k)
    ensures var grp := Decode(keys, dv, params).value.groups[g];
            k in grp.1 && grp.1[k] == dv(params[i].1)
  {
    var n := |params| - 1;
    var init := params[..n];
    var st := Decode(keys, dv, init).value;
    var grp := Decode(keys, dv, params).value.groups[g];
    LastParamGroup(keys, dv, params, g, k);
    if i < n {
      ExcludeAtPrefix(keys, params, n, grp.0, k);
      assert ExcludeAt(keys, init, i, grp.0, k);
      assert NamesIdx(keys, init, i, grp.0);
      assert g < |st.groups|;
      assert !ExcludeAt(keys, params, n, grp.0, k);
      DecodeGroupLast(keys, dv, init, g, k, i);
    }
  }

  /** The groups come in the order their indices were first seen: every
      parameter naming a later group's index comes after one naming an
      earlier group's. */
  lemma {:induction false} DecodeGroupOrder(keys: UrlKeys, dv: string -> QVal, params: seq<(string, string)>, g: nat, h: nat, j: nat)
    requires Decode(keys, dv, params).Ok? && g < h < |Decode(keys, dv, params).value.groups|
    requires NamesIdx(keys, params, j, Decode(keys, dv, params).value.groups[h].0)
    ensures exists i :: 0 <= i < j && NamesIdx(keys, params, i, Decode(keys, dv, params).value.groups[g].0)
  {
    var n := |params| - 1;
    var init := params[..n];
    assert Decode(keys, dv, init).Ok?;
    var st := Decode(keys, dv, init).value;
    assert Decode(keys, dv, params) == Param(keys, dv, st, params[n].0, params[n].1);
    ParamGroups(keys, dv, st, params[n].0, params[n].1);
    var groups := Decode(keys, dv, params).value.groups;
    var gi, hi := groups[g].0, groups[h].0;
    assert g < |st.groups| && st.groups[g].0 == gi;
    DecodeGroups(keys, dv, init, gi);
    DecodeGroups(keys, dv, init, hi);
    assert GroupOf(st.groups, gi).Some?;
    var i0 :| NamesIdx(keys, init, i0, gi);
    assert NamesIdx(keys, params, i0, gi);
    if j < n {
      assert NamesIdx(keys, init, j, hi);
      if h == |st.groups| {
        assert false;
      }
      assert st.groups[h].0 == hi;
      DecodeGroupOrder(keys, dv, init, g, h, j);
      var i :| 0 <= i < j && NamesIdx(keys, init, i, gi);
      assert NamesIdx(keys, params, i, gi);
    }
  }

  // `to_query_string`

  /** An element of `without`: a dict of filter items, a list (compared with
      the exclude elements), or anything else. */
  datatype Without<E> = WDict(d: map<string, QVal>) | WList(l: E) | WOther

  /** Does some dict in `without` hold `k` with the value `v`? */
  predicate DroppedBy<E>(without: seq<Without<E>>, k: string, v: QVal) {
    exists w :: 0 <= w < |without| && without[w].WDict? && k in without[w].d && without[w].d[k] == v
  }

  /** Does some list in `without` occur in the excludes? */
  predicate ListHit<E(==)>(without: seq<Without<E>>, elist: seq<E>) {
    exists w :: 0 <= w < |without| && without[w].WList? && without[w].l in elist
  }

  /** The `without` loop over the merged filter and the exclude list. */
  function DropWithout<E(==)>(f: map<string, QVal>, elist: seq<E>, without: seq<Without<E>>)
    : (r: Result<(map<string, QVal>, seq<E>), string>)
    ensures r.Err? <==> exists w :: 0 <= w < |without| && without[w].WOther?
    ensures r.Ok? ==> forall k :: k in r.value.0 <==> k in f && !DroppedBy(without, k, f[k])
    ensures r.Ok? ==> forall k :: k in r.value.0 ==> r.value.0[k] == f[k]
    ensures r.Ok? ==> r.value.1 == if ListHit(without, elist) then [] else elist
    decreases |without|
  {
    if |without| == 0 then Ok((f, elist))
    else
      var w := without[0];
      match w
      case WOther => Err("TypeError")
      case WDict(d) =>
        var f1 := map k | k in f && !(k in d && d[k] == f[k]) :: f[k];
        var r := DropWithout(f1, elist, without[1..]);
        assert forall v :: 0 <= v < |without[1..]| ==> without[1..][v] == without[v + 1];
        assert forall k, v :: DroppedBy(without, k, v) <==> (k in d && d[k] == v) || DroppedBy(without[1..], k, v);
        assert ListHit(without, elist) <==> ListHit(without[1..], elist);
        r
      case WList(l) =>
        var e1 := if l in elist then [] else elist;
        var r := DropWithout(f, e1, without[1..]);
        assert forall v :: 0 <= v < |without[1..]| ==> without[1..][v] == without[v + 1];
        assert forall k, v :: DroppedBy(without, k, v) <==> DroppedBy(without[1..], k, v);
        assert ListHit(without, elist) <==> l in elist || ListHit(without[1..], elist);
        r
  }

  /** The state a view holds: its filter, its exclude list and its negation. */
  datatype ViewState<E> = ViewState(filter: map<string, QVal>, excludes: seq<E>, negate: bool)

  /** `to_query_string`: the state handed to `build_query_string`. */
  function ToQueryString<E(==)>(view: ViewState<E>, filter: map<string, QVal>, excludes: seq<E>, negate: bool,
                                without: seq<Without<E>>): (r: Result<ViewState<E>, string>)
    ensures r.Err? <==> exists w :: 0 <= w < |without| && without[w].WOther?
    ensures r.Ok? ==> forall k :: k in r.value.filter <==>
                                    k in view.filter + filter && !DroppedBy(without, k, (view.filter + filter)[k])
    ensures r.Ok? ==> forall k :: k in r.value.filter ==> r.value.filter[k] == (view.filter + filter)[k]
    ensures r.Ok? ==> r.value.excludes == if ListHit(without, view.excludes + excludes) then [] else view.excludes + excludes
    ensures r.Ok? ==> r.value.negate == (if r.value.filter == map[] && r.value.excludes == [] then false
                                         else if negate then !view.negate else view.negate)
  {
    match DropWithout(view.filter + filter, view.excludes + excludes, without)
    case Err(e) => Err(e)
    case Ok((f, elist)) =>
      var n := if |f| > 0 || |elist| > 0 then (if negate then !view.negate else view.negate) else false;
      assert |f| == 0 <==> f == map[];
      Ok(ViewState(f, elist, n))
  }

  /** Adding a filter and then asking for the query string without it gives
      back the view's own filter, when the added keys are new. */
  lemma AddThenDrop<E>(view: ViewState<E>, extra: map<string, QVal>)
    requires forall k :: k in extra ==> k !in view.filter
    ensures ToQueryString(view, extra, [], false, [WDict(extra)]).Ok?
    ensures ToQueryString(view, extra, [], false, [WDict(extra)]).value.filter == view.filter
  {
    var ws: seq<Without<E>> := [WDict(extra)];
    forall k | k in view.filter ensures !DroppedBy(ws, k, (view.filter + extra)[k]) {
    }
    forall k | k in extra ensures DroppedBy(ws, k, (view.filter + extra)[k]) {
      assert ws[0].d[k] == extra[k];
    }
  }

  /** Asking twice for the negated query string returns to the current flag. */
  lemma NegateTwice<E>(view: ViewState<E>)
    requires view.filter != map[]
    ensures var r := ToQueryString(view, map[], [], true, []).value;
            ToQueryString(r, map[], [], true, []).value.negate == view.negate
  {
    var r := ToQueryString(view, map[], [], true, []).value;
    assert r.filter == view.filter by {
      assert view.filter + map[] == view.filter;
    }
    assert r.filter + map[] == r.filter;
  }

  // `AverageMixin.setup` and `get_sort_by_field`

  /** The set of a list's elements, as Python's `set(...)`. */
  function SetOf(s: seq<string>): set<string> {
    set x | x in s
  }

  /** `avg_by` from the URL: empty gives no grouping; otherwise its `-`-parts
      are accepted when they are, as a set, one of the model's `average_by`
      entries, and 404 otherwise. */
  function AvgBy(avgBy: string, averageBy: seq<seq<string>>): (r: Result<seq<string>, string>)
    ensures avgBy == "" ==> r == Ok([])
    ensures avgBy != "" ==> (r.Ok? <==> exists i :: 0 <= i < |averageBy| && SetOf(Split(avgBy, '-')) == SetOf(averageBy[i]))
    ensures avgBy != "" && r.Ok? ==> r.value == Split(avgBy, '-')
    ensures r.Err? ==> r.error == "Http404"
  {
    var parts := Split(avgBy, '-');
    if parts == [""] then
      assert Join(parts, '-') == "";
      Ok([])
    else if exists i :: 0 <= i < |averageBy| && SetOf(parts) == SetOf(averageBy[i]) then Ok(parts)
    else Err("Http404")
  }

  /** Any order of an entry's fields is accepted, and is kept in the URL's
      order. */
  lemma AvgByAnyOrder(parts: seq<string>, averageBy: seq<seq<string>>, i: nat)
    requires i < |averageBy| && SetOf(parts) == SetOf(averageBy[i])
    requires |parts| > 0 && forall j :: 0 <= j < |parts| ==> parts[j] != "" && '-' !in parts[j]
    ensures AvgBy(Join(parts, '-'), averageBy) == Ok(parts)
  {
    SplitJoin(parts, '-');
    assert Join(parts, '-') != "" by {
      JoinNonEmpty(parts, '-');
    }
  }

  lemma JoinNonEmpty(parts: seq<string>, sep: char)
    requires |parts| > 0 && parts[0] != ""
    ensures Join(parts, sep) != ""
  {
    if |parts| > 1 {
      assert Join(parts, sep) == parts[0] + [sep] + Join(parts[1..], sep);
    }
  }

  /** `get_sort_by_field`: the ordering parameter without its leading `-`s,
      if that names one of the view's fields. */
  function SortByField(field: Option<string>, fields: seq<string>): (r: Option<string>)
    ensures r.Some? <==> field.Some? && field.value != "" && LStripChar(field.value, '-') in fields
    ensures r.Some? ==> r.value == LStripChar(field.value, '-') && r.value in fields
  {
    if field.None? || field.value == "" then None
    else
      var f := LStripChar(field.value, '-');
      if f in fields then Some(f) else None
  }

  /** Descending and ascending orderings name the same field. */
  lemma SortByDescending(f: string, fields: seq<string>)
    requires f != ""
    ensures SortByField(Some("-" + f), fields) == SortByField(Some(f), fields)
  {
    assert ("-" + f)[1..] == f;
  }

  /** A field that does not start with `-` sorts by itself. */
  lemma SortByOwnField(f: string, fields: seq<string>)
    requires f in fields && f != "" && f[0] != '-'
    ensures SortByField(Some(f), fields) == Some(f)
  {
  }
}
