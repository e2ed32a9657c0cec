/**
 * The generic helpers of the column-spec utilities: `grouper`/`chunker`
 * sequence splitting, the `CSV_Spec` column declaration with its `cut`, the
 * progress printer's template classifier and its `inc` counter.
 */
module Utils {
  import opened Basics

  // ---------------------------------------------------------------------------
  // grouper / chunker

  /** Concatenation of a sequence of groups. */
  function Concat<T>(gs: seq<seq<T>>): seq<T> {
    if |gs| == 0 then [] else gs[0] + Concat(gs[1..])
  }

  /** Number of fill values needed to complete the last group: always below `n`. */
  function PadLength(len: nat, n: int): (p: nat)
    requires n > 0
    ensures p < n
  {
    if len % n == 0 then 0 else n - len % n
  }

  /** `grouper(xs, n, fill)`: the itertools recipe (`zip_longest` over `n`
      references to one iterator).  Every group has exactly `n` elements, the
      groups concatenate to `xs` followed by fewer than `n` fill values, so there
      are ceil(|xs| / n) of them; for `n <= 0` there is no group at all. */
  function Grouper<T(==)>(xs: seq<T>, n: int, fill: T): (r: seq<seq<T>>)
    ensures n <= 0 ==> r == []
    ensures forall k :: 0 <= k < |r| ==> |r[k]| == n
    ensures n > 0 ==> Concat(r) == xs + seq(PadLength(|xs|, n), _ => fill)
    ensures n > 0 ==> |r| == (|xs| + n - 1) / n
    decreases |xs|
  {
    if n <= 0 then []
    else if |xs| == 0 then PadShort(0, n); []
    else if |xs| >= n then
      var rest := Grouper(xs[n..], n, fill);
      PadStep(|xs|, n);
      assert Concat([xs[..n]] + rest) == xs + seq(PadLength(|xs|, n), _ => fill) by {
        assert ([xs[..n]] + rest)[1..] == rest;
      }
      [xs[..n]] + rest
    else
      var g := xs + seq(n - |xs|, _ => fill);
      PadShort(|xs|, n);
      assert Concat([g]) == g by { assert [g][1..] == []; }
      [g]
  }

  lemma PadStep(len: nat, n: int)
    requires 0 < n <= len
    ensures PadLength(len - n, n) == PadLength(len, n)
    ensures (len - n + n - 1) / n + 1 == (len + n - 1) / n
  {
    DivUnique(len, n, (len - n) / n + 1, (len - n) % n);
    DivUnique(len - 1 + n, n, (len - 1) / n + 1, (len - 1) % n);
  }

  lemma PadShort(len: nat, n: int)
    requires 0 <= len < n
    ensures PadLength(len, n) == if len == 0 then 0 else n - len
    ensures (len + n - 1) / n == if len == 0 then 0 else 1
  {
    DivUnique(len, n, 0, len);
    if len == 0 {
      DivUnique(n - 1, n, 0, n - 1);
    } else {
      DivUnique(len + n - 1, n, 1, len - 1);
    }
  }

  lemma MulBound(k: int, n: int)
    requires n > 0
    ensures k >= 1 ==> k * n >= n
    ensures k <= -1 ==> k * n <= -n
  {
    if k >= 1 {
      assert k * n == (k - 1) * n + n;
    }
    if k <= -1 {
      assert k * n == -((-k - 1) * n) - n;
    }
  }

  /** Quotient and remainder are determined by `a == q * n + r, 0 <= r < n`. */
  lemma DivUnique(a: int, n: int, q: int, r: int)
    requires n > 0 && 0 <= r < n && a == q * n + r
    ensures a / n == q && a % n == r
  {
    var q1, r1 := a / n, a % n;
    assert q1 * n + r1 == q * n + r;
    assert (q1 - q) * n == q1 * n - q * n;
    MulBound(q1 - q, n);
  }

  /** The present elements, in order: the chunker drops its sentinel with it,
      and `CSV_Spec` takes the used keys of `all_keys` with it. */
  function FilterSome<T>(s: seq<Option<T>>): (r: seq<T>)
    ensures |r| <= |s|
  {
    if |s| == 0 then []
    else (if s[0].Some? then [s[0].value] else []) + FilterSome(s[1..])
  }

  /** Wrap every element, so that `None` can serve as the unique sentinel. */
  function Lift<T>(xs: seq<T>): (r: seq<Option<T>>)
    ensures |r| == |xs|
    ensures forall i :: 0 <= i < |xs| ==> r[i] == Some(xs[i])
  {
    seq(|xs|, i requires 0 <= i < |xs| => Some(xs[i]))
  }

  /** `chunker(xs, n)`: group with a private sentinel as fill value and drop the
      sentinels from the last group.  (When a group's last element is not the
      sentinel, none of its elements is, so filtering every group is the same as
      the source's two branches.) */
  function Chunker<T(==)>(xs: seq<T>, n: int): seq<seq<T>> {
    var gs := Grouper(Lift(xs), n, None);
    seq(|gs|, k requires 0 <= k < |gs| => FilterSome(gs[k]))
  }

  lemma {:induction false} FilterSomeLift<T>(xs: seq<T>, pad: nat)
    ensures FilterSome(Lift(xs) + seq(pad, _ => None)) == xs
  {
    var s := Lift(xs) + seq(pad, _ => None);
    if |xs| == 0 {
      NoneFiltered<T>(pad);
      assert s == seq(pad, _ => None);
    } else {
      assert s[1..] == Lift(xs[1..]) + seq(pad, _ => None);
      FilterSomeLift(xs[1..], pad);
      assert [xs[0]] + xs[1..] == xs;
    }
  }

  lemma {:induction false} NoneFiltered<T>(pad: nat)
    ensures |FilterSome<T>(seq(pad, _ => None))| == 0
  {
    if pad > 0 {
      var s: seq<Option<T>> := seq(pad, _ => None);
      assert s[1..] == seq(pad - 1, _ => None);
      NoneFiltered<T>(pad - 1);
    }
  }

  /** One step of `Chunker`: a full first chunk followed by the chunks of the rest,
      or the whole (short, non-empty) input as the single last chunk. */
  lemma {:induction false} ChunkerStep<T>(xs: seq<T>, n: int)
    requires n > 0 && |xs| > 0
    ensures |xs| >= n ==> Chunker(xs, n) == [xs[..n]] + Chunker(xs[n..], n)
    ensures |xs| < n ==> Chunker(xs, n) == [xs]
  {
    var ls := Lift(xs);
    if |xs| >= n {
      assert ls[..n] == Lift(xs[..n]);
      assert ls[n..] == Lift(xs[n..]);
      FilterSomeLift(xs[..n], 0);
      assert Lift(xs[..n]) + seq(0, _ => None) == Lift(xs[..n]);
    } else {
      var g := ls + seq(n - |xs|, _ => None);
      assert Grouper(ls, n, None) == [g];
      FilterSomeLift(xs, n - |xs|);
      assert Chunker(xs, n) == [FilterSome(g)];
    }
  }

  /** What `chunker` promises: for `n > 0` the chunks concatenate back to the
      input, every chunk but the last has exactly `n` elements and the last one
      is non-empty (so empty input yields no chunk); for `n <= 0` nothing. */
  lemma {:induction false} ChunkerSplits<T>(xs: seq<T>, n: int)
    ensures n <= 0 ==> Chunker(xs, n) == []
    ensures n > 0 ==> Concat(Chunker(xs, n)) == xs
    ensures n > 0 ==> forall k :: 0 <= k < |Chunker(xs, n)| - 1 ==> |Chunker(xs, n)[k]| == n
    ensures forall k :: 0 <= k < |Chunker(xs, n)| ==> 0 < |Chunker(xs, n)[k]|
    ensures |xs| == 0 ==> Chunker(xs, n) == []
    decreases |xs|
  {
    if n > 0 && |xs| > 0 {
      ChunkerStep(xs, n);
      if |xs| >= n {
        ChunkerSplits(xs[n..], n);
        var rest := Chunker(xs[n..], n);
        assert ([xs[..n]] + rest)[1..] == rest;
        assert xs[..n] + xs[n..] == xs;
      } else {
        assert [xs][1..] == [];
      }
    }
  }

  // ---------------------------------------------------------------------------
  // CSV_Spec

  /** A converter given in a column declaration, callable or not. */
  datatype Converter = Callable(name: string) | NotCallable(repr: string)

  /** One column declaration: a tuple `(header, key, *converter)` for a file
      with header row, or a bare key for a positional file.  A key of `None`
      marks a column that is read but ignored. */
  datatype ColumnDecl =
    | HeaderCol(header: string, key: Option<string>, conv: seq<Converter>)
    | PositionalCol(key: Option<string>)

  function DeclKey(d: ColumnDecl): Option<string> {
    match d
    case HeaderCol(_, k, _) => k
    case PositionalCol(k) => k
  }

  /** The attributes `setup` computes. */
  datatype CsvSpec = CsvSpec(
    decls: seq<ColumnDecl>,
    hasHeader: Option<bool>,
    allCols: seq<string>,
    cols: seq<string>,
    allKeys: seq<Option<string>>,
    keys: seq<string>,
    convfuncs: seq<Option<Converter>>)

  /** A declaration `setup` refuses: a converter that is not callable on a used column. */
  predicate BadConverter(d: ColumnDecl) {
    d.HeaderCol? && d.key.Some? && |d.conv| > 0 && d.conv[0].NotCallable?
  }

  /** The per-used-column converter slot of a declaration. */
  function ConvSlot(d: ColumnDecl): seq<Option<Converter>> {
    if DeclKey(d).None? then []
    else if d.HeaderCol? && |d.conv| > 0 then [Some(d.conv[0])]
    else [None]
  }

  /** Each declaration's header, for those that have one. */
  function HeaderMask(decls: seq<ColumnDecl>): (r: seq<Option<string>>)
    ensures |r| == |decls|
  {
    seq(|decls|, i requires 0 <= i < |decls| => if decls[i].HeaderCol? then Some(decls[i].header) else None)
  }

  /** Each declaration's converter, for those that give one. */
  function DeclConvs(decls: seq<ColumnDecl>): (r: seq<Option<Converter>>)
    ensures |r| == |decls|
  {
    seq(|decls|, i requires 0 <= i < |decls| => if decls[i].HeaderCol? && |decls[i].conv| > 0 then Some(decls[i].conv[0]) else None)
  }

  lemma MasksTail(decls: seq<ColumnDecl>)
    requires |decls| > 0
    ensures HeaderMask(decls) == HeaderMask(decls[..1]) + HeaderMask(decls[1..])
    ensures DeclConvs(decls)[1..] == DeclConvs(decls[1..])
  {
  }

  /** The lists `setup` builds, or the `ValueError` of the first bad converter:
      `all_cols` holds the headers in order, `all_keys` one key per declaration,
      `keys` the used ones, and `convfuncs` the converter of each used
      declaration, cut out at the same positions as `keys`. */
  function SetupLists(decls: seq<ColumnDecl>)
    : (r: Result<(seq<string>, seq<Option<string>>, seq<string>, seq<Option<Converter>>), string>)
    ensures r.Ok? <==> forall i :: 0 <= i < |decls| ==> !BadConverter(decls[i])
    ensures r.Ok? ==> r.value.0 == FilterSome(HeaderMask(decls))
    ensures r.Ok? ==> |r.value.1| == |decls|
    ensures r.Ok? ==> forall i :: 0 <= i < |decls| ==> r.value.1[i] == DeclKey(decls[i])
    ensures r.Ok? ==> r.value.2 == FilterSome(r.value.1)
    ensures r.Ok? ==> |r.value.3| == |r.value.2|
    ensures r.Ok? ==> r.value.3 == Cut(r.value.1, DeclConvs(decls))
  {
    if |decls| == 0 then Ok(([], [], [], []))
    else
      var d := decls[0];
      if BadConverter(d) then Err("not a callable: " + d.conv[0].repr)
      else match SetupLists(decls[1..])
        case Err(e) => Err(e)
        case Ok((allCols, allKeys, keys, conv)) =>
          var ak := [DeclKey(d)] + allKeys;
          assert ak[1..] == allKeys;
          MasksTail(decls);
          FilterSomeConcat(HeaderMask(decls[..1]), HeaderMask(decls[1..]));
          Ok(((if d.HeaderCol? then [d.header] else []) + allCols,
              ak,
              (if DeclKey(d).Some? then [DeclKey(d).value] else []) + keys,
              ConvSlot(d) + conv))
  }

  /** `has_header` is left by the last declaration (unset when there is none). */
  function LastHasHeader(decls: seq<ColumnDecl>): Option<bool> {
    if |decls| == 0 then None else Some(decls[|decls| - 1].HeaderCol?)
  }

  /** `CSV_Spec(*decls)`: `ValueError` for no declaration or a non-callable
      converter; otherwise `all_keys` has one entry per declaration (the `None`s
      included), `keys` is its non-`None` entries in order, `convfuncs` has one
      slot per used key, `cols` stays empty and `len(spec)` is the number of
      declarations. */
  function NewCsvSpec(decls: seq<ColumnDecl>): (r: Result<CsvSpec, string>)
    ensures |decls| == 0 ==> r.Err?
    ensures r.Ok? <==> |decls| > 0 && forall i :: 0 <= i < |decls| ==> !BadConverter(decls[i])
    ensures r.Ok? ==> Len(r.value) == |decls|
    ensures r.Ok? ==> |r.value.allKeys| == |decls|
    ensures r.Ok? ==> forall i :: 0 <= i < |decls| ==> r.value.allKeys[i] == DeclKey(decls[i])
    ensures r.Ok? ==> r.value.keys == FilterSome(r.value.allKeys)
    ensures r.Ok? ==> |r.value.convfuncs| == |r.value.keys| && r.value.cols == []
    ensures r.Ok? ==> r.value.allCols == FilterSome(HeaderMask(decls))
    ensures r.Ok? ==> r.value.convfuncs == Cut(r.value.allKeys, DeclConvs(decls))
    // the last declaration decides whether the file has a header row
    ensures r.Ok? ==> r.value.hasHeader == Some(decls[|decls| - 1].HeaderCol?)
  {
    if |decls| == 0 then Err("at least one column needs to be declared")
    else match SetupLists(decls)
      case Err(e) => Err(e)
      case Ok((allCols, allKeys, keys, conv)) =>
        Ok(CsvSpec(decls, LastHasHeader(decls), allCols, [], allKeys, keys, conv))
  }

  /** Each used column's key and converter sit at the same index of `keys`
      and `convfuncs`: the number of used columns before it. */
  lemma SetupPairs(decls: seq<ColumnDecl>, j: nat)
    requires forall i :: 0 <= i < |decls| ==> !BadConverter(decls[i])
    requires j < |decls| && DeclKey(decls[j]).Some?
    ensures var (_, allKeys, keys, conv) := SetupLists(decls).value;
            var k := |FilterSome(allKeys[..j])|;
            && k < |keys| && k < |conv|
            && keys[k] == DeclKey(decls[j]).value
            && conv[k] == DeclConvs(decls)[j]
  {
    var allKeys := SetupLists(decls).value.1;
    FilterSomeAt(allKeys, j);
  }

  /** The kept element at `j` sits after the kept elements before it. */
  lemma FilterSomeAt<T>(s: seq<Option<T>>, j: nat)
    requires j < |s| && s[j].Some?
    ensures |FilterSome(s[..j])| < |FilterSome(s)|
    ensures FilterSome(s)[|FilterSome(s[..j])|] == s[j].value
  {
    SplitAt(s, j);
    FilterSomeConcat(s[..j], s[j..]);
  }

  /** `len(spec)`. */
  function Len(s: CsvSpec): nat {
    |s.decls|
  }

  /** `spec.cut(row)`: the row's values at the non-ignored positions, pairing
      stops at the shorter of `all_keys` and `row`.  The value at position `j`
      lands at the output index equal to the number of used keys before `j`. */
  function Cut<T>(allKeys: seq<Option<string>>, row: seq<T>): (r: seq<T>)
    ensures |r| <= |FilterSome(allKeys)|
    ensures |r| == |FilterSome(allKeys[..MinLen(|allKeys|, |row|)])|
    ensures forall j :: 0 <= j < |allKeys| && j < |row| && allKeys[j].Some? ==>
              |FilterSome(allKeys[..j])| < |r| && r[|FilterSome(allKeys[..j])|] == row[j]
  {
    if |allKeys| == 0 || |row| == 0 then []
    else
      var rest := Cut(allKeys[1..], row[1..]);
      var r := (if allKeys[0].Some? then [row[0]] else []) + rest;
      DropIndex(allKeys, 1);
      DropIndex(row, 1);
      forall j | 0 < j < |allKeys| && j < |row| && allKeys[j].Some?
        ensures |FilterSome(allKeys[..j])| < |r| && r[|FilterSome(allKeys[..j])|] == row[j]
      {
        FilterSomePrefix(allKeys, j);
      }
      FilterSomePrefix(allKeys, MinLen(|allKeys|, |row|));
      r
  }

  function MinLen(a: nat, b: nat): nat { if a < b then a else b }

  /** The kept keys of a non-empty prefix: the head's, then the tail's. */
  lemma FilterSomePrefix<T>(s: seq<Option<T>>, m: nat)
    requires 1 <= m <= |s|
    ensures |FilterSome(s[..m])| == (if s[0].Some? then 1 else 0) + |FilterSome(s[1..][..m - 1])|
  {
    TakeTail(s, m);
  }

  /** The row with the ignored positions blanked out, up to the shorter of
      `all_keys` and `row`: the pairs `zip` forms, before the filter. */
  function Masked<T>(allKeys: seq<Option<string>>, row: seq<T>): (r: seq<Option<T>>)
    ensures |r| == MinLen(|allKeys|, |row|)
  {
    seq(MinLen(|allKeys|, |row|), i requires 0 <= i < MinLen(|allKeys|, |row|) =>
      if allKeys[i].Some? then Some(row[i]) else None)
  }

  /** `cut` is the generator's filter: the row values whose key is not `None`,
      in order. */
  lemma {:induction false} CutIsFilter<T>(allKeys: seq<Option<string>>, row: seq<T>)
    ensures Cut(allKeys, row) == FilterSome(Masked(allKeys, row))
    decreases |row|
  {
    if |allKeys| > 0 && |row| > 0 {
      CutIsFilter(allKeys[1..], row[1..]);
      assert Masked(allKeys, row)[1..] == Masked(allKeys[1..], row[1..]);
    }
  }

  /** Filtering distributes over concatenation. */
  lemma {:induction false} FilterSomeConcat<T>(a: seq<Option<T>>, b: seq<Option<T>>)
    ensures FilterSome(a + b) == FilterSome(a) + FilterSome(b)
    decreases |a|
  {
    if |a| > 0 {
      assert (a + b)[1..] == a[1..] + b;
      FilterSomeConcat(a[1..], b);
    } else {
      assert a + b == b;
    }
  }

  // ---------------------------------------------------------------------------
  // ProgressPrinter template and counter

  /** `s[k..]` for a `next` index reached while scanning a replacement field. */
  function SkipBracket(s: string, j: nat): (k: nat)
    requires j <= |s|
    ensures j <= k <= |s|
    ensures k < |s| ==> s[k] == ']'
    decreases |s| - j
  {
    if j == |s| || s[j] == ']' then j else SkipBracket(s, j + 1)
  }

  /** Scan of a field name: it ends before `!`, `:` or `}` (brackets `[...]`
      skipped); `stop` is that character and `next` the index after it, or
      `None` when the text ran out. */
  datatype NameScan = NameScan(nameEnd: nat, next: nat, stop: Option<char>)

  function ScanName(s: string, i: nat): (r: Result<NameScan, string>)
    requires i <= |s|
    ensures r.Ok? ==> r.value.nameEnd <= |s| && r.value.next <= |s|
    ensures r.Ok? && r.value.stop.Some? ==> r.value.next == r.value.nameEnd + 1
    decreases |s| - i
  {
    if i == |s| then Ok(NameScan(i, i, None))
    else if s[i] == '{' then Err("unexpected '{' in field name")
    else if s[i] == '[' then ScanName(s, SkipBracket(s, i + 1))
    else if s[i] == '}' || s[i] == ':' || s[i] == '!' then Ok(NameScan(i, i + 1, Some(s[i])))
    else ScanName(s, i + 1)
  }

  /** End of a format spec: brace depth counted from `depth`; index after the
      closing `}`. */
  function SpecEnd(s: string, j: nat, depth: nat): (r: Result<int, string>)
    requires j <= |s|
    ensures r.Ok? ==> j < r.value <= |s|
    decreases |s| - j
  {
    if j == |s| then Err("unmatched '{' in format spec")
    else if s[j] == '{' then SpecEnd(s, j + 1, depth + 1)
    else if s[j] == '}' then (if depth <= 1 then Ok(j + 1) else SpecEnd(s, j + 1, depth - 1))
    else SpecEnd(s, j + 1, depth)
  }

  /** What follows a `!` at index `k - 1`: a one-character conversion, then
      either the closing `}` or a `:` and a format spec; index past the field. */
  function ConversionTail(s: string, k: nat): (r: Result<int, string>)
    requires 0 < k <= |s|
    ensures r.Ok? ==> 0 < r.value <= |s|
  {
    if k >= |s| then Err("end of string while looking for conversion specifier")
    else if k + 1 < |s| then
      if s[k + 1] == '}' then Ok(k + 2)
      else if s[k + 1] != ':' then Err("expected ':' after conversion specifier")
      else SpecEnd(s, k + 2, 1)
    else SpecEnd(s, k + 1, 1)
  }

  /** One replacement field, `s` starting just after its `{`: the field name
      and the index just past the field. */
  function ParseField(s: string): (r: Result<(string, int), string>)
    ensures r.Ok? ==> 0 < r.value.1 <= |s|
  {
    match ScanName(s, 0)
    case Err(e) => Err(e)
    case Ok(sc) =>
      if sc.stop.None? then Err("expected '}' before end of string")
      else
        var name := s[..sc.nameEnd];
        var tail :=
          if sc.stop.value == '}' then Ok(sc.next as int)
          else if sc.stop.value == '!' then ConversionTail(s, sc.next)
          else SpecEnd(s, sc.next, 1);
        match tail
        case Err(e) => Err(e)
        case Ok(k) => Ok((name, k))
  }

  /** The field names of `string.Formatter().parse(t)` that are not `None`
      (one per replacement field), or the `ValueError` it raises. */
  function FieldNames(t: string): (r: Result<seq<string>, string>)
    decreases |t|
  {
    if |t| == 0 then Ok([])
    else if t[0] == '}' then
      if |t| >= 2 && t[1] == '}' then FieldNames(t[2..])
      else Err("Single '}' encountered in format string")
    else if t[0] == '{' then
      if |t| == 1 then Err("Single '{' encountered in format string")
      else if t[1] == '{' then FieldNames(t[2..])
      else match ParseField(t[1..])
        case Err(e) => Err(e)
        case Ok((name, k)) =>
          match FieldNames(t[1 + k..])
          case Err(e) => Err(e)
          case Ok(rest) => Ok([name] + rest)
    else FieldNames(t[1..])
  }

  /** Literal text without braces adds no field. */
  lemma {:induction false} PlainTextNoFields(p: string, t: string)
    requires '{' !in p && '}' !in p
    ensures FieldNames(p + t) == FieldNames(t)
  {
    if |p| > 0 {
      assert (p + t)[1..] == p[1..] + t;
      PlainTextNoFields(p[1..], t);
    } else {
      assert p + t == t;
    }
  }

  /** `_init_template(t)`: the template to use and its variable name. */
  function InitTemplate(t: string): (r: Result<(string, Option<string>), string>)
    ensures FieldNames(t).Err? ==> r.Err?
    ensures FieldNames(t) == Ok([]) ==> r == Ok(("{} " + t, None))
    ensures FieldNames(t) == Ok([""]) ==> r == Ok((t, None))
    ensures forall v :: FieldNames(t) == Ok([v]) && v != "" ==> r == Ok((t, Some(v)))
    ensures FieldNames(t).Ok? && |FieldNames(t).value| >= 2 ==> r.Err?
  {
    match FieldNames(t)
    case Err(e) => Err(e)
    case Ok(vars) =>
      if |vars| == 0 then Ok(("{} " + t, None))
      else if |vars| == 1 then Ok((t, if vars[0] == "" then None else Some(vars[0])))
      else Err("too many format fields in template")
  }

  /** The template `_init_template` settles on always holds exactly one field,
      named by the returned variable (`None` for an anonymous one), so setting
      it up again changes nothing. */
  lemma InitTemplateSettled(t: string)
    requires InitTemplate(t).Ok?
    ensures var (tmpl, v) := InitTemplate(t).value;
            exists name :: FieldNames(tmpl) == Ok([name]) && v == (if name == "" then None else Some(name))
    ensures InitTemplate(InitTemplate(t).value.0) == InitTemplate(t)
  {
    if FieldNames(t) == Ok([]) {
      var u := "{} " + t;
      assert u[1..] == "} " + t;
      assert ScanName(u[1..], 0) == Ok(NameScan(0, 1, Some('}')));
      assert ParseField(u[1..]) == Ok(("", 1));
      assert u[2..] == " " + t;
      PlainTextNoFields(" ", t);
      assert FieldNames(u[1 + 1..]) == Ok([]);
      assert u[0] == '{' && |u| >= 2 && u[1] != '{';
      assert FieldNames(u) == Ok([""] + FieldNames(u[1 + 1..]).value);
      assert [""] + [] == [""];
    } else {
      assert |FieldNames(t).value| == 1;
      var vars := FieldNames(t).value;
      var name := vars[0];
      assert vars == [name];
      assert FieldNames(t) == Ok([name]);
    }
  }

  /** The counter part of the progress printer: `None` until the first `inc`. */
  datatype Progress = Progress(current: Option<int>, last: Option<int>)

  /** `inc(step)`: a fresh printer is reset to zero first; `last` becomes the
      previous count and the count grows by `step`. */
  function Inc(p: Progress, step: int): (q: Progress)
    ensures q.last == Some(if p.current.Some? then p.current.value else 0)
    ensures q.current.Some? && q.current.value == q.last.value + step
  {
    var cur := if p.current.None? then 0 else p.current.value;
    Progress(Some(cur + step), Some(cur))
  }

  /** `n` unit increments of a fresh printer. */
  function IncTimes(p: Progress, n: nat): Progress {
    if n == 0 then p else Inc(IncTimes(p, n - 1), 1)
  }

  /** Iterating a fresh printer over `n >= 1` items counts them: `current == n`
      and `last == n - 1`. */
  lemma {:induction false} IncCounts(n: nat)
    requires n >= 1
    ensures IncTimes(Progress(None, None), n) == Progress(Some(n), Some(n - 1))
  {
    if n > 1 {
      IncCounts(n - 1);
    }
  }
}
