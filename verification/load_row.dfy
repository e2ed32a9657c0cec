/**
 * From the header line and a data line to the loader's `row`: column headers
 * are mapped case-insensitively to internal names, each data line is split and
 * stripped, and only valid columns with non-missing values are kept.
 */
module LoadRow {
  import opened Basics
  import opened PyStr
  import opened LoadStore

  /** A loader's `COLS`: pairs of (file header, internal name). */
  type ColTable = seq<(string, string)>

  /** The internal names of `COLS`, i.e. the valid row keys. */
  function ValidCols(table: ColTable): (r: seq<string>)
    ensures |r| == |table|
    ensures forall i :: 0 <= i < |table| ==> r[i] == table[i].1
  {
    seq(|table|, i requires 0 <= i < |table| => table[i].1)
  }

  /** Does the `j`-th `COLS` header match `h` ignoring case? */
  predicate HeaderAt(table: ColTable, j: int, h: string)
    requires 0 <= j < |table|
  {
    Lower(table[j].0) == Lower(h)
  }

  /** `{i.casefold(): j for i, j in COLS}[h.casefold()]`: the internal name of
      the last `COLS` entry whose header matches `h` ignoring case. */
  function Lookup(table: ColTable, h: string): (r: Option<string>)
    ensures r.None? <==> forall j :: 0 <= j < |table| ==> !HeaderAt(table, j, h)
    ensures r.Some? ==> exists j :: 0 <= j < |table| && HeaderAt(table, j, h) && table[j].1 == r.value
                          && forall k :: j < k < |table| ==> !HeaderAt(table, k, h)
  {
    if |table| == 0 then None
    else if HeaderAt(table, |table| - 1, h) then Some(table[|table| - 1].1)
    else
      var init := table[..|table| - 1];
      var r := Lookup(init, h);
      assert forall j :: 0 <= j < |init| ==> (HeaderAt(init, j, h) <==> HeaderAt(table, j, h));
      r
  }

  /** The internal name given to header `h`: its `COLS` name, else `h` itself. */
  function InternalName(table: ColTable, h: string): string {
    match Lookup(table, h)
    case Some(n) => n
    case None => h
  }

  /** The loader's `cols`: one internal name per header, in order. */
  function MapCols(table: ColTable, colnames: seq<string>): (r: seq<string>)
    ensures |r| == |colnames|
    ensures forall i :: 0 <= i < |colnames| ==>
              r[i] == (if Lookup(table, colnames[i]).Some? then Lookup(table, colnames[i]).value else colnames[i])
  {
    seq(|colnames|, i requires 0 <= i < |colnames| => InternalName(table, colnames[i]))
  }

  /** The loader's `ignored_columns`: the headers without a `COLS` entry, in order. */
  function Ignored(table: ColTable, colnames: seq<string>): (r: seq<string>)
    ensures forall x :: x in r <==> x in colnames && Lookup(table, x).None?
    ensures |r| <= |colnames|
  {
    if |colnames| == 0 then []
    else
      var h := colnames[0];
      assert forall x :: x in colnames <==> x == h || x in colnames[1..];
      (if Lookup(table, h).None? then [h] else []) + Ignored(table, colnames[1..])
  }

  /** Headers are classified one by one, so the ignored columns of a header
      line are those of its parts, in order and with repetitions. */
  lemma {:induction false} IgnoredAppend(table: ColTable, a: seq<string>, b: seq<string>)
    ensures Ignored(table, a + b) == Ignored(table, a) + Ignored(table, b)
    decreases |a|
  {
    if |a| > 0 {
      assert (a + b)[1..] == a[1..] + b;
      IgnoredAppend(table, a[1..], b);
    } else {
      assert a + b == b;
    }
  }

  /** A single header is ignored exactly when `COLS` has no entry for it. */
  lemma IgnoredOne(table: ColTable, h: string)
    ensures Ignored(table, [h]) == if Lookup(table, h).None? then [h] else []
  {
    assert [h][1..] == [];
  }

  /** An ignored column keeps its own name in `cols`. */
  lemma IgnoredKeepName(table: ColTable, colnames: seq<string>, i: int)
    requires 0 <= i < |colnames| && colnames[i] in Ignored(table, colnames)
    ensures MapCols(table, colnames)[i] == colnames[i]
  {
  }

  /** An entry of `missing_data`: a literal string or a compiled pattern, whose
      `match` is left to a parameter. */
  datatype Missing = Literal(s: string) | Pattern(matches: string -> bool)

  /** `missing_data = ['']`. */
  const DefaultMissing: seq<Missing> := [Literal("")]

  /** `non_empty(value)`, with `Model.decode_blank` as a parameter. */
  function NonEmpty(missing: seq<Missing>, decodeBlank: string -> string, v: string): (r: bool)
    ensures !r <==> || (exists i :: 0 <= i < |missing| && missing[i] == Literal(v))
                    || (exists i :: 0 <= i < |missing| && missing[i].Pattern? && missing[i].matches(v))
                    || decodeBlank(v) == ""
  {
    if |missing| == 0 then decodeBlank(v) != ""
    else
      var m := missing[0];
      var rest := NonEmpty(missing[1..], decodeBlank, v);
      assert forall i :: 1 <= i < |missing| ==> missing[i] == missing[1..][i - 1];
      match m
      case Literal(s) => if v == s then false else rest
      case Pattern(p) => if p(v) then false else rest
  }

  /** With the default `missing_data` the empty string is never kept. */
  lemma EmptyNeverKept(decodeBlank: string -> string)
    ensures !NonEmpty(DefaultMissing, decodeBlank, "")
  {
    assert DefaultMissing[0] == Literal("");
  }

  /** `[i.strip() for i in line.strip().split(sep)]`: one field more than the
      stripped line has separators, none holding a separator or surrounding
      whitespace. */
  function RowFields(line: string, sep: char): (r: seq<string>)
    ensures |r| == CountChar(Strip(line), sep) + 1
    ensures forall i :: 0 <= i < |r| ==> sep !in r[i]
    ensures forall i :: 0 <= i < |r| && |r[i]| > 0 ==> !IsSpace(r[i][0]) && !IsSpace(r[i][|r[i]| - 1])
  {
    var parts := Split(Strip(line), sep);
    SplitCount(Strip(line), sep);
    StripAllNoChar(parts, sep);
    StripAll(parts)
  }

  /** Each part stripped. */
  function StripAll(parts: seq<string>): (r: seq<string>)
    ensures |r| == |parts| && forall i :: 0 <= i < |r| ==> r[i] == Strip(parts[i])
    ensures forall i :: 0 <= i < |r| && |r[i]| > 0 ==> !IsSpace(r[i][0]) && !IsSpace(r[i][|r[i]| - 1])
  {
    seq(|parts|, i requires 0 <= i < |parts| => Strip(parts[i]))
  }

  /** Stripping parts free of `c` leaves them free of `c`. */
  lemma StripAllNoChar(parts: seq<string>, c: char)
    requires forall i :: 0 <= i < |parts| ==> c !in parts[i]
    ensures forall i :: 0 <= i < |parts| ==> c !in StripAll(parts)[i]
  {
    forall i | 0 <= i < |parts| ensures c !in StripAll(parts)[i] {
      StripNoChar(parts[i], c);
    }
  }

  /** A line written from stripped, separator-free fields reads back as those
      fields, provided the whole-line strip does not eat a leading or trailing
      empty field (it can only when the separator is whitespace). */
  lemma RowFieldsRoundTrip(fields: seq<string>, sep: char)
    requires |fields| >= 1
    requires forall i :: 0 <= i < |fields| ==> sep !in fields[i]
    requires forall i :: 0 <= i < |fields| && |fields[i]| > 0 ==>
               !IsSpace(fields[i][0]) && !IsSpace(fields[i][|fields[i]| - 1])
    requires IsSpace(sep) ==> |fields[0]| > 0 && |fields[|fields| - 1]| > 0
    ensures RowFields(Join(fields, sep), sep) == fields
  {
    var j := Join(fields, sep);
    JoinStripped(fields, sep);
    SplitJoin(fields, sep);
    assert Split(Strip(j), sep) == fields;
    StripEach(fields);
  }

  /** The join has no surrounding whitespace. */
  lemma JoinStripped(fields: seq<string>, sep: char)
    requires |fields| >= 1
    requires |fields[0]| > 0 ==> !IsSpace(fields[0][0])
    requires |fields[|fields| - 1]| > 0 ==> !IsSpace(fields[|fields| - 1][|fields[|fields| - 1]| - 1])
    requires IsSpace(sep) ==> |fields[0]| > 0 && |fields[|fields| - 1]| > 0
    ensures Strip(Join(fields, sep)) == Join(fields, sep)
  {
    var j := Join(fields, sep);
    JoinEnds(fields, sep);
    StripUnchanged(j);
  }

  /** Stripping stripped fields changes none of them. */
  lemma StripEach(fields: seq<string>)
    requires forall i :: 0 <= i < |fields| && |fields[i]| > 0 ==>
               !IsSpace(fields[i][0]) && !IsSpace(fields[i][|fields[i]| - 1])
    ensures StripAll(fields) == fields
  {
    forall i | 0 <= i < |fields| ensures Strip(fields[i]) == fields[i] {
      StripUnchanged(fields[i]);
    }
  }


  /** Is the `i`-th (column, field) pair kept in the row? */
  predicate Kept(cols: seq<string>, fields: seq<string>, valid: seq<string>, flags: seq<bool>, i: int)
    requires 0 <= i < |cols| && i < |fields| && |flags| == |fields|
  {
    cols[i] in valid && flags[i]
  }

  /** `non_empty` of every field. */
  function KeepFlags(missing: seq<Missing>, decodeBlank: string -> string, fields: seq<string>): (r: seq<bool>)
    ensures |r| == |fields|
    ensures forall i :: 0 <= i < |fields| ==> r[i] == NonEmpty(missing, decodeBlank, fields[i])
  {
    seq(|fields|, i requires 0 <= i < |fields| => NonEmpty(missing, decodeBlank, fields[i]))
  }

  function Min(a: int, b: int): int { if a < b then a else b }

  /** `{k: v for k, v in zip(cols, fields) if non_empty(v) and k in valid}` for
      the first `n` pairs: a later pair with the same key overrides an earlier one. */
  function Pairs(cols: seq<string>, fields: seq<string>, valid: seq<string>, flags: seq<bool>, n: nat)
    : (r: map<string, string>)
    requires n <= |cols| && n <= |fields| && |flags| == |fields|
    ensures forall k :: k in r ==> k in valid
    ensures forall i :: 0 <= i < n && Kept(cols, fields, valid, flags, i) ==> cols[i] in r
    ensures forall k :: k in r ==>
              exists i :: 0 <= i < n && cols[i] == k && Kept(cols, fields, valid, flags, i) && fields[i] == r[k]
                && forall j :: i < j < n && cols[j] == k ==> !Kept(cols, fields, valid, flags, j)
  {
    if n == 0 then map[]
    else
      var r := Pairs(cols, fields, valid, flags, n - 1);
      if Kept(cols, fields, valid, flags, n - 1) then r[cols[n - 1] := fields[n - 1]] else r
  }

  /** The loader's `row` for one data line: keys are valid internal names, values
      are stripped and not missing, pairing stops at the shorter sequence. */
  function NormalizeRow(cols: seq<string>, table: ColTable, missing: seq<Missing>, decodeBlank: string -> string,
                        line: string, sep: char): (r: map<string, string>)
    ensures forall k :: k in r ==> k in ValidCols(table) && NonEmpty(missing, decodeBlank, r[k])
    ensures forall k :: k in r ==> exists i :: 0 <= i < |cols| && i < |RowFields(line, sep)| && cols[i] == k
                                      && r[k] == RowFields(line, sep)[i]
    ensures forall i :: (0 <= i < |cols| && i < |RowFields(line, sep)| && cols[i] in ValidCols(table)
                         && NonEmpty(missing, decodeBlank, RowFields(line, sep)[i])) ==> cols[i] in r
  {
    FieldsRow(cols, table, missing, decodeBlank, RowFields(line, sep))
  }

  /** The row built from the fields of a line. */
  function FieldsRow(cols: seq<string>, table: ColTable, missing: seq<Missing>, decodeBlank: string -> string,
                     fields: seq<string>): (r: map<string, string>)
    ensures forall k :: k in r ==> k in ValidCols(table) && NonEmpty(missing, decodeBlank, r[k])
    ensures forall k :: k in r ==> exists i :: 0 <= i < |cols| && i < |fields| && cols[i] == k && r[k] == fields[i]
    ensures forall i :: (0 <= i < |cols| && i < |fields| && cols[i] in ValidCols(table)
                         && NonEmpty(missing, decodeBlank, fields[i])) ==> cols[i] in r
  {
    Pairs(cols, fields, ValidCols(table), KeepFlags(missing, decodeBlank, fields), Min(|cols|, |fields|))
  }

  /** A value of the row is its own strip: no field keeps surrounding whitespace. */
  lemma RowValuesStripped(cols: seq<string>, table: ColTable, missing: seq<Missing>, decodeBlank: string -> string,
                          line: string, sep: char)
    ensures var r := NormalizeRow(cols, table, missing, decodeBlank, line, sep);
            forall k :: k in r && |r[k]| > 0 ==> !IsSpace(r[k][0]) && !IsSpace(r[k][|r[k]| - 1])
  {
  }

  /** The line is stripped as a whole before splitting, so an empty first field
      of a line with leading separator whitespace disappears and every later
      value moves one column to the left: with headers `a`, `b` the line
      `"\tx"` gives `{a: x}`, not `{b: x}`. */
  lemma StripShiftsColumns(decodeBlank: string -> string)
    requires decodeBlank("x") == "x"
    ensures var table := [("a", "a"), ("b", "b")];
            NormalizeRow(["a", "b"], table, DefaultMissing, decodeBlank, "\tx", '\t') == map["a" := "x"]
  {
    var table := [("a", "a"), ("b", "b")];
    var cols := ["a", "b"];
    XKept(decodeBlank);
    ABValid();
    TabXFields();
    NormalizeRowOf(cols, table, DefaultMissing, decodeBlank, "\tx", '\t', ["x"]);
    assert Min(|cols|, |["x"]|) == 1;
    FirstPairOnly(cols, ValidCols(table), [true]);
  }

  /** The value `"x"` is kept under the default missing-value rules. */
  lemma XKept(decodeBlank: string -> string)
    requires decodeBlank("x") == "x"
    ensures KeepFlags(DefaultMissing, decodeBlank, ["x"]) == [true]
  {
    assert DefaultMissing[1..] == [];
    assert NonEmpty(DefaultMissing[1..], decodeBlank, "x");
  }

  /** Both columns of the example table are valid. */
  lemma ABValid()
    ensures ValidCols([("a", "a"), ("b", "b")]) == ["a", "b"]
  {
  }

  /** `NormalizeRow` once the line's fields are known. */
  lemma NormalizeRowOf(cols: seq<string>, table: ColTable, missing: seq<Missing>, decodeBlank: string -> string,
                       line: string, sep: char, fields: seq<string>)
    requires RowFields(line, sep) == fields
    ensures NormalizeRow(cols, table, missing, decodeBlank, line, sep)
            == Pairs(cols, fields, ValidCols(table), KeepFlags(missing, decodeBlank, fields), Min(|cols|, |fields|))
  {
    assert NormalizeRow(cols, table, missing, decodeBlank, line, sep) == FieldsRow(cols, table, missing, decodeBlank, fields);
  }

  lemma FirstPairOnly(cols: seq<string>, valid: seq<string>, flags: seq<bool>)
    requires |cols| >= 1 && cols[0] in valid && flags == [true]
    ensures Pairs(cols, ["x"], valid, flags, 1) == map[cols[0] := "x"]
  {
    assert Kept(cols, ["x"], valid, flags, 0);
  }

  /** The line `"\tx"` has the single field `"x"`. */
  lemma TabXFields()
    ensures RowFields("\tx", '\t') == ["x"]
  {
    StripTabX();
    SplitNoSep("x", '\t');
    StripUnchanged("x");
    var r := RowFields("\tx", '\t');
    assert |r| == 1 && r[0] == Strip("x");
  }

  lemma StripTabX()
    ensures Strip("\tx") == "x"
  {
    var s := "\tx";
    assert IsSpace(s[0]) && !IsSpace(s[1]);
    assert s[1..] == "x";
    assert LStrip(s[1..]) == "x";
    assert LStrip(s) == "x";
    assert RStrip("x") == "x";
  }

  /** A key of either part is a key of the concatenation. */
  lemma HasKeyAppend(a: Assignments, b: Assignments, k: string)
    requires HasKey(a, k) || HasKey(b, k)
    ensures HasKey(a + b, k)
  {
    if HasKey(a, k) {
      var i :| 0 <= i < |a| && a[i].0 == k;
      assert (a + b)[i].0 == k;
    } else {
      var i :| 0 <= i < |b| && b[i].0 == k;
      assert (a + b)[|a| + i].0 == k;
    }
  }

  /** `get_from_row(*keys)`: the requested keys present in the row, in request
      order, with their row values. */
  function GetFromRow(row: map<string, string>, keys: seq<string>): (r: Assignments)
    ensures forall i :: 0 <= i < |r| ==> r[i].0 in keys && r[i].0 in row && r[i].1 == Str(row[r[i].0])
    ensures forall k :: k in keys && k in row ==> HasKey(r, k)
    ensures |r| <= |keys|
    // all keys are found exactly when none is missing, and then in request order
    ensures |r| == |keys| <==> forall k :: k in keys ==> k in row
    ensures (forall k :: k in keys ==> k in row) ==>
              forall i :: 0 <= i < |keys| ==> r[i] == (keys[i], Str(row[keys[i]]))
  {
    if |keys| == 0 then []
    else
      var rest := GetFromRow(row, keys[1..]);
      var k := keys[0];
      var pre := if k in row then [(k, Str(row[k]))] else [];
      forall j | j in keys && j in row ensures HasKey(pre + rest, j) {
        if j == k {
          assert pre[0].0 == j;
        } else {
          assert j in keys[1..];
        }
        HasKeyAppend(pre, rest, j);
      }
      assert keys == [k] + keys[1..];
      pre + rest
  }
}
