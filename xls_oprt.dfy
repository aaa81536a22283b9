/** The readers of `ExcelOperator` (libs/xls_oprt.py). A sheet is given as its columns,
    each a sequence of cell values as xlrd's `col_values` returns them. */
module XlsOprt {
  import opened Options
  import opened Numbers
  import opened Misc

  /** A cell value: text, or a number (xlrd reads every number as a float). */
  datatype Cell = Text(text: string) | Number(number: real)

  /** Python truthiness of a cell value. */
  predicate Truthy(c: Cell) {
    match c
    case Text(s) => s != ""
    case Number(x) => x != 0.0
  }

  /** `int(c)`: truncation toward zero for a number, decimal parsing for text;
      `None` where Python raises `ValueError`. */
  function IntOfCell(c: Cell): Option<int> {
    match c
    case Number(x) => Some(Trunc(x))
    case Text(s) => IntOfString(s)
  }

  /** The numeric order of the readers' keys, all of which are digit strings, is the
      order of their decimal values. */
  lemma DigitKeysAreNumeric(keys: set<string>)
    requires forall k :: k in keys ==> IsDigits(k)
    ensures AllNumeric(keys)
    ensures forall k :: k in keys ==> IsDigits(k) && NumericKey(k) == DigitsValue(k)
  {
  }

  /** Items in numeric order whose keys are all digit strings: distinct keys, ascending
      by decimal value. */
  lemma SortedDigitItems<V>(p: seq<(string, V)>, d: map<string, V>)
    requires IsSortedItems(p, d)
    requires forall k :: k in d ==> IsDigits(k)
    ensures forall j :: 0 <= j < |p| ==> IsDigits(p[j].0)
    ensures forall j, l :: 0 <= j < l < |p| ==>
      p[j].0 != p[l].0 && IsDigits(p[j].0) && IsDigits(p[l].0) && DigitsValue(p[j].0) <= DigitsValue(p[l].0)
  {
    DigitKeysAreNumeric(d.Keys);
    var ks := KeysOf(p);
    forall j | 0 <= j < |p| ensures IsDigits(p[j].0) {
      assert p[j].0 in d;
    }
    forall j, l | 0 <= j < l < |p|
      ensures p[j].0 != p[l].0 && IsDigits(p[j].0) && IsDigits(p[l].0) && DigitsValue(p[j].0) <= DigitsValue(p[l].0)
    {
      assert ks[j] == p[j].0 && ks[l] == p[l].0 && p[j].0 in d && p[l].0 in d;
      assert NumericKey(ks[j]) <= NumericKey(ks[l]);
    }
  }

  // ----- get_id_name_pairs and get_id_name_pairs_with_row_number

  /** The filter both comprehensions apply: `id.isdigit() and name`. */
  predicate KeepsIdName(id: Cell, name: Cell) {
    id.Text? && IsDigits(id.text) && Truthy(name)
  }

  /** Row `i` of columns 0 and 1 passes the filter and has id `k`. */
  predicate IdNameRowFor(ids: seq<Cell>, names: seq<Cell>, i: int, k: string) {
    0 <= i < |ids| && i < |names| && KeepsIdName(ids[i], names[i]) && ids[i].text == k
  }

  /** Row `i` is the last row that passes the filter with id `k`. */
  ghost predicate LastIdNameRowFor(ids: seq<Cell>, names: seq<Cell>, i: int, k: string) {
    IdNameRowFor(ids, names, i, k) && forall j :: i < j ==> !IdNameRowFor(ids, names, j, k)
  }

  function IdNameEntries(ids: seq<Cell>, names: seq<Cell>): seq<Option<(string, Cell)>> {
    var rows := Zip(ids, names);
    seq(|rows|, i requires 0 <= i < |rows| =>
      if KeepsIdName(rows[i].0, rows[i].1) then Some((rows[i].0.text, rows[i].1)) else None)
  }

  /** The dictionary `{id: name for id, name in zip(col 0, col 1) if id.isdigit() and name}`. */
  function IdNameDict(ids: seq<Cell>, names: seq<Cell>): map<string, Cell> {
    DictOf(IdNameEntries(ids, names))
  }

  /** `get_id_name_pairs`: the dictionary's items in numeric order of the ids. */
  ghost function IdNamePairs(ids: seq<Cell>, names: seq<Cell>): seq<(string, Cell)> {
    SortedItems(IdNameDict(ids, names))
  }

  function NumberedEntries(ids: seq<Cell>, names: seq<Cell>): seq<Option<(string, (Cell, int))>> {
    var rows := Zip(ids, names);
    seq(|rows|, i requires 0 <= i < |rows| =>
      if KeepsIdName(rows[i].0, rows[i].1) then Some((rows[i].0.text, (rows[i].1, i + 1))) else None)
  }

  /** The dictionary `{id: (name, row + 1) for row, (id, name) in enumerate(zip(...)) if ...}`. */
  function NumberedDict(ids: seq<Cell>, names: seq<Cell>): map<string, (Cell, int)> {
    DictOf(NumberedEntries(ids, names))
  }

  /** `get_id_name_pairs_with_row_number`. */
  ghost function IdNamePairsWithRowNumber(ids: seq<Cell>, names: seq<Cell>): seq<(string, (Cell, int))> {
    SortedItems(NumberedDict(ids, names))
  }

  lemma IdNameEntryIsRow(ids: seq<Cell>, names: seq<Cell>, i: int, k: string)
    ensures EntryFor(IdNameEntries(ids, names), i, k) <==> IdNameRowFor(ids, names, i, k)
    ensures EntryFor(NumberedEntries(ids, names), i, k) <==> IdNameRowFor(ids, names, i, k)
  {
  }

  lemma LastIdNameEntryIsRow(ids: seq<Cell>, names: seq<Cell>, i: int, k: string)
    ensures LastEntryFor(IdNameEntries(ids, names), i, k) <==> LastIdNameRowFor(ids, names, i, k)
    ensures LastEntryFor(NumberedEntries(ids, names), i, k) <==> LastIdNameRowFor(ids, names, i, k)
  {
    forall j ensures EntryFor(IdNameEntries(ids, names), j, k) <==> IdNameRowFor(ids, names, j, k) {
      IdNameEntryIsRow(ids, names, j, k);
    }
    forall j ensures EntryFor(NumberedEntries(ids, names), j, k) <==> IdNameRowFor(ids, names, j, k) {
      IdNameEntryIsRow(ids, names, j, k);
    }
  }

  /** An id is a key of the dictionary exactly when some row passes the filter with that
      id, and it maps to the name on the last such row. */
  lemma IdNameDictSpec(ids: seq<Cell>, names: seq<Cell>, k: string)
    ensures k in IdNameDict(ids, names) <==> exists i :: IdNameRowFor(ids, names, i, k)
    ensures k in IdNameDict(ids, names) ==>
      IsDigits(k) && exists i :: LastIdNameRowFor(ids, names, i, k) && IdNameDict(ids, names)[k] == names[i]
  {
    var e := IdNameEntries(ids, names);
    assert k in DictOf(e) <==> exists i :: IdNameRowFor(ids, names, i, k) by {
      DictOfKeys(e, k);
      forall i ensures EntryFor(e, i, k) <==> IdNameRowFor(ids, names, i, k) {
        IdNameEntryIsRow(ids, names, i, k);
      }
    }
    if k in DictOf(e) {
      DictOfHasLast(e, k);
      var i :| LastEntryFor(e, i, k) && DictOf(e)[k] == e[i].value.1;
      LastIdNameEntryIsRow(ids, names, i, k);
      assert LastIdNameRowFor(ids, names, i, k) && IdNameDict(ids, names)[k] == names[i];
    }
  }

  /** Same for the numbered dictionary: the value is the name and the 1-based number of
      the last row with that id. */
  lemma NumberedDictSpec(ids: seq<Cell>, names: seq<Cell>, k: string)
    ensures k in NumberedDict(ids, names) <==> exists i :: IdNameRowFor(ids, names, i, k)
    ensures k in NumberedDict(ids, names) ==>
      IsDigits(k) && exists i :: LastIdNameRowFor(ids, names, i, k) && NumberedDict(ids, names)[k] == (names[i], i + 1)
  {
    var e := NumberedEntries(ids, names);
    assert k in DictOf(e) <==> exists i :: IdNameRowFor(ids, names, i, k) by {
      DictOfKeys(e, k);
      forall i ensures EntryFor(e, i, k) <==> IdNameRowFor(ids, names, i, k) {
        IdNameEntryIsRow(ids, names, i, k);
      }
    }
    if k in DictOf(e) {
      DictOfHasLast(e, k);
      var i :| LastEntryFor(e, i, k) && DictOf(e)[k] == e[i].value.1;
      LastIdNameEntryIsRow(ids, names, i, k);
      assert LastIdNameRowFor(ids, names, i, k) && NumberedDict(ids, names)[k] == (names[i], i + 1);
    }
  }

  /** `get_id_name_pairs` lists exactly the ids of the rows that pass the filter, each
      with the name on its last row: a repeated id keeps the later row's name. */
  lemma IdNamePairsSpec(ids: seq<Cell>, names: seq<Cell>)
    ensures forall k :: k in KeysOf(IdNamePairs(ids, names)) <==> exists i :: IdNameRowFor(ids, names, i, k)
    ensures forall j :: 0 <= j < |IdNamePairs(ids, names)| ==>
      exists i :: LastIdNameRowFor(ids, names, i, IdNamePairs(ids, names)[j].0) && IdNamePairs(ids, names)[j].1 == names[i]
  {
    var d := IdNameDict(ids, names);
    var p := IdNamePairs(ids, names);
    forall k ensures k in KeysOf(p) <==> exists i :: IdNameRowFor(ids, names, i, k) {
      IdNameDictSpec(ids, names, k);
    }
    forall j | 0 <= j < |p|
      ensures exists i :: LastIdNameRowFor(ids, names, i, p[j].0) && p[j].1 == names[i]
    {
      IdNameDictSpec(ids, names, p[j].0);
    }
  }

  /** The ids of `get_id_name_pairs` are distinct digit strings, ascending by value. */
  lemma IdNamePairsSorted(ids: seq<Cell>, names: seq<Cell>)
    ensures forall j :: 0 <= j < |IdNamePairs(ids, names)| ==> IsDigits(IdNamePairs(ids, names)[j].0)
    ensures forall j, l :: 0 <= j < l < |IdNamePairs(ids, names)| ==>
      var (a, b) := (IdNamePairs(ids, names)[j].0, IdNamePairs(ids, names)[l].0);
      a != b && IsDigits(a) && IsDigits(b) && DigitsValue(a) <= DigitsValue(b)
  {
    var d := IdNameDict(ids, names);
    forall k | k in d ensures IsDigits(k) {
      IdNameDictSpec(ids, names, k);
    }
    SortedDigitItems(IdNamePairs(ids, names), d);
  }

  /** The two dictionaries over columns 0 and 1 have the same keys and the same names. */
  lemma NumberedDictMatches(ids: seq<Cell>, names: seq<Cell>)
    ensures NumberedDict(ids, names).Keys == IdNameDict(ids, names).Keys
    ensures forall k :: k in IdNameDict(ids, names) ==> NumberedDict(ids, names)[k].0 == IdNameDict(ids, names)[k]
  {
    DictOfExtended(IdNameEntries(ids, names), NumberedEntries(ids, names));
  }

  /** The two readers of columns 0 and 1 agree: the same ids in the same order, with the
      same names. */
  lemma RowNumberPairsMatchIdNamePairs(ids: seq<Cell>, names: seq<Cell>)
    ensures KeysOf(IdNamePairsWithRowNumber(ids, names)) == KeysOf(IdNamePairs(ids, names))
    ensures forall j :: 0 <= j < |IdNamePairs(ids, names)| ==>
      IdNamePairsWithRowNumber(ids, names)[j].1.0 == IdNamePairs(ids, names)[j].1
  {
    var d := IdNameDict(ids, names);
    var nd := NumberedDict(ids, names);
    NumberedDictMatches(ids, names);
    var p := IdNamePairs(ids, names);
    var q := IdNamePairsWithRowNumber(ids, names);
    assert KeysOf(q) == KeysOf(p);
    forall j | 0 <= j < |p| ensures q[j].1.0 == p[j].1 {
      assert p[j].0 == KeysOf(p)[j] == KeysOf(q)[j] == q[j].0;
    }
  }

  // ----- get_attended_days_count_pairs

  /** The coercion of line 38: a text cell counts 0, a number is `int(x)`. */
  function CountOf(c: Cell): int {
    match c
    case Text(_) => 0
    case Number(x) => Trunc(x)
  }

  function AttendanceEntry(row: (Cell, Cell, Cell), idOfName: map<Cell, string>): Option<(string, (int, int))> {
    if row.0.Text? && row.0 in idOfName then Some((idOfName[row.0], (CountOf(row.1), CountOf(row.2))))
    else None
  }

  function AttendanceEntries(names: seq<Cell>, attendance: seq<Cell>, attended: seq<Cell>, idOfName: map<Cell, string>)
    : seq<Option<(string, (int, int))>>
  {
    var rows := Zip3(names, attendance, attended);
    seq(|rows|, i requires 0 <= i < |rows| => AttendanceEntry(rows[i], idOfName))
  }

  /** The dictionary the loop of lines 39-44 builds from columns 2, 3 and 9 of the
      attendance sheet, given the inverted name-to-id map of sheet 0. */
  function AttendanceDict(names: seq<Cell>, attendance: seq<Cell>, attended: seq<Cell>, idOfName: map<Cell, string>)
    : map<string, (int, int)>
  {
    DictOf(AttendanceEntries(names, attendance, attended, idOfName))
  }

  /** Row `i` of the attendance sheet has a text name found in the inverted map, which
      joins it to id `k`. */
  predicate AttendanceRowFor(names: seq<Cell>, attendance: seq<Cell>, attended: seq<Cell>,
                             idOfName: map<Cell, string>, i: int, k: string)
  {
    0 <= i < |names| && i < |attendance| && i < |attended| &&
    names[i].Text? && names[i] in idOfName && idOfName[names[i]] == k
  }

  ghost predicate LastAttendanceRowFor(names: seq<Cell>, attendance: seq<Cell>, attended: seq<Cell>,
                                       idOfName: map<Cell, string>, i: int, k: string)
  {
    AttendanceRowFor(names, attendance, attended, idOfName, i, k) &&
    forall j :: i < j ==> !AttendanceRowFor(names, attendance, attended, idOfName, j, k)
  }

  /** An id is in the attendance dictionary exactly when some row joins to it, and it
      holds the coerced counts of the last such row. */
  lemma AttendanceDictSpec(names: seq<Cell>, attendance: seq<Cell>, attended: seq<Cell>,
                           idOfName: map<Cell, string>, k: string)
    ensures k in AttendanceDict(names, attendance, attended, idOfName) <==>
      exists i :: AttendanceRowFor(names, attendance, attended, idOfName, i, k)
    ensures k in AttendanceDict(names, attendance, attended, idOfName) ==>
      exists i :: LastAttendanceRowFor(names, attendance, attended, idOfName, i, k) &&
        AttendanceDict(names, attendance, attended, idOfName)[k] == (CountOf(attendance[i]), CountOf(attended[i]))
  {
    var e := AttendanceEntries(names, attendance, attended, idOfName);
    assert forall i :: EntryFor(e, i, k) <==> AttendanceRowFor(names, attendance, attended, idOfName, i, k);
    DictOfKeys(e, k);
    if k in DictOf(e) {
      DictOfHasLast(e, k);
      var i :| LastEntryFor(e, i, k) && DictOf(e)[k] == e[i].value.1;
      assert LastAttendanceRowFor(names, attendance, attended, idOfName, i, k);
    }
  }

  /** With the inverted map of sheet 0, the join keeps only rows whose name is text and
      is the name of some id on sheet 0; every id it produces is an id of sheet 0 with
      that name, and no row with any other name contributes. */
  lemma AttendanceJoin(ids: seq<Cell>, idNames: seq<Cell>, names: seq<Cell>, attendance: seq<Cell>,
                       attended: seq<Cell>, idOfName: map<Cell, string>)
    requires Inverts(idOfName, IdNameDict(ids, idNames))
    ensures forall i, k :: AttendanceRowFor(names, attendance, attended, idOfName, i, k) ==>
      k in IdNameDict(ids, idNames) && IdNameDict(ids, idNames)[k] == names[i]
    ensures forall i :: 0 <= i < |names| && i < |attendance| && i < |attended| ==>
      ((exists k :: AttendanceRowFor(names, attendance, attended, idOfName, i, k)) <==>
       names[i].Text? && names[i] in IdNameDict(ids, idNames).Values)
    ensures forall k :: k in AttendanceDict(names, attendance, attended, idOfName) ==> k in IdNameDict(ids, idNames)
  {
    var d := IdNameDict(ids, idNames);
    forall i | 0 <= i < |names| && i < |attendance| && i < |attended| && names[i].Text? && names[i] in d.Values
      ensures AttendanceRowFor(names, attendance, attended, idOfName, i, idOfName[names[i]])
    {
    }
    forall k | k in AttendanceDict(names, attendance, attended, idOfName) ensures k in d {
      AttendanceDictSpec(names, attendance, attended, idOfName, k);
    }
  }

  /** `get_attended_days_count_pairs`: join the attendance sheet to the ids of sheet 0 by
      name, then sort by id. `idOfName` is the inverted map `invert_dict` built on line 33. */
  method AttendedDaysCountPairs(ids: seq<Cell>, idNames: seq<Cell>,
                                names: seq<Cell>, attendance: seq<Cell>, attended: seq<Cell>)
    returns (pairs: seq<(string, (int, int))>, idOfName: map<Cell, string>)
    ensures Inverts(idOfName, IdNameDict(ids, idNames))
    ensures IsSortedItems(pairs, AttendanceDict(names, attendance, attended, idOfName))
    ensures forall j :: 0 <= j < |pairs| ==> pairs[j].0 in IdNameDict(ids, idNames)
  {
    var inv := InvertDict(IdNameDict(ids, idNames));
    idOfName := inv;
    var rows := Zip3(names, attendance, attended);
    ghost var e := AttendanceEntries(names, attendance, attended, inv);
    var d: map<string, (int, int)> := map[];
    for i := 0 to |rows|
      invariant d == DictOf(e[..i])
    {
      var (name, attendanceCount, attendedCount) := rows[i];
      if name.Text? {
        if name in inv {
          d := d[inv[name] := (CountOf(attendanceCount), CountOf(attendedCount))];
        }
      }
      assert e[..i + 1][..i] == e[..i];
    }
    assert e[..|rows|] == e;
    AttendanceJoin(ids, idNames, names, attendance, attended, inv);
    forall k | k in d ensures IsDigits(k) {
      IdNameDictSpec(ids, idNames, k);
    }
    DigitKeysAreNumeric(d.Keys);
    pairs := SortDictKeysNumerically(d);
  }

  // ----- get_work_performance

  /** The filter of line 59: the id is text made of digits. */
  predicate KeepsPerformanceId(id: Cell) {
    id.Text? && IsDigits(id.text)
  }

  /** The key of line 60, `unicode(int(id))`. */
  function PerformanceKey(id: string): string
    requires IsDigits(id)
  {
    ShowNat(DigitsValue(id))
  }

  /** The value of line 60: an empty cell gives 0, anything else `int(cell)`, which
      raises (`None`) on text that is not an integer. */
  function PerformanceOf(c: Cell): Option<int> {
    if Truthy(c) then IntOfCell(c) else Some(0)
  }

  /** The dictionary the loop of lines 57-60 builds over (column 0, column 11) rows, or
      `None` when `int(performance)` raises on a row whose id is kept. */
  function PerformanceDictOf(rows: seq<(Cell, Cell)>): Option<map<string, int>>
  {
    if |rows| == 0 then Some(map[])
    else
      var (id, performance) := rows[|rows| - 1];
      match PerformanceDictOf(rows[..|rows| - 1])
      case None => None
      case Some(d) =>
        if KeepsPerformanceId(id) then
          match PerformanceOf(performance)
          case None => None
          case Some(v) => Some(d[PerformanceKey(id.text) := v])
        else Some(d)
  }

  /** The reader fails exactly when some kept row has a performance cell `int()` rejects. */
  lemma {:induction false} PerformanceFailure(rows: seq<(Cell, Cell)>)
    ensures PerformanceDictOf(rows).None? <==>
      exists i :: 0 <= i < |rows| && KeepsPerformanceId(rows[i].0) && PerformanceOf(rows[i].1).None?
  {
    if |rows| > 0 {
      var p := rows[..|rows| - 1];
      PerformanceFailure(p);
      assert forall i :: 0 <= i < |p| ==> p[i] == rows[i];
    }
  }

  function PerformanceEntries(rows: seq<(Cell, Cell)>): seq<Option<(string, int)>> {
    seq(|rows|, i requires 0 <= i < |rows| =>
      if KeepsPerformanceId(rows[i].0) && PerformanceOf(rows[i].1).Some? then
        Some((PerformanceKey(rows[i].0.text), PerformanceOf(rows[i].1).value))
      else None)
  }

  /** When the reader does not fail, its dictionary is the one the kept rows assign in
      order, so the later row wins. */
  lemma {:induction false} PerformanceSuccess(rows: seq<(Cell, Cell)>)
    requires PerformanceDictOf(rows).Some?
    ensures PerformanceDictOf(rows).value == DictOf(PerformanceEntries(rows))
  {
    if |rows| > 0 {
      var p := rows[..|rows| - 1];
      PerformanceSuccess(p);
      assert PerformanceEntries(rows)[..|rows| - 1] == PerformanceEntries(p);
    }
  }

  /** Row `i` is kept and its id normalises to key `k`. */
  predicate PerformanceRowFor(rows: seq<(Cell, Cell)>, i: int, k: string) {
    0 <= i < |rows| && KeepsPerformanceId(rows[i].0) && PerformanceKey(rows[i].0.text) == k
  }

  ghost predicate LastPerformanceRowFor(rows: seq<(Cell, Cell)>, i: int, k: string) {
    PerformanceRowFor(rows, i, k) && forall j :: i < j ==> !PerformanceRowFor(rows, j, k)
  }

  /** A successful read maps exactly the normalised ids of the kept rows, each to the
      value of the last row whose id normalises to it ("007" and "7" share key "7"). */
  lemma PerformanceDictSpec(rows: seq<(Cell, Cell)>, k: string)
    requires PerformanceDictOf(rows).Some?
    ensures k in PerformanceDictOf(rows).value <==> exists i :: PerformanceRowFor(rows, i, k)
    ensures k in PerformanceDictOf(rows).value ==>
      exists i :: LastPerformanceRowFor(rows, i, k) && Some(PerformanceDictOf(rows).value[k]) == PerformanceOf(rows[i].1)
  {
    var e := PerformanceEntries(rows);
    PerformanceSuccess(rows);
    PerformanceFailure(rows);
    assert forall i :: EntryFor(e, i, k) <==> PerformanceRowFor(rows, i, k);
    DictOfKeys(e, k);
    if k in DictOf(e) {
      DictOfHasLast(e, k);
      var i :| LastEntryFor(e, i, k) && DictOf(e)[k] == e[i].value.1;
      assert LastPerformanceRowFor(rows, i, k);
    }
  }

  /** The normalised key is the id with its leading zeros stripped; two ids share a key
      exactly when they denote the same integer. */
  lemma PerformanceKeyNormalises(a: string, b: string)
    requires IsDigits(a) && IsDigits(b)
    ensures PerformanceKey(a) == StripLeadingZeros(a)
    ensures PerformanceKey(a) == PerformanceKey(b) <==> DigitsValue(a) == DigitsValue(b)
  {
    ShowNatOfDigits(a);
    ShowNatRoundTrip(DigitsValue(a));
    ShowNatRoundTrip(DigitsValue(b));
  }

  lemma {:induction false} PerformanceFailureSticks(rows: seq<(Cell, Cell)>, m: nat)
    requires m <= |rows| && PerformanceDictOf(rows[..m]).None?
    ensures PerformanceDictOf(rows).None?
  {
    if m < |rows| {
      var p := rows[..|rows| - 1];
      assert p[..m] == rows[..m];
      PerformanceFailureSticks(p, m);
    } else {
      assert rows[..m] == rows;
    }
  }

  /** A performance cell with white space after its sign is read, not rejected: the row
      (`"7"`, `"- 5"`) stores -5 under `"7"`. */
  lemma SignedPerformanceCell()
    ensures PerformanceDictOf([(Text("7"), Text("- 5"))]) == Some(map["7" := -5])
  {
    var rows := [(Text("7"), Text("- 5"))];
    SignedWithSpaces();
    assert rows[..0] == [];
    assert Truthy(Text("- 5"));
    CanonicalRoundTrip("7");
  }

  /** `get_work_performance`: `None` where the loop raises, otherwise the dictionary's
      items sorted by id. */
  method WorkPerformance(ids: seq<Cell>, performances: seq<Cell>) returns (r: Option<seq<(string, int)>>)
    ensures r.None? <==> PerformanceDictOf(Zip(ids, performances)).None?
    ensures r.Some? ==> IsSortedItems(r.value, PerformanceDictOf(Zip(ids, performances)).value)
  {
    var rows := Zip(ids, performances);
    var d: map<string, int> := map[];
    for i := 0 to |rows|
      invariant PerformanceDictOf(rows[..i]) == Some(d)
    {
      var (id, performance) := rows[i];
      assert rows[..i + 1][..i] == rows[..i];
      if id.Text? && IsDigits(id.text) {
        var value := PerformanceOf(performance);
        if value.None? {
          PerformanceFailureSticks(rows, i + 1);
          return None;
        }
        d := d[PerformanceKey(id.text) := value.value];
      }
    }
    assert rows[..|rows|] == rows;
    forall k | k in d ensures IsDigits(k) {
      PerformanceDictSpec(rows, k);
      var i :| PerformanceRowFor(rows, i, k);
      ShowNatRoundTrip(DigitsValue(rows[i].0.text));
    }
    DigitKeysAreNumeric(d.Keys);
    var pairs := SortDictKeysNumerically(d);
    r := Some(pairs);
  }
}
