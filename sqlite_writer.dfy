// The day-table store: one table per day, each mapping a worker id to a record of
// 25 nullable integer fields.

module SqliteWriter {
  import opened Options
  import opened Numbers
  import opened Misc

  // ----- Schema

  /** `_db_keys`: the data columns of every day table, in declaration order. */
  function DbKeys(): (keys: seq<string>)
    ensures |keys| == 25
    ensures forall k :: 0 <= k < 9 ==>
      keys[2 * k] == "labor_hour_" + ShowNat(k + 1) && keys[2 * k + 1] == "real_amount_" + ShowNat(k + 1)
    ensures keys[18..21] == ["waste_1", "waste_2", "waste_3"] && keys[21..23] == ["assist_1", "assist_2"]
    ensures keys[23] == "worker_id_aux" && keys[24] == "labor_hour_aux_to"
  {
    [
    "labor_hour_1", "real_amount_1",
    "labor_hour_2", "real_amount_2",
    "labor_hour_3", "real_amount_3",
    "labor_hour_4", "real_amount_4",
    "labor_hour_5", "real_amount_5",
    "labor_hour_6", "real_amount_6",
    "labor_hour_7", "real_amount_7",
    "labor_hour_8", "real_amount_8",
    "labor_hour_9", "real_amount_9",
    "waste_1", "waste_2", "waste_3",
    "assist_1", "assist_2",
    "worker_id_aux", "labor_hour_aux_to"
    ]
  }

  /** The integer primary key every table has before the data columns. */
  const WorkerIdColumn: string := "worker_id"

  const WorkerIdAux: int := 23
  const LaborHourAuxTo: int := 24

  /** A row without its key: one nullable integer per name of `DbKeys`. */
  type Record = r: seq<Option<int>> | |r| == 25 witness seq(25, c => None)

  /** The row a seeding insert creates: only the key is given, every field is null. */
  function EmptyRecord(): Record {
    seq(25, c => None)
  }

  /** A day table, keyed by `worker_id`. */
  type Table = map<int, Record>

  /** The columns `create_table` declares for a new table: the key, then `_db_keys`. */
  function Schema(): seq<string> {
    [WorkerIdColumn] + DbKeys()
  }

  /** The schema is the key followed by exactly the 25 names of `_db_keys`; the key's
      name is not among them, `labor_hour_aux_to` names the last column and no other,
      and `worker_id_aux` names the one before it. */
  lemma SchemaShape()
    ensures |Schema()| == 26 && Schema()[0] == WorkerIdColumn && Schema()[1..] == DbKeys()
    ensures forall c :: 0 <= c < 25 ==> DbKeys()[c] != WorkerIdColumn
    ensures forall c :: 0 <= c < 25 ==> (DbKeys()[c] == "labor_hour_aux_to" <==> c == LaborHourAuxTo)
    ensures DbKeys()[WorkerIdAux] == "worker_id_aux"
  {
  }

  /** A nullable integer is truthy when it is set and not zero. */
  predicate Truthy(v: Option<int>) {
    v.Some? && v.value != 0
  }

  /** `x if x else 0` for a nullable integer. */
  function NullAsZero(v: Option<int>): int {
    if v.Some? then v.value else 0
  }

  // ----- init_table and create_table

  /** Every key of `worker_dict` is accepted by `int()`. */
  predicate AllInts(workerDict: seq<string>) {
    forall i :: 0 <= i < |workerDict| ==> IntOfString(workerDict[i]).Some?
  }

  /** The ids `int(worker_id)` for the keys of `worker_dict`, in order. */
  function IdsOf(workerDict: seq<string>): seq<int>
    requires AllInts(workerDict)
  {
    seq(|workerDict|, i requires 0 <= i < |workerDict| => IntOfString(workerDict[i]).value)
  }

  /** The table after inserting `{'worker_id': id}` for each id in turn, where an insert
      of an id already present fails and is skipped. */
  function Seeded(t: Table, ids: seq<int>): Table
  {
    if |ids| == 0 then t
    else
      var s := Seeded(t, ids[..|ids| - 1]);
      var id := ids[|ids| - 1];
      if id in s then s else s[id := EmptyRecord()]
  }

  /** Seeding adds a key-only row for every id not yet present and leaves every row
      already present as it was. */
  lemma {:induction false} SeededSpec(t: Table, ids: seq<int>, k: int)
    ensures k in Seeded(t, ids) <==> k in t || k in ids
    ensures k in t ==> Seeded(t, ids)[k] == t[k]
    ensures k !in t && k in ids ==> Seeded(t, ids)[k] == EmptyRecord()
  {
    if |ids| > 0 {
      var p := ids[..|ids| - 1];
      SeededSpec(t, p, k);
      assert ids == p + [ids[|ids| - 1]];
    }
  }

  /** Seeding twice gives the same table as seeding once. */
  lemma SeededTwice(t: Table, ids: seq<int>)
    ensures Seeded(Seeded(t, ids), ids) == Seeded(t, ids)
  {
    var s := Seeded(t, ids);
    forall k | true ensures (k in Seeded(s, ids) <==> k in s) && (k in s ==> Seeded(s, ids)[k] == s[k]) {
      SeededSpec(t, ids, k);
      SeededSpec(s, ids, k);
    }
  }

  /** `create_table(name)` followed by `init_table`: the named table, created empty when
      it is unknown, seeded with the worker ids; every other table is untouched. */
  function EnsureTable(tables: map<string, Table>, name: string, ids: seq<int>): map<string, Table>
  {
    tables[name := Seeded(if name in tables then tables[name] else map[], ids)]
  }

  /** A known table keeps its rows and only gains the missing worker rows; a new table
      holds exactly one key-only row per worker id; no other table changes; and doing
      it twice is the same as doing it once. */
  lemma EnsureTableSpec(tables: map<string, Table>, name: string, ids: seq<int>)
    ensures EnsureTable(tables, name, ids).Keys == tables.Keys + {name}
    ensures forall n :: n in tables && n != name ==> EnsureTable(tables, name, ids)[n] == tables[n]
    ensures name in tables ==> forall k :: k in tables[name] ==>
      k in EnsureTable(tables, name, ids)[name] && EnsureTable(tables, name, ids)[name][k] == tables[name][k]
    ensures name !in tables ==> forall k ::
      (k in EnsureTable(tables, name, ids)[name] <==> k in ids) &&
      (k in ids ==> EnsureTable(tables, name, ids)[name][k] == EmptyRecord())
    ensures EnsureTable(EnsureTable(tables, name, ids), name, ids) == EnsureTable(tables, name, ids)
  {
    var t: Table := if name in tables then tables[name] else map[];
    forall k ensures (k in Seeded(t, ids) <==> k in t || k in ids) && (k in t ==> Seeded(t, ids)[k] == t[k])
                 && (k !in t && k in ids ==> Seeded(t, ids)[k] == EmptyRecord()) {
      SeededSpec(t, ids, k);
    }
    SeededTwice(t, ids);
  }

  /** The table name `create_table` uses: the given one, or `self.default_name` when the
      given one is falsy (the empty string here). */
  function Resolved(name: string, defaultName: Option<string>): string
    requires name != "" || defaultName.Some?
  {
    if name != "" then name else defaultName.value
  }

  // ----- write_back and write_back_single

  /** `values(**dumped)`: the record with every column named in `dumped` replaced. */
  function Assigned(r: Record, dumped: map<string, Option<int>>): Record {
    seq(25, c requires 0 <= c < 25 => if DbKeys()[c] in dumped then dumped[DbKeys()[c]] else r[c])
  }

  /** The `update ... where worker_id == id` statement on one table; a null id or an
      id without a row matches nothing. */
  function Written(t: Table, id: Option<int>, dumped: map<string, Option<int>>): Table {
    if id.Some? && id.value in t then t[id.value := Assigned(t[id.value], dumped)] else t
  }

  /** The store after `write_back(dumped, name)`. */
  function WriteBackState(tables: map<string, Table>, ids: seq<int>, name: string, dumped: map<string, Option<int>>)
    : map<string, Table>
    requires WorkerIdColumn in dumped
  {
    var u := EnsureTable(tables, name, ids);
    u[name := Written(u[name], dumped[WorkerIdColumn], dumped)]
  }

  /** The store after `write_back_single(id, value, name)`. */
  function WriteBackSingleState(tables: map<string, Table>, ids: seq<int>, name: string,
                                id: Option<int>, value: Option<int>): map<string, Table>
  {
    var u := EnsureTable(tables, name, ids);
    var t := u[name];
    u[name := if id.Some? && id.value in t then t[id.value := t[id.value][LaborHourAuxTo := value]] else t]
  }

  /** `write_back` changes only the row whose key is `dumped['worker_id']`, and in it only
      the columns `dumped` names; other rows, other tables, and the set of keys are as
      seeding left them, and nothing changes when no row matches. */
  lemma WriteBackFrame(tables: map<string, Table>, ids: seq<int>, name: string, dumped: map<string, Option<int>>)
    requires WorkerIdColumn in dumped
    ensures var u := EnsureTable(tables, name, ids); var w := WriteBackState(tables, ids, name, dumped);
      && w.Keys == u.Keys
      && (forall n :: n in u && n != name ==> w[n] == u[n])
      && w[name].Keys == u[name].Keys
      && (forall k :: k in u[name] && Some(k) != dumped[WorkerIdColumn] ==> w[name][k] == u[name][k])
      && (forall k, c :: k in u[name] && Some(k) == dumped[WorkerIdColumn] && 0 <= c < 25 ==>
            w[name][k][c] == (if DbKeys()[c] in dumped then dumped[DbKeys()[c]] else u[name][k][c]))
  {
  }

  /** `write_back_single` is `write_back` with a dictionary holding only the key and
      `labor_hour_aux_to`. */
  lemma {:induction false} SingleIsWriteBack(tables: map<string, Table>, ids: seq<int>, name: string,
                                             id: Option<int>, value: Option<int>)
    ensures WriteBackSingleState(tables, ids, name, id, value) ==
      WriteBackState(tables, ids, name, map[WorkerIdColumn := id, "labor_hour_aux_to" := value])
  {
    SchemaShape();
    var dumped := map[WorkerIdColumn := id, "labor_hour_aux_to" := value];
    var t := EnsureTable(tables, name, ids)[name];
    if id.Some? && id.value in t {
      var r := t[id.value];
      forall c | 0 <= c < 25 ensures Assigned(r, dumped)[c] == r[LaborHourAuxTo := value][c] {
        assert Schema()[c + 1] == DbKeys()[c];
        assert Schema()[0] == WorkerIdColumn;
        assert Schema()[LaborHourAuxTo + 1] == "labor_hour_aux_to";
      }
      assert Assigned(r, dumped) == r[LaborHourAuxTo := value];
    }
  }

  // ----- retrieve

  /** The first (only) row whose key is `id`, or none. */
  function Lookup(t: Table, id: Option<int>): Option<Record> {
    if id.Some? && id.value in t then Some(t[id.value]) else None
  }

  /** After `write_back`, `retrieve` of the same id and day finds the row, holding the
      written value in every column `dumped` names and its earlier value elsewhere. */
  lemma RetrieveAfterWriteBack(tables: map<string, Table>, ids: seq<int>, name: string,
                               dumped: map<string, Option<int>>, w: int)
    requires WorkerIdColumn in dumped && dumped[WorkerIdColumn] == Some(w)
    requires w in ids || (name in tables && w in tables[name])
    ensures var before := EnsureTable(tables, name, ids)[name];
            var after := EnsureTable(WriteBackState(tables, ids, name, dumped), name, ids)[name];
      && w in before
      && Lookup(after, Some(w)).Some?
      && forall c :: 0 <= c < 25 ==>
           Lookup(after, Some(w)).value[c] == (if DbKeys()[c] in dumped then dumped[DbKeys()[c]] else before[w][c])
  {
    var t: Table := if name in tables then tables[name] else map[];
    SeededSpec(t, ids, w);
    var u := WriteBackState(tables, ids, name, dumped);
    SeededSpec(u[name], ids, w);
  }

  // ----- is_empty_row

  /** `not any(row[key] for key in _db_keys[:-1])`: every field but `labor_hour_aux_to`
      is null or zero. */
  predicate RecordIsEmpty(r: Record) {
    forall c :: 0 <= c < LaborHourAuxTo ==> !Truthy(r[c])
  }

  /** A missing row is empty. */
  predicate RowIsEmpty(row: Option<Record>) {
    row.None? || RecordIsEmpty(row.value)
  }

  /** The test skips `labor_hour_aux_to` and nothing else: setting it never makes a row
      non-empty, while setting `worker_id_aux` does; a key-only row is empty. */
  lemma EmptinessSkipsAuxTo(r: Record, v: Option<int>, c: int)
    requires 0 <= c < LaborHourAuxTo
    ensures RecordIsEmpty(r[LaborHourAuxTo := v]) <==> RecordIsEmpty(r)
    ensures RowIsEmpty(Some(EmptyRecord()[LaborHourAuxTo := Some(10)]))
    ensures !RowIsEmpty(Some(EmptyRecord()[c := Some(1)]))
  {
    forall c' | 0 <= c' < LaborHourAuxTo ensures r[LaborHourAuxTo := v][c'] == r[c'] {
    }
    assert EmptyRecord()[c := Some(1)][c] == Some(1);
  }

  // ----- get_month_days_in_db

  /** `l[27:] + l[:27]` when there are more than 27 names. */
  function Rotated<T>(l: seq<T>): seq<T> {
    if |l| > 27 then l[27..] + l[..27] else l
  }

  /** The inverse rotation: the last 27 elements move back to the front. */
  function Unrotated<T>(l: seq<T>): seq<T> {
    if |l| > 27 then l[|l| - 27..] + l[..|l| - 27] else l
  }

  /** The rotation is a permutation, and `Unrotated` undoes it. */
  lemma RotatedIsPermutation<T>(l: seq<T>)
    ensures |Rotated(l)| == |l| && multiset(Rotated(l)) == multiset(l)
    ensures Unrotated(Rotated(l)) == l
  {
    if |l| > 27 {
      assert l == l[..27] + l[27..];
      var r := Rotated(l);
      assert r[|r| - 27..] == l[..27];
      assert r[..|r| - 27] == l[27..];
    }
  }

  /** Up to 27 elements nothing moves; past that, the element sorted at 27 comes first,
      the ones after it follow, and the first 27 close the list. */
  lemma RotatedIndex<T>(l: seq<T>, i: int)
    requires 0 <= i < |l|
    ensures Rotated(l)[i] == if |l| <= 27 then l[i] else if i < |l| - 27 then l[i + 27] else l[i + 27 - |l|]
  {
  }

  /** `get_month_days_in_db()`: the table names sorted by `int(name)`, then rotated. */
  ghost predicate IsMonthDays(days: seq<string>, names: set<string>) {
    exists ks :: IsNumericOrder(ks, names) && days == Rotated(ks)
  }

  /** The month days list every table name, and only table names. */
  lemma MonthDaysAreNames(days: seq<string>, names: set<string>)
    requires IsMonthDays(days, names)
    ensures forall i :: 0 <= i < |days| ==> days[i] in names
    ensures forall n :: n in names ==> n in days
  {
  }

  /** The day names "1" to "n". */
  function DayNames(n: nat): set<string> {
    set d: nat | 1 <= d <= n :: ShowNat(d)
  }

  lemma NumericKeyOfShowNat(d: nat)
    ensures IsDigits(ShowNat(d)) && NumericKey(ShowNat(d)) == d
  {
    ShowNatRoundTrip(d);
    IntOfDigits(ShowNat(d));
  }

  /** "1" to "n" in ascending order is a numeric order of the day names, and no two day
      names stand for the same integer. */
  lemma DayNamesInOrder(n: nat)
    ensures IsNumericOrder(seq(n, i requires 0 <= i < n => ShowNat(i + 1)), DayNames(n))
    ensures forall k, l :: k in DayNames(n) && l in DayNames(n) && NumericKey(k) == NumericKey(l) ==> k == l
  {
    var names := DayNames(n);
    var c := seq(n, i requires 0 <= i < n => ShowNat(i + 1));
    forall i | 0 <= i < n ensures NumericKey(c[i]) == i + 1 && c[i] in names {
      NumericKeyOfShowNat(i + 1);
    }
    forall x | x in names ensures x in c {
      var d: nat :| 1 <= d <= n && x == ShowNat(d);
      assert c[d - 1] == x;
    }
    forall k, l | k in names && l in names && NumericKey(k) == NumericKey(l) ensures k == l {
      var dk: nat :| 1 <= dk <= n && k == ShowNat(dk);
      var dl: nat :| 1 <= dl <= n && l == ShowNat(dl);
      NumericKeyOfShowNat(dk);
      NumericKeyOfShowNat(dl);
    }
  }

  /** A month of `n` > 27 days stored as tables "1" to "n" is listed as 28, 29, ..., n,
      1, 2, ..., 27. */
  lemma FullMonthDays(n: nat, days: seq<string>)
    requires n > 27 && IsMonthDays(days, DayNames(n))
    ensures |days| == n && days[0] == ShowNat(28) && days[n - 1] == ShowNat(27)
    ensures forall i :: 0 <= i < n ==> days[i] == ShowNat(if i < n - 27 then i + 28 else i + 28 - n)
  {
    var ks :| IsNumericOrder(ks, DayNames(n)) && days == Rotated(ks);
    var c := seq(n, i requires 0 <= i < n => ShowNat(i + 1));
    DayNamesInOrder(n);
    NumericOrderUnique(ks, c, DayNames(n));
    forall i | 0 <= i < n ensures days[i] == ShowNat(if i < n - 27 then i + 28 else i + 28 - n) {
      RotatedIndex(c, i);
    }
  }

  // ----- get_data_per_day

  /** The four values `get_data_per_day` returns; the labour-hour sum is kept exact. */
  datatype DayResult = DayResult(laborHours: real, auxTo: int, waste: int, assist: int)

  const ZeroResult := DayResult(0.0, 0, 0, 0)

  /** What one (labour hour, real amount) pair adds: `real_amount / labor_hour` when
      both are set and nonzero, otherwise nothing. */
  function PairRatio(p: (Option<int>, Option<int>)): real {
    if Truthy(p.0) && Truthy(p.1) then p.1.value as real / p.0.value as real else 0.0
  }

  function RatioSum(ps: seq<(Option<int>, Option<int>)>): real {
    if |ps| == 0 then 0.0 else RatioSum(ps[..|ps| - 1]) + PairRatio(ps[|ps| - 1])
  }

  function NullAsZeroSum(vs: seq<Option<int>>): int {
    if |vs| == 0 then 0 else NullAsZeroSum(vs[..|vs| - 1]) + NullAsZero(vs[|vs| - 1])
  }

  /** `take(_db_keys[:18], by=2)` applied to a record: the nine labour pairs. */
  function LaborPairs(r: Record): seq<(Option<int>, Option<int>)> {
    Take2(r[..18])
  }

  /** The sums of a non-empty row: eight times the labour ratios (not rounded), the
      aux-to value, the wastes and the assists, nulls counting as zero. */
  function DataOfRecord(r: Record): DayResult {
    DayResult(8.0 * RatioSum(LaborPairs(r)), NullAsZero(r[LaborHourAuxTo]),
              NullAsZeroSum(r[18..21]), NullAsZeroSum(r[21..23]))
  }

  /** The value of `get_data_per_day` for a row: zeros when it is missing or empty. */
  function DataOfRow(row: Option<Record>): DayResult {
    if RowIsEmpty(row) then ZeroResult else DataOfRecord(row.value)
  }

  /** Waste, assist and aux-to read the named fields with null as zero. */
  lemma DataOfRecordFields(r: Record)
    ensures DataOfRecord(r).waste == NullAsZero(r[18]) + NullAsZero(r[19]) + NullAsZero(r[20])
    ensures DataOfRecord(r).assist == NullAsZero(r[21]) + NullAsZero(r[22])
    ensures DataOfRecord(r).auxTo == (if r[LaborHourAuxTo].Some? then r[LaborHourAuxTo].value else 0)
  {
    assert r[18..19][..0] == [] && r[21..22][..0] == [];
    assert NullAsZeroSum(r[18..19]) == NullAsZero(r[18]);
    assert r[18..20][..1] == r[18..19];
    assert NullAsZeroSum(r[18..20]) == NullAsZero(r[18]) + NullAsZero(r[19]);
    assert r[18..21][..2] == r[18..20];
    assert NullAsZeroSum(r[21..22]) == NullAsZero(r[21]);
    assert r[21..23][..1] == r[21..22];
  }

  /** Clearing one pair's real amount removes exactly that pair's ratio from the sum. */
  lemma {:induction false} RatioSumWithout(ps: seq<(Option<int>, Option<int>)>, k: int)
    requires 0 <= k < |ps|
    ensures RatioSum(ps[k := (ps[k].0, None)]) == RatioSum(ps) - PairRatio(ps[k])
  {
    var q := ps[k := (ps[k].0, None)];
    var n := |ps|;
    if k < n - 1 {
      assert q[..n - 1] == ps[..n - 1][k := (ps[k].0, None)];
      RatioSumWithout(ps[..n - 1], k);
    } else {
      assert q[..n - 1] == ps[..n - 1];
    }
  }

  /** A labour pair contributes only its own ratio: clearing `real_amount_k` lowers the
      labour-hour sum by eight times that pair's ratio and by nothing else. */
  lemma LaborPairContribution(r: Record, k: int)
    requires 0 <= k < 9
    ensures DataOfRecord(r[2 * k + 1 := None]).laborHours ==
      DataOfRecord(r).laborHours - 8.0 * PairRatio((r[2 * k], r[2 * k + 1]))
  {
    var s := r[2 * k + 1 := None];
    var ps := LaborPairs(r);
    assert LaborPairs(s) == ps[k := (ps[k].0, None)];
    RatioSumWithout(ps, k);
  }

  /** Taking one pair out of the sum removes exactly that pair's ratio. */
  lemma {:induction false} RatioSumRemove(ps: seq<(Option<int>, Option<int>)>, j: int)
    requires 0 <= j < |ps|
    ensures RatioSum(ps) == RatioSum(ps[..j] + ps[j + 1..]) + PairRatio(ps[j])
  {
    var n := |ps|;
    if j < n - 1 {
      var init := ps[..n - 1];
      RatioSumRemove(init, j);
      var rest := ps[..j] + ps[j + 1..];
      assert rest[..|rest| - 1] == init[..j] + init[j + 1..];
      assert rest[|rest| - 1] == ps[n - 1];
    } else {
      assert ps[..j] + ps[j + 1..] == ps[..n - 1];
    }
  }

  /** The labour ratios are summed in an order that does not matter: any reordering of
      the pairs gives the same sum. */
  lemma {:induction false} RatioSumPermutation(ps: seq<(Option<int>, Option<int>)>, qs: seq<(Option<int>, Option<int>)>)
    requires multiset(ps) == multiset(qs)
    ensures RatioSum(ps) == RatioSum(qs)
  {
    if |ps| == 0 {
      assert |qs| == |multiset(qs)| == 0;
    } else {
      var n := |ps|;
      var last := ps[n - 1];
      MultisetDropLast(ps);
      var j :| 0 <= j < |qs| && qs[j] == last;
      var rest := qs[..j] + qs[j + 1..];
      MultisetDropAt(qs, j);
      RatioSumPermutation(ps[..n - 1], rest);
      RatioSumRemove(qs, j);
    }
  }

  /** Two records whose nine labour pairs are the same up to order have the same
      labour-hour sum, and the same sums altogether when their other columns agree. */
  lemma LaborPairsPermutation(r: Record, s: Record)
    requires multiset(LaborPairs(r)) == multiset(LaborPairs(s))
    ensures DataOfRecord(s).laborHours == DataOfRecord(r).laborHours
    ensures r[18..] == s[18..] ==> DataOfRecord(s) == DataOfRecord(r)
  {
    RatioSumPermutation(LaborPairs(r), LaborPairs(s));
    if r[18..] == s[18..] {
      assert r[18..21] == r[18..][..3] && s[18..21] == s[18..][..3];
      assert r[21..23] == r[18..][3..5] && s[21..23] == s[18..][3..5];
      assert r[LaborHourAuxTo] == r[18..][6] && s[LaborHourAuxTo] == s[18..][6];
    }
  }

  /** A missing row and a key-only row give the same zeros, and so does a row whose
      only set field is `labor_hour_aux_to`: its aux-to value is not reported. */
  lemma BlankRowsGiveZeros(v: Option<int>)
    ensures DataOfRow(None) == ZeroResult
    ensures DataOfRow(Some(EmptyRecord())) == ZeroResult
    ensures DataOfRow(Some(EmptyRecord()[LaborHourAuxTo := v])) == ZeroResult
  {
  }

  /** Pairs that contribute nothing can be dropped from the end of the sum. */
  lemma {:induction false} RatioSumZeroTail(ps: seq<(Option<int>, Option<int>)>, m: nat)
    requires m <= |ps| && forall i :: m <= i < |ps| ==> PairRatio(ps[i]) == 0.0
    ensures RatioSum(ps) == RatioSum(ps[..m])
  {
    if m < |ps| {
      var p := ps[..|ps| - 1];
      assert p[..m] == ps[..m];
      RatioSumZeroTail(p, m);
    } else {
      assert ps[..m] == ps;
    }
  }

  /** The record the demonstration writes for worker 2 on day 5 (100 labour hours,
      600 real amount, waste 20, aux id 101, aux-to 10) sums to (48, 10, 20, 0). */
  lemma DemoRecordSums()
    ensures var r := EmptyRecord()[0 := Some(100)][1 := Some(600)][18 := Some(20)][WorkerIdAux := Some(101)]
                                  [LaborHourAuxTo := Some(10)];
      DataOfRow(Some(r)) == DayResult(48.0, 10, 20, 0)
  {
    var r := EmptyRecord()[0 := Some(100)][1 := Some(600)][18 := Some(20)][WorkerIdAux := Some(101)]
                          [LaborHourAuxTo := Some(10)];
    assert !RecordIsEmpty(r) by { assert Truthy(r[0]); }
    var ps := LaborPairs(r);
    forall i | 1 <= i < 9 ensures PairRatio(ps[i]) == 0.0 {
      assert ps[i] == (r[2 * i], r[2 * i + 1]);
      assert r[2 * i] == None;
    }
    RatioSumZeroTail(ps, 1);
    assert ps[..1][..0] == [] && ps[..1][0] == (Some(100), Some(600));
    DataOfRecordFields(r);
  }

  /** The loops of `get_data_per_day` over a non-empty row. */
  method SumRecord(r: Record) returns (res: DayResult)
    ensures res == DataOfRecord(r)
  {
    var pairs := Take2(r[..18]);
    var lhSum := 0.0;
    for i := 0 to |pairs|
      invariant lhSum == RatioSum(pairs[..i])
    {
      var (laborHour, realAmount) := pairs[i];
      if Truthy(laborHour) && Truthy(realAmount) {
        lhSum := lhSum + realAmount.value as real / laborHour.value as real;
      }
      assert pairs[..i + 1][..i] == pairs[..i];
    }
    assert pairs[..|pairs|] == pairs;
    var wasteSum := 0;
    for c := 18 to 21
      invariant wasteSum == NullAsZeroSum(r[18..c])
    {
      wasteSum := wasteSum + NullAsZero(r[c]);
      assert r[18..c + 1][..c - 18] == r[18..c];
    }
    var assistSum := 0;
    for c := 21 to 23
      invariant assistSum == NullAsZeroSum(r[21..c])
    {
      assistSum := assistSum + NullAsZero(r[c]);
      assert r[21..c + 1][..c - 21] == r[21..c];
    }
    res := DayResult(8.0 * lhSum, NullAsZero(r[LaborHourAuxTo]), wasteSum, assistSum);
  }

  /** `get_data_per_day` as written: a missing row is passed on as `row=None`, so
      `is_empty_row` retrieves with no day, which reads `self.default_name`; `None`
      here is the `AttributeError` raised when no default day was set. */
  function DataPerDayAsWritten(tables: map<string, Table>, ids: seq<int>, defaultName: Option<string>,
                               workerId: int, day: string): Option<(map<string, Table>, DayResult)>
    requires day != "" || defaultName.Some?
  {
    var name := Resolved(day, defaultName);
    var u := EnsureTable(tables, name, ids);
    var row := Lookup(u[name], Some(workerId));
    if row.Some? then Some((u, DataOfRow(row)))
    else if defaultName.None? then None
    else Some((EnsureTable(u, defaultName.value, ids), ZeroResult))
  }

  /** `get_data_per_day` as intended: a missing row is empty and gives zeros. */
  function DataPerDay(tables: map<string, Table>, ids: seq<int>, name: string, workerId: int)
    : (map<string, Table>, DayResult)
  {
    var u := EnsureTable(tables, name, ids);
    (u, DataOfRow(Lookup(u[name], Some(workerId))))
  }

  /** The code as written fails exactly when the worker has no row that day and the
      operator has no default day; otherwise it returns the intended sums. */
  lemma DataPerDayAsWrittenFails(tables: map<string, Table>, ids: seq<int>, defaultName: Option<string>,
                                 workerId: int, day: string)
    requires day != "" || defaultName.Some?
    ensures var name := Resolved(day, defaultName);
      && (DataPerDayAsWritten(tables, ids, defaultName, workerId, day).None? <==>
          defaultName.None? && Lookup(DataPerDay(tables, ids, name, workerId).0[name], Some(workerId)).None?)
      && (DataPerDayAsWritten(tables, ids, defaultName, workerId, day).Some? ==>
          DataPerDayAsWritten(tables, ids, defaultName, workerId, day).value.1 == DataPerDay(tables, ids, name, workerId).1)
    ensures defaultName.Some? && defaultName.value in tables && Seeded(tables[defaultName.value], ids) == tables[defaultName.value] ==>
      DataPerDayAsWritten(tables, ids, defaultName, workerId, day) == Some(DataPerDay(tables, ids, Resolved(day, defaultName), workerId))
  {
    if defaultName.Some? && defaultName.value in tables && Seeded(tables[defaultName.value], ids) == tables[defaultName.value] {
      var name, dv := Resolved(day, defaultName), defaultName.value;
      var u := EnsureTable(tables, name, ids);
      if dv == name {
        SeededTwice(tables[dv], ids);
      }
      assert u[dv] == tables[dv];
      assert EnsureTable(u, dv, ids) == u;
    }
  }

  /** A read-only operator (no workers, no default day) over a store holding an empty
      table "1": asking for worker 7 on day "1" raises, where zeros are intended. */
  lemma ReadOnlyMissingRowRaises()
    ensures DataPerDayAsWritten(map["1" := map[]], [], None, 7, "1").None?
    ensures DataPerDay(map["1" := map[]], [], "1", 7).1 == ZeroResult
  {
    assert Seeded(map[], []) == map[];
  }

  // ----- The operator

  /** The store after `create_table` has been called for each name in turn. */
  function EnsureTables(tables: map<string, Table>, names: seq<string>, ids: seq<int>): map<string, Table>
  {
    if |names| == 0 then tables
    else EnsureTable(EnsureTables(tables, names[..|names| - 1], ids), names[|names| - 1], ids)
  }

  /** Creating the tables of known days in turn keeps the set of tables, seeds each named
      table exactly as seeding it once would, and leaves the others alone. */
  lemma {:induction false} EnsureTablesSpec(tables: map<string, Table>, names: seq<string>, ids: seq<int>)
    requires forall j :: 0 <= j < |names| ==> names[j] in tables
    ensures EnsureTables(tables, names, ids).Keys == tables.Keys
    ensures forall j :: 0 <= j < |names| ==> EnsureTables(tables, names, ids)[names[j]] == Seeded(tables[names[j]], ids)
    ensures forall n :: n in tables && n !in names ==> EnsureTables(tables, names, ids)[n] == tables[n]
  {
    if |names| > 0 {
      var p := names[..|names| - 1];
      var last := names[|names| - 1];
      EnsureTablesSpec(tables, p, ids);
      var u := EnsureTables(tables, p, ids);
      if last in p {
        SeededTwice(tables[last], ids);
      }
      forall j | 0 <= j < |names| ensures EnsureTables(tables, names, ids)[names[j]] == Seeded(tables[names[j]], ids) {
        if names[j] != last {
          assert names[j] == p[j];
        }
      }
    }
  }

  /** What `iterate_worker` yields for one day: the sums of the worker's row once that
      day's table has been seeded. */
  function WorkerDay(t: Table, ids: seq<int>, workerId: int): DayResult {
    DataOfRow(Lookup(Seeded(t, ids), Some(workerId)))
  }

  /** One more step of `iterate_worker`: `get_data_per_day` on the next day, after the
      days before it, creates the next day's table and reads it seeded exactly once. */
  lemma EnsureTablesNext(tables: map<string, Table>, names: seq<string>, ids: seq<int>, i: int, workerId: int)
    requires 0 <= i < |names| && forall j :: 0 <= j < |names| ==> names[j] in tables
    ensures DataPerDay(EnsureTables(tables, names[..i], ids), ids, names[i], workerId) ==
      (EnsureTables(tables, names[..i + 1], ids), WorkerDay(tables[names[i]], ids, workerId))
  {
    var q := names[..i + 1];
    assert q[..i] == names[..i] && q[i] == names[i];
    EnsureTablesSpec(tables, q, ids);
  }

  /** `SQLiteOperator`: the tables of the database, the keys of `worker_dict` used to seed
      every table it touches, and the default day, set only when one was given. */
  class SqliteOperator {
    var tables: map<string, Table>
    const workerDict: seq<string>
    const defaultName: Option<string>

    ghost predicate Valid()
      reads this
    {
      AllInts(workerDict) && (defaultName.Some? ==> defaultName.value != "")
    }

    /** `SQLiteOperator(worker_dict, day)` over a database already holding `existing`; a
        falsy `worker_dict` is the empty sequence, a missing day the empty string. */
    constructor (existing: map<string, Table>, workerDict: seq<string>, day: string)
      requires AllInts(workerDict)
      ensures Valid()
      ensures this.workerDict == workerDict
      ensures day != "" ==> defaultName == Some(day) && tables == EnsureTable(existing, day, IdsOf(workerDict))
      ensures day == "" ==> defaultName == None && tables == existing
    {
      this.workerDict := workerDict;
      defaultName := if day != "" then Some(day) else None;
      tables := existing;
      new;
      if day != "" {
        var _ := CreateTable(day);
      }
    }

    /** `init_table`: seed the named table with one row per worker id. */
    method InitTable(name: string)
      requires Valid() && name in tables
      modifies this
      ensures Valid()
      ensures tables == old(tables)[name := Seeded(old(tables)[name], IdsOf(workerDict))]
      ensures workerDict == [] ==> tables == old(tables)
    {
      if |workerDict| == 0 {
        return;
      }
      ghost var ids := IdsOf(workerDict);
      for i := 0 to |workerDict|
        invariant name in tables
        invariant tables == old(tables)[name := Seeded(old(tables)[name], ids[..i])]
      {
        var id := IntOfString(workerDict[i]).value;
        assert ids[..i + 1][..i] == ids[..i];
        if id !in tables[name] {
          var t: Table := tables[name][id := EmptyRecord()];
          tables := tables[name := t];
        }
      }
      assert ids[..|workerDict|] == ids;
    }

    /** `create_table(name)`: a falsy name means the default day, which must be set. */
    method CreateTable(name: string) returns (resolved: string)
      requires Valid() && (name != "" || defaultName.Some?)
      modifies this
      ensures Valid()
      ensures resolved == Resolved(name, defaultName) && resolved != ""
      ensures tables == EnsureTable(old(tables), resolved, IdsOf(workerDict))
    {
      resolved := if name != "" then name else defaultName.value;
      if resolved !in tables {
        tables := tables[resolved := map[]];
      }
      InitTable(resolved);
    }

    /** `write_back(dumped, day)`: `dumped` holds the key and names only columns of the
        schema; a missing key raises `KeyError`. */
    method WriteBack(dumped: map<string, Option<int>>, day: string)
      requires Valid() && (day != "" || defaultName.Some?)
      requires WorkerIdColumn in dumped && forall k :: k in dumped ==> k in Schema()
      modifies this
      ensures Valid()
      ensures tables == WriteBackState(old(tables), IdsOf(workerDict), Resolved(day, defaultName), dumped)
    {
      var name := CreateTable(day);
      var t := tables[name];
      var id := dumped[WorkerIdColumn];
      if id.Some? && id.value in t {
        var written: Table := t[id.value := Assigned(t[id.value], dumped)];
        tables := tables[name := written];
      }
    }

    /** `write_back_single(worker_id_aux, labor_hour_aux, day)`. */
    method WriteBackSingle(workerIdAux: Option<int>, laborHourAux: Option<int>, day: string)
      requires Valid() && (day != "" || defaultName.Some?)
      modifies this
      ensures Valid()
      ensures tables == WriteBackSingleState(old(tables), IdsOf(workerDict), Resolved(day, defaultName),
                                             workerIdAux, laborHourAux)
    {
      var name := CreateTable(day);
      var t := tables[name];
      if workerIdAux.Some? && workerIdAux.value in t {
        tables := tables[name := t[workerIdAux.value := t[workerIdAux.value][LaborHourAuxTo := laborHourAux]]];
      }
    }

    /** `retrieve(worker_id, day)`; a null id matches no row. */
    method Retrieve(workerId: Option<int>, day: string) returns (row: Option<Record>)
      requires Valid() && (day != "" || defaultName.Some?)
      modifies this
      ensures Valid()
      ensures tables == EnsureTable(old(tables), Resolved(day, defaultName), IdsOf(workerDict))
      ensures row == Lookup(tables[Resolved(day, defaultName)], workerId)
    {
      var name := CreateTable(day);
      var t := tables[name];
      if workerId.Some? && workerId.value in t {
        row := Some(t[workerId.value]);
      } else {
        row := None;
      }
    }

    /** `is_empty_row(worker_id, row, day)`: a given row is tested as it is; otherwise the
        row is retrieved first. */
    method IsEmptyRow(workerId: Option<int>, row: Option<Record>, day: string) returns (empty: bool)
      requires Valid() && (row.Some? || day != "" || defaultName.Some?)
      modifies this
      ensures Valid()
      ensures row.Some? ==> tables == old(tables) && empty == RecordIsEmpty(row.value)
      ensures row.None? ==> tables == EnsureTable(old(tables), Resolved(day, defaultName), IdsOf(workerDict))
      ensures row.None? ==> empty == RowIsEmpty(Lookup(tables[Resolved(day, defaultName)], workerId))
    {
      var r := row;
      if r.None? {
        r := Retrieve(workerId, day);
      }
      if r.None? {
        return true;
      }
      empty := RecordIsEmpty(r.value);
    }

    /** `get_month_days_in_db()`; a table name `int()` rejects raises `ValueError`. */
    method MonthDaysInDb() returns (days: seq<string>)
      requires AllNumeric(tables.Keys)
      ensures IsMonthDays(days, tables.Keys)
    {
      var sorted := SortDictKeysNumerically(tables);
      var l := KeysOf(sorted);
      days := Rotated(l);
      assert IsNumericOrder(l, tables.Keys) && days == Rotated(l);
    }

    /** `get_data_per_day(worker_id, day)` with the missing row treated as empty. */
    method GetDataPerDay(workerId: int, day: string) returns (r: DayResult)
      requires Valid() && (day != "" || defaultName.Some?)
      modifies this
      ensures Valid()
      ensures (tables, r) == DataPerDay(old(tables), IdsOf(workerDict), Resolved(day, defaultName), workerId)
    {
      var result := Retrieve(Some(workerId), day);
      if result.None? || RecordIsEmpty(result.value) {
        return ZeroResult;
      }
      r := SumRecord(result.value);
    }

    /** `iterate_worker(worker_id)`: one result per day, in the order of
        `get_month_days_in_db`; `days` is that order, and each result is the worker's
        row in that day's table once it has been seeded. Each day goes through the
        corrected `GetDataPerDay`, so a day without the worker's row gives zeros. */
    method IterateWorker(workerId: int) returns (ghost days: seq<string>, results: seq<DayResult>)
      requires Valid() && AllNumeric(tables.Keys)
      modifies this
      ensures Valid()
      ensures IsMonthDays(days, old(tables).Keys)
      ensures forall i :: 0 <= i < |days| ==> days[i] in old(tables)
      ensures tables == EnsureTables(old(tables), days, IdsOf(workerDict))
      ensures |results| == |days|
      ensures forall i :: 0 <= i < |days| ==> results[i] == WorkerDay(old(tables)[days[i]], IdsOf(workerDict), workerId)
    {
      var ds := MonthDaysInDb();
      days := ds;
      MonthDaysAreNames(ds, tables.Keys);
      ghost var ids := IdsOf(workerDict);
      ghost var start := tables;
      results := [];
      for i := 0 to |ds|
        invariant tables == EnsureTables(start, ds[..i], ids)
        invariant |results| == i
        invariant forall j :: 0 <= j < i ==> results[j] == WorkerDay(start[ds[j]], ids, workerId)
      {
        assert ds[i] != "" by {
          assert IntOfString(ds[i]).Some?;
        }
        var r := GetDataPerDay(workerId, ds[i]);
        assert tables == EnsureTables(start, ds[..i + 1], ids) && r == WorkerDay(start[ds[i]], ids, workerId) by {
          EnsureTablesNext(start, ds, ids, i, workerId);
        }
        ghost var prior := results;
        results := results + [r];
        assert forall j :: 0 <= j < i + 1 ==> results[j] == WorkerDay(start[ds[j]], ids, workerId) by {
          forall j | 0 <= j < i + 1 ensures results[j] == WorkerDay(start[ds[j]], ids, workerId) {
            if j < i {
              assert results[j] == prior[j];
            }
          }
        }
      }
      assert ds[..|ds|] == ds;
    }
  }
}
