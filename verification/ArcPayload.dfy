/**
 * The two payload formats of the Arc output: one row per message, or one record of
 * columns per measurement.
 */
module ArcPayload {
  import opened Json

  // ----- timestamps

  /** Nanoseconds to microseconds, rounded towards zero. */
  function ThousandthOf(v: int64): int64 {
    if v >= 0 then (v as int / 1000) as int64 else (-(-(v as int) / 1000)) as int64
  }

  /** A timestamp in microseconds; 64-bit multiplication and negation wrap around. */
  function ConvertTimestamp(v: int64, unit: string): int64 {
    match unit
    case "us" => v
    case "ms" => Wrap64(v as int * 1000)
    case "s" => Wrap64(v as int * 1000000)
    case "ns" => ThousandthOf(v)
    case "auto" =>
      var abs := if v < 0 then Wrap64(-(v as int)) else v;
      if abs >= 10000000000000000 then ThousandthOf(v)
      else if abs >= 10000000000000 then v
      else if abs >= 10000000000 then Wrap64(v as int * 1000)
      else Wrap64(v as int * 1000000)
    case _ => v
  }

  datatype Unit = Seconds | Millis | Micros | Nanos
  {
    /** Its name in the configuration. */
    function Name(): string {
      match this
      case Seconds => "s"
      case Millis => "ms"
      case Micros => "us"
      case Nanos => "ns"
    }

    /** The microseconds in v of this unit, rounded towards zero. */
    function Exact(v: int): int {
      match this
      case Seconds => v * 1000000
      case Millis => v * 1000
      case Micros => v
      case Nanos => if v >= 0 then v / 1000 else -(-v / 1000)
    }

    /** The magnitudes taken to be of this unit. */
    predicate Typical(v: int) {
      var abs := if v < 0 then -v else v;
      match this
      case Seconds => abs < 10000000000
      case Millis => 10000000000 <= abs < 10000000000000
      case Micros => 10000000000000 <= abs < 10000000000000000
      case Nanos => 10000000000000000 <= abs < 0x8000_0000_0000_0000
    }
  }

  /** A timestamp of known unit is converted exactly when the microseconds fit 64 bits, and else wraps around. */
  lemma ExactIff(v: int64, unit: Unit)
    ensures ConvertTimestamp(v, unit.Name()) as int == unit.Exact(v as int) <==>
            -0x8000_0000_0000_0000 <= unit.Exact(v as int) < 0x8000_0000_0000_0000
  {
  }

  lemma AutoIs(v: int64, unit: Unit)
    requires unit.Typical(v as int)
    ensures ConvertTimestamp(v, "auto") as int == unit.Exact(v as int)
  {
  }

  /**
   * For every 64-bit timestamp and every unit: guessing the unit gives the right microseconds
   * exactly when the magnitude is typical of that unit, or the timestamp is zero.
   */
  lemma AutoDetectsIff(v: int64, unit: Unit)
    ensures ConvertTimestamp(v, "auto") as int == unit.Exact(v as int) <==> v == 0 || unit.Typical(v as int)
  {
    if v as int == -0x8000_0000_0000_0000 {
      assert ConvertTimestamp(v, "auto") == 0;
    } else {
      var guess :=
        if Seconds.Typical(v as int) then Seconds else if Millis.Typical(v as int) then Millis
        else if Micros.Typical(v as int) then Micros else Nanos;
      AutoIs(v, guess);
      if v != 0 && guess != unit {
      }
    }
  }

  /** The configuration, and what comes from other libraries. */
  datatype Config = Config(
    timestampField: string,
    timestampUnit: string,
    truncate: Float64 -> int64,            // conversion of a float64 to an int64
    nearestFloat: real -> Option<real>,
    parseMicros: string -> Option<int64>)  // an RFC 3339 time in microseconds

  /** The timestamp of a message read at time `now`, in microseconds. */
  function ExtractTimestamp(cfg: Config, data: map<string, Value>, now: int64): int64 {
    if cfg.timestampField == "" || cfg.timestampField !in data then now
    else
      match data[cfg.timestampField]
      case Int(i) => ConvertTimestamp(i, cfg.timestampUnit)
      case Float(f) => ConvertTimestamp(cfg.truncate(f), cfg.timestampUnit)
      case Number(n) =>
        if n.plainInteger && -0x8000_0000_0000_0000 <= n.value.Floor < 0x8000_0000_0000_0000
        then ConvertTimestamp(n.value.Floor as int64, cfg.timestampUnit)
        else
          var f := cfg.nearestFloat(n.value);
          if f.Some? then ConvertTimestamp(cfg.truncate(Finite(f.value)), cfg.timestampUnit) else now
      case Str(s) =>
        var t := cfg.parseMicros(s);
        if t.Some? then t.value else now
      case _ => now
  }

  // ----- rows

  /** A message: its measurement and its data, either of which may fail to be produced, and the clock when it is read. */
  datatype Message = Message(measurement: Option<string>, data: Option<Value>, now: int64)

  datatype Row = Row(m: string, t: int64, fields: map<string, Value>)

  predicate IsField(cfg: Config, k: string) {
    k != cfg.timestampField && k != "time"
  }

  /** The fields among the entries of a message that are not in `left`. */
  function Taken(cfg: Config, data: map<string, Value>, left: set<string>): map<string, Value> {
    map k | k in data && k !in left && IsField(cfg, k) :: data[k]
  }

  function FieldsOf(cfg: Config, data: map<string, Value>): map<string, Value> {
    Taken(cfg, data, {})
  }

  function RowOf(cfg: Config, msg: Message): Option<Row> {
    if msg.measurement.None? || msg.data.None? || !msg.data.value.Obj? then None
    else
      var data := msg.data.value.entries;
      Some(Row(msg.measurement.value, ExtractTimestamp(cfg, data, msg.now), FieldsOf(cfg, data)))
  }

  /** A payload of exactly one item is sent bare. */
  datatype Payload<T> = One(item: T) | Many(items: seq<T>)

  function PayloadOf<T>(items: seq<T>): Payload<T> {
    if |items| == 1 then One(items[0]) else Many(items)
  }

  /** The rows of a batch, None when a message cannot be turned into one. */
  function Rows(cfg: Config, batch: seq<Message>): Option<seq<Row>> {
    if batch == [] then Some([])
    else
      var init, row := Rows(cfg, batch[..|batch| - 1]), RowOf(cfg, batch[|batch| - 1]);
      if init.None? || row.None? then None else Some(init.value + [row.value])
  }

  lemma {:induction false} PrefixFails(cfg: Config, batch: seq<Message>, i: nat)
    requires i <= |batch| && Rows(cfg, batch[..i]).None?
    ensures Rows(cfg, batch).None?
    decreases |batch| - i
  {
    if i < |batch| {
      assert batch[..i + 1][..i] == batch[..i];
      PrefixFails(cfg, batch, i + 1);
    } else {
      assert batch[..i] == batch;
    }
  }

  method BuildRowPayload(cfg: Config, batch: seq<Message>) returns (r: Option<Payload<Row>>)
    ensures var rows := Rows(cfg, batch);
            r == if rows.None? then None else Some(PayloadOf(rows.value))
  {
    var rows: seq<Row> := [];
    for i := 0 to |batch|
      invariant Rows(cfg, batch[..i]) == Some(rows)
    {
      var msg := batch[i];
      assert batch[..i + 1][..i] == batch[..i] && batch[..i + 1][i] == msg;
      if msg.measurement.None? || msg.data.None? || !msg.data.value.Obj? {
        PrefixFails(cfg, batch, i + 1);
        return None;
      }
      var data := msg.data.value.entries;
      var fields: map<string, Value> := map[];
      var keys := data.Keys;
      while keys != {}
        invariant keys <= data.Keys
        invariant fields == Taken(cfg, data, keys)
        decreases keys
      {
        var k :| k in keys;
        keys := keys - {k};
        if IsField(cfg, k) {
          fields := fields[k := data[k]];
        }
      }
      rows := rows + [Row(msg.measurement.value, ExtractTimestamp(cfg, data, msg.now), fields)];
    }
    assert batch[..|batch|] == batch;
    r := Some(if |rows| == 1 then One(rows[0]) else Many(rows));
  }

  // ----- columns

  type Columns = map<string, seq<Value>>

  datatype Record = Record(m: string, columns: Columns)

  /** The rows of one measurement, in order. */
  function Select(rows: seq<Row>, m: string): seq<Row> {
    if rows == [] then []
    else
      var last := rows[|rows| - 1];
      Select(rows[..|rows| - 1], m) + if last.m == m then [last] else []
  }

  /** The measurements in order of first appearance. */
  function Order(rows: seq<Row>): seq<string> {
    if rows == [] then []
    else
      var init, m := Order(rows[..|rows| - 1]), rows[|rows| - 1].m;
      if m in init then init else init + [m]
  }

  predicate Has(row: Row, k: string) { k == "time" || k in row.fields }

  /** The value a row contributes to a column. */
  function At(row: Row, k: string): Value
    requires Has(row, k)
  {
    if k == "time" then Int(row.t) else row.fields[k]
  }

  /** A column collects the values of the rows that have one. */
  function Column(rows: seq<Row>, k: string): seq<Value> {
    if rows == [] then []
    else
      var last := rows[|rows| - 1];
      Column(rows[..|rows| - 1], k) + if Has(last, k) then [At(last, k)] else []
  }

  function Names(rows: seq<Row>): set<string> {
    if rows == [] then {}
    else Names(rows[..|rows| - 1]) + rows[|rows| - 1].fields.Keys + {"time"}
  }

  function ColumnsOf(rows: seq<Row>): Columns {
    map k | k in Names(rows) :: Column(rows, k)
  }

  /** The records of a batch: one per measurement, in order of first appearance. */
  function Records(rows: seq<Row>, order: seq<string>): seq<Record> {
    seq(|order|, i requires 0 <= i < |order| => Record(order[i], ColumnsOf(Select(rows, order[i]))))
  }

  function Columnar(rows: seq<Row>): seq<Record> {
    Records(rows, Order(rows))
  }

  // ----- building the columns

  function Get(columns: Columns, k: string): seq<Value> {
    if k in columns then columns[k] else []
  }

  /** One more row appended to the columns of its measurement. */
  function AppendRow(columns: Columns, row: Row): Columns {
    map k | k in columns.Keys + row.fields.Keys + {"time"} ::
      Get(columns, k) + if Has(row, k) then [At(row, k)] else []
  }

  lemma AppendTime(columns: Columns, m: string, t: int64)
    ensures AppendRow(columns, Row(m, t, map[])) == columns["time" := Get(columns, "time") + [Int(t)]]
  {
    var after := AppendRow(columns, Row(m, t, map[]));
    assert after.Keys == columns.Keys + {"time"};
    forall k | k in after && k != "time" ensures after[k] == columns[k] {
      assert !Has(Row(m, t, map[]), k);
    }
  }

  lemma AppendField(columns: Columns, row: Row, k: string, v: Value)
    requires k != "time" && k !in row.fields
    ensures var before, after := AppendRow(columns, row), AppendRow(columns, row.(fields := row.fields[k := v]));
            after == before[k := Get(before, k) + [v]]
  {
    var before, after := AppendRow(columns, row), AppendRow(columns, row.(fields := row.fields[k := v]));
    assert Get(before, k) == Get(columns, k);
    assert after[k] == Get(columns, k) + [v];
    assert after.Keys == before.Keys + {k};
  }

  lemma {:induction false} UnnamedColumn(rows: seq<Row>, k: string)
    requires k !in Names(rows)
    ensures Column(rows, k) == []
  {
    if rows != [] {
      UnnamedColumn(rows[..|rows| - 1], k);
    }
  }

  lemma ColumnsOneMore(rows: seq<Row>, row: Row)
    ensures ColumnsOf(rows + [row]) == AppendRow(ColumnsOf(rows), row)
  {
    var more := rows + [row];
    assert more[..|rows|] == rows;
    assert Names(more) == Names(rows) + row.fields.Keys + {"time"};
    var appended := AppendRow(ColumnsOf(rows), row);
    forall k | k in Names(more) ensures ColumnsOf(more)[k] == appended[k] {
      assert Column(more, k) == Column(rows, k) + if Has(row, k) then [At(row, k)] else [];
      if k !in Names(rows) {
        UnnamedColumn(rows, k);
      }
    }
  }

  lemma OneMore(rows: seq<Row>, row: Row, m: string)
    ensures Select(rows + [row], m) == if row.m == m then Select(rows, m) + [row] else Select(rows, m)
    ensures Order(rows + [row]) == if row.m in Order(rows) then Order(rows) else Order(rows) + [row.m]
  {
    assert (rows + [row])[..|rows|] == rows;
  }

  lemma {:induction false} OrderIs(rows: seq<Row>, m: string)
    ensures m in Order(rows) <==> Select(rows, m) != []
    ensures forall i, j :: 0 <= i < j < |Order(rows)| ==> Order(rows)[i] != Order(rows)[j]
  {
    if rows != [] {
      OrderIs(rows[..|rows| - 1], m);
    }
  }

  ghost predicate GroupIs(groups: map<string, Columns>, rows: seq<Row>, m: string) {
    if m in Order(rows) then m in groups && groups[m] == ColumnsOf(Select(rows, m)) else m !in groups
  }

  ghost predicate Grouped(groups: map<string, Columns>, rows: seq<Row>) {
    forall m :: GroupIs(groups, rows, m)
  }

  lemma GroupOneMore(groups: map<string, Columns>, rows: seq<Row>, row: Row)
    requires GroupIs(groups, rows, row.m)
    ensures var before := if row.m in groups then groups[row.m] else map[];
            AppendRow(before, row) == ColumnsOf(Select(rows + [row], row.m))
  {
    OrderIs(rows, row.m);
    OneMore(rows, row, row.m);
    ColumnsOneMore(Select(rows, row.m), row);
  }

  lemma GroupedOneMore(groups: map<string, Columns>, rows: seq<Row>, row: Row, columns: Columns)
    requires Grouped(groups, rows)
    requires columns == AppendRow(if row.m in groups then groups[row.m] else map[], row)
    ensures Grouped(groups[row.m := columns], rows + [row])
  {
    assert GroupIs(groups, rows, row.m);
    GroupOneMore(groups, rows, row);
    var after, more := groups[row.m := columns], rows + [row];
    forall m ensures GroupIs(after, more, m) {
      assert GroupIs(groups, rows, m);
      OneMore(rows, row, m);
    }
  }

  method BuildColumnarPayload(cfg: Config, batch: seq<Message>) returns (r: Option<Payload<Record>>)
    ensures var rows := Rows(cfg, batch);
            r == if rows.None? then None else Some(PayloadOf(Columnar(rows.value)))
  {
    var groups: map<string, Columns> := map[];
    var order: seq<string> := [];
    ghost var rows: seq<Row> := [];
    for i := 0 to |batch|
      invariant Rows(cfg, batch[..i]) == Some(rows)
      invariant order == Order(rows) && Grouped(groups, rows)
    {
      var msg := batch[i];
      assert batch[..i + 1][..i] == batch[..i] && batch[..i + 1][i] == msg;
      if msg.measurement.None? || msg.data.None? || !msg.data.value.Obj? {
        PrefixFails(cfg, batch, i + 1);
        return None;
      }
      var m, data := msg.measurement.value, msg.data.value.entries;
      var ts := ExtractTimestamp(cfg, data, msg.now);
      ghost var row := Row(m, ts, FieldsOf(cfg, data));
      OneMore(rows, row, m);
      assert GroupIs(groups, rows, m);
      var columns: Columns := map[];
      if m in groups {
        columns := groups[m];
      } else {
        order := order + [m];
      }
      columns := AppendData(cfg, columns, m, ts, data);
      GroupedOneMore(groups, rows, row, columns);
      groups := groups[m := columns];
      rows := rows + [row];
    }
    assert batch[..|batch|] == batch;
    var records := BuildRecords(groups, order, rows);
    r := Some(if |records| == 1 then One(records[0]) else Many(records));
  }

  method BuildRecords(groups: map<string, Columns>, order: seq<string>, ghost rows: seq<Row>) returns (r: seq<Record>)
    requires order == Order(rows) && Grouped(groups, rows)
    ensures r == Columnar(rows)
  {
    r := [];
    for i := 0 to |order|
      invariant r == Columnar(rows)[..i]
    {
      assert GroupIs(groups, rows, order[i]);
      r := r + [Record(order[i], groups[order[i]])];
    }
  }

  method AppendData(cfg: Config, columns: Columns, m: string, ts: int64, data: map<string, Value>)
    returns (r: Columns)
    ensures r == AppendRow(columns, Row(m, ts, FieldsOf(cfg, data)))
  {
    r := columns["time" := Get(columns, "time") + [Int(ts)]];
    ghost var row := Row(m, ts, map[]);
    AppendTime(columns, m, ts);
    var keys := data.Keys;
    while keys != {}
      invariant keys <= data.Keys
      invariant row == Row(m, ts, Taken(cfg, data, keys))
      invariant r == AppendRow(columns, row)
      decreases keys
    {
      var k :| k in keys;
      keys := keys - {k};
      if IsField(cfg, k) {
        AppendField(columns, row, k, data[k]);
        r := r[k := Get(r, k) + [data[k]]];
        row := row.(fields := row.fields[k := data[k]]);
      }
    }
  }

  // ----- columns against rows

  ghost predicate Uniform(rows: seq<Row>) {
    forall i, j :: 0 <= i < |rows| && 0 <= j < |rows| ==> rows[i].fields.Keys == rows[j].fields.Keys
  }

  /** Every column of the record is as long as its time column. */
  ghost predicate Aligned(columns: Columns) {
    "time" in columns && forall k :: k in columns ==> |columns[k]| == |columns["time"]|
  }

  lemma {:induction false} NamesAre(rows: seq<Row>, k: string)
    ensures k in Names(rows) <==> exists i :: 0 <= i < |rows| && Has(rows[i], k)
  {
    if rows != [] {
      var init := rows[..|rows| - 1];
      NamesAre(init, k);
      if k in Names(init) {
        var i :| 0 <= i < |init| && Has(init[i], k);
        assert Has(rows[i], k);
      }
      if k in Names(rows) && k !in Names(init) {
        assert Has(rows[|rows| - 1], k);
      }
    }
  }

  /** A column is as long as the batch exactly when every row has the field, and then lists the rows' values in order. */
  lemma {:induction false} FullColumn(rows: seq<Row>, k: string)
    ensures |Column(rows, k)| <= |rows|
    ensures |Column(rows, k)| == |rows| <==> forall i :: 0 <= i < |rows| ==> Has(rows[i], k)
    ensures |Column(rows, k)| == |rows| ==>
              forall i :: 0 <= i < |rows| ==> Has(rows[i], k) && Column(rows, k)[i] == At(rows[i], k)
  {
    if rows != [] {
      var init := rows[..|rows| - 1];
      FullColumn(init, k);
      if |Column(rows, k)| == |rows| {
        forall i | 0 <= i < |rows| ensures Has(rows[i], k) && Column(rows, k)[i] == At(rows[i], k) {
          if i < |init| {
            assert rows[i] == init[i];
          }
        }
      }
    }
  }

  lemma TimeColumn(rows: seq<Row>)
    ensures |Column(rows, "time")| == |rows|
  {
    FullColumn(rows, "time");
  }

  /** The columns of a measurement line up exactly when its rows all have the same fields. */
  lemma AlignedIff(rows: seq<Row>)
    requires rows != [] && forall row :: row in rows ==> "time" !in row.fields
    ensures Aligned(ColumnsOf(rows)) <==> Uniform(rows)
  {
    TimeColumn(rows);
    NamesAre(rows, "time");
    assert Has(rows[0], "time");
    if Aligned(ColumnsOf(rows)) {
      forall i, j, k | 0 <= i < |rows| && 0 <= j < |rows| && k in rows[i].fields ensures k in rows[j].fields {
        assert Has(rows[i], k) && rows[i] in rows;
        NamesAre(rows, k);
        assert ColumnsOf(rows)[k] == Column(rows, k);
        FullColumn(rows, k);
        assert Has(rows[j], k);
      }
    }
    if Uniform(rows) {
      forall k | k in Names(rows) ensures |Column(rows, k)| == |rows| {
        NamesAre(rows, k);
        var i :| 0 <= i < |rows| && Has(rows[i], k);
        forall j | 0 <= j < |rows| ensures Has(rows[j], k) {
          assert rows[i].fields.Keys == rows[j].fields.Keys;
        }
        FullColumn(rows, k);
      }
    }
  }

  ghost predicate Readable(r: Record) {
    Aligned(r.columns) && forall v :: v in r.columns["time"] ==> v.Int?
  }

  /** The rows a reader of the record sees. */
  ghost function Transpose(r: Record): seq<Row>
    requires Readable(r)
  {
    seq(|r.columns["time"]|, i requires 0 <= i < |r.columns["time"]| =>
      Row(r.m, r.columns["time"][i].i, map k | k in r.columns && k != "time" :: r.columns[k][i]))
  }

  lemma TransposedBack(rows: seq<Row>, m: string)
    requires rows != [] && Uniform(rows)
    requires forall row :: row in rows ==> "time" !in row.fields && row.m == m
    ensures var r := Record(m, ColumnsOf(rows));
            Readable(r) && Transpose(r) == rows
  {
    AlignedIff(rows);
    var r := Record(m, ColumnsOf(rows));
    assert r.columns["time"] == Column(rows, "time");
    FullColumn(rows, "time");
    forall i | 0 <= i < |rows| ensures Transpose(r)[i] == rows[i] {
      assert rows[i] in rows;
      var fields := Transpose(r)[i].fields;
      forall k ensures k in fields <==> k in rows[i].fields {
        NamesAre(rows, k);
        if k in Names(rows) {
          FullColumn(rows, k);
        }
      }
      forall k | k in fields ensures fields[k] == rows[i].fields[k] {
        FullColumn(rows, k);
      }
      assert fields == rows[i].fields;
    }
  }

  /** The rows stably grouped by measurement. */
  function Grouping(rows: seq<Row>, order: seq<string>): seq<Row> {
    if order == [] then []
    else Grouping(rows, order[..|order| - 1]) + Select(rows, order[|order| - 1])
  }

  lemma {:induction false} SelectCounts(rows: seq<Row>, m: string, row: Row)
    ensures multiset(Select(rows, m))[row] == if row.m == m then multiset(rows)[row] else 0
  {
    if rows != [] {
      var init, last := rows[..|rows| - 1], rows[|rows| - 1];
      SelectCounts(init, m, row);
      assert rows == init + [last];
    }
  }

  lemma {:induction false} GroupingCounts(rows: seq<Row>, order: seq<string>, row: Row)
    requires forall i, j :: 0 <= i < j < |order| ==> order[i] != order[j]
    ensures multiset(Grouping(rows, order))[row] == if row.m in order then multiset(rows)[row] else 0
  {
    if order != [] {
      var init, last := order[..|order| - 1], order[|order| - 1];
      GroupingCounts(rows, init, row);
      SelectCounts(rows, last, row);
      assert order == init + [last];
      assert last !in init;
    }
  }

  /** Grouping neither loses nor repeats a row. */
  lemma GroupingConserves(rows: seq<Row>)
    ensures multiset(Grouping(rows, Order(rows))) == multiset(rows)
  {
    var grouping := Grouping(rows, Order(rows));
    forall row ensures multiset(grouping)[row] == multiset(rows)[row] {
      OrderIs(rows, row.m);
      GroupingCounts(rows, Order(rows), row);
      SelectCounts(rows, row.m, row);
    }
  }

  ghost function TimeValues(records: seq<Record>): nat {
    if records == [] then 0
    else TimeValues(records[..|records| - 1]) + |Get(records[|records| - 1].columns, "time")|
  }

  lemma {:induction false} TimesOfGroups(rows: seq<Row>, order: seq<string>)
    requires forall m :: m in order ==> Select(rows, m) != []
    ensures TimeValues(Records(rows, order)) == |Grouping(rows, order)|
  {
    if order != [] {
      var init, last := order[..|order| - 1], order[|order| - 1];
      TimesOfGroups(rows, init);
      assert Records(rows, order)[..|init|] == Records(rows, init);
      var group := Select(rows, last);
      TimeColumn(group);
      assert last in order && Has(group[0], "time");
      NamesAre(group, "time");
    }
  }

  /** The time columns of the records together have one value for each row of the batch. */
  lemma TimesConserved(rows: seq<Row>)
    ensures TimeValues(Columnar(rows)) == |rows|
  {
    forall m | m in Order(rows) ensures Select(rows, m) != [] {
      OrderIs(rows, m);
    }
    TimesOfGroups(rows, Order(rows));
    GroupingConserves(rows);
    assert |multiset(rows)| == |rows|;
    assert |multiset(Grouping(rows, Order(rows)))| == |Grouping(rows, Order(rows))|;
  }

  // ----- both formats say the same

  ghost function ReadAll(records: seq<Record>): seq<Row>
    requires forall r :: r in records ==> Readable(r)
  {
    if records == [] then []
    else ReadAll(records[..|records| - 1]) + Transpose(records[|records| - 1])
  }

  lemma {:induction false} SelectedAre(rows: seq<Row>, m: string)
    ensures forall row :: row in Select(rows, m) ==> row in rows && row.m == m
  {
    if rows != [] {
      SelectedAre(rows[..|rows| - 1], m);
    }
  }

  lemma {:induction false} RowsHaveNoTime(cfg: Config, batch: seq<Message>)
    requires Rows(cfg, batch).Some?
    ensures forall row :: row in Rows(cfg, batch).value ==> "time" !in row.fields
  {
    if batch != [] {
      RowsHaveNoTime(cfg, batch[..|batch| - 1]);
    }
  }

  lemma RecordsOneMore(rows: seq<Row>, order: seq<string>, m: string)
    ensures Records(rows, order + [m]) == Records(rows, order) + [Record(m, ColumnsOf(Select(rows, m)))]
    ensures Grouping(rows, order + [m]) == Grouping(rows, order) + Select(rows, m)
  {
    assert (order + [m])[..|order|] == order;
  }

  lemma {:induction false} GroupsReadBack(rows: seq<Row>, order: seq<string>)
    requires forall row :: row in rows ==> "time" !in row.fields
    requires forall m :: m in order ==> Select(rows, m) != [] && Uniform(Select(rows, m))
    ensures forall r :: r in Records(rows, order) ==> Readable(r)
    ensures ReadAll(Records(rows, order)) == Grouping(rows, order)
  {
    if order != [] {
      var init, m := order[..|order| - 1], order[|order| - 1];
      assert order == init + [m] && m in order;
      GroupsReadBack(rows, init);
      SelectedAre(rows, m);
      TransposedBack(Select(rows, m), m);
      RecordsOneMore(rows, init, m);
    }
  }

  /**
   * The columnar payload of a batch has a well-formed record for every measurement exactly when
   * the rows of each measurement have the same fields; reading its records back then gives the
   * rows of the row payload, stably grouped by measurement in order of first appearance.
   */
  lemma ColumnarIsRows(cfg: Config, batch: seq<Message>)
    requires Rows(cfg, batch).Some?
    ensures var rows := Rows(cfg, batch).value;
            var uniform := forall m :: m in Order(rows) ==> Uniform(Select(rows, m));
            && (uniform <==> forall r :: r in Columnar(rows) ==> Aligned(r.columns))
            && (uniform ==> (forall r :: r in Columnar(rows) ==> Readable(r))
                            && ReadAll(Columnar(rows)) == Grouping(rows, Order(rows)))
  {
    var rows := Rows(cfg, batch).value;
    RowsHaveNoTime(cfg, batch);
    forall i | 0 <= i < |Order(rows)|
      ensures Aligned(Columnar(rows)[i].columns) <==> Uniform(Select(rows, Order(rows)[i]))
    {
      var m := Order(rows)[i];
      OrderIs(rows, m);
      SelectedAre(rows, m);
      AlignedIff(Select(rows, m));
    }
    if forall r :: r in Columnar(rows) ==> Aligned(r.columns) {
      forall m | m in Order(rows) ensures Uniform(Select(rows, m)) {
        var i :| 0 <= i < |Order(rows)| && Order(rows)[i] == m;
        assert Columnar(rows)[i] in Columnar(rows);
      }
    }
    if forall m :: m in Order(rows) ==> Uniform(Select(rows, m)) {
      forall m | m in Order(rows) ensures Select(rows, m) != [] {
        OrderIs(rows, m);
      }
      GroupsReadBack(rows, Order(rows));
    }
  }
}
