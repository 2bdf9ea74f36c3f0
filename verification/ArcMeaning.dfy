/** What the two Arc payloads of a batch hold, message by message and column by column. */
module ArcMeaning {
  import opened Json
  import opened ArcPayload
  import opened Selections

  // ----- rows

  /** The number a timestamp field holds, as the code reads it. */
  ghost predicate Counts(cfg: Config, v: Value, i: int64) {
    match v
    case Int(j) => i == j
    case Float(f) => i == cfg.truncate(f)
    case Number(n) =>
      if n.plainInteger && -0x8000_0000_0000_0000 <= n.value.Floor < 0x8000_0000_0000_0000 then i as int == n.value.Floor
      else cfg.nearestFloat(n.value).Some? && i == cfg.truncate(Finite(cfg.nearestFloat(n.value).value))
    case _ => false
  }

  /** The time of a message: its timestamp field, as a number of the unit or as a text, or else the clock. */
  ghost predicate TimeOf(cfg: Config, data: map<string, Value>, now: int64, t: int64) {
    if cfg.timestampField == "" || cfg.timestampField !in data then t == now
    else
      var v := data[cfg.timestampField];
      if exists i :: Counts(cfg, v, i) then exists i :: Counts(cfg, v, i) && t == ConvertTimestamp(i, cfg.timestampUnit)
      else if v.Str? && cfg.parseMicros(v.s).Some? then t == cfg.parseMicros(v.s).value
      else t == now
  }

  predicate Usable(msg: Message) {
    msg.measurement.Some? && msg.data.Some? && msg.data.value.Obj?
  }

  /** The row of a message: its measurement, its time, and every other entry but one called time. */
  ghost predicate RowFor(cfg: Config, msg: Message, row: Row) {
    && Usable(msg) && msg.measurement == Some(row.m)
    && var data := msg.data.value.entries;
       && TimeOf(cfg, data, msg.now, row.t)
       && (forall k :: k in row.fields <==> k in data && k != "time" && k != cfg.timestampField)
       && (forall k :: k in row.fields ==> row.fields[k] == data[k])
  }

  lemma TimeIs(cfg: Config, data: map<string, Value>, now: int64)
    ensures TimeOf(cfg, data, now, ExtractTimestamp(cfg, data, now))
  {
    if cfg.timestampField != "" && cfg.timestampField in data {
      var v := data[cfg.timestampField];
      match v
      case Int(j) => assert Counts(cfg, v, j);
      case Float(f) => assert Counts(cfg, v, cfg.truncate(f));
      case Number(n) =>
        if n.plainInteger && -0x8000_0000_0000_0000 <= n.value.Floor < 0x8000_0000_0000_0000 {
          assert Counts(cfg, v, n.value.Floor as int64);
        } else if cfg.nearestFloat(n.value).Some? {
          assert Counts(cfg, v, cfg.truncate(Finite(cfg.nearestFloat(n.value).value)));
        }
      case _ =>
    }
  }

  lemma RowIs(cfg: Config, msg: Message)
    ensures RowOf(cfg, msg).Some? <==> Usable(msg)
    ensures Usable(msg) ==> RowFor(cfg, msg, RowOf(cfg, msg).value)
  {
    if Usable(msg) {
      TimeIs(cfg, msg.data.value.entries, msg.now);
    }
  }

  /** A batch has rows exactly when all its messages can be used: one for each, in order. */
  lemma {:induction false} RowsAre(cfg: Config, batch: seq<Message>)
    ensures Rows(cfg, batch).Some? <==> forall i :: 0 <= i < |batch| ==> Usable(batch[i])
    ensures Rows(cfg, batch).Some? ==>
              var rows := Rows(cfg, batch).value;
              |rows| == |batch| && forall i :: 0 <= i < |batch| ==> RowFor(cfg, batch[i], rows[i])
  {
    if batch != [] {
      var init, last := batch[..|batch| - 1], batch[|batch| - 1];
      RowsAre(cfg, init);
      RowIs(cfg, last);
      assert forall i :: 0 <= i < |init| ==> init[i] == batch[i];
      if Rows(cfg, batch).Some? {
        var rows := Rows(cfg, batch).value;
        forall i | 0 <= i < |batch| ensures RowFor(cfg, batch[i], rows[i]) {
          assert i < |init| ==> rows[i] == Rows(cfg, init).value[i];
        }
      }
    }
  }

  /** A payload of one item is that item; any other is the list. */
  lemma PayloadIs<T>(items: seq<T>)
    ensures forall x :: PayloadOf(items) == One(x) <==> items == [x]
    ensures forall xs :: PayloadOf(items) == Many(xs) <==> xs == items && |items| != 1
  {
  }

  // ----- columns

  /** The rows of a measurement that have a value for the column. */
  function InColumn(m: string, k: string): Row -> bool {
    (row: Row) => row.m == m && (k == "time" || k in row.fields)
  }

  /** The column holds the values of those rows, in order. */
  ghost predicate ColumnAt(rows: seq<Row>, m: string, k: string, column: seq<Value>, ix: seq<nat>) {
    && Selects(rows, InColumn(m, k), ix) && |ix| == |column|
    && forall j :: 0 <= j < |ix| ==> column[j] == if k == "time" then Int(rows[ix[j]].t) else rows[ix[j]].fields[k]
  }

  ghost predicate IsColumn(rows: seq<Row>, m: string, k: string, column: seq<Value>) {
    exists ix :: ColumnAt(rows, m, k, column, ix)
  }

  lemma ColumnOneMore(rows: seq<Row>, row: Row, m: string, k: string, column: seq<Value>, longer: seq<Value>)
    requires IsColumn(rows, m, k, column)
    requires longer == column + if row.m == m && Has(row, k) then [At(row, k)] else []
    ensures IsColumn(rows + [row], m, k, longer)
  {
    var ix :| ColumnAt(rows, m, k, column, ix);
    var more := SelectsOneMore(rows, row, InColumn(m, k), ix);
    var all := rows + [row];
    forall j | 0 <= j < |more| ensures longer[j] == if k == "time" then Int(all[more[j]].t) else all[more[j]].fields[k] {
      if j < |ix| {
        assert all[ix[j]] == rows[ix[j]];
      }
    }
    assert ColumnAt(all, m, k, longer, more);
  }

  lemma SelectedColumn(rows: seq<Row>, row: Row, m: string, k: string)
    ensures Column(Select(rows + [row], m), k) ==
            Column(Select(rows, m), k) + if row.m == m && Has(row, k) then [At(row, k)] else []
  {
    OneMore(rows, row, m);
    if row.m == m {
      var group := Select(rows, m);
      assert (group + [row])[..|group|] == group;
    }
  }

  lemma {:induction false} ColumnIs(rows: seq<Row>, m: string, k: string)
    ensures IsColumn(rows, m, k, Column(Select(rows, m), k))
  {
    if rows == [] {
      assert ColumnAt(rows, m, k, Column(Select(rows, m), k), []);
    } else {
      var init, last := rows[..|rows| - 1], rows[|rows| - 1];
      ColumnIs(init, m, k);
      SelectedColumn(init, last, m, k);
      ColumnOneMore(init, last, m, k, Column(Select(init, m), k), Column(Select(init + [last], m), k));
      assert init + [last] == rows;
    }
  }

  lemma {:induction false} SelectHas(rows: seq<Row>, m: string, row: Row)
    ensures row in Select(rows, m) <==> row in rows && row.m == m
  {
    if rows != [] {
      SelectHas(rows[..|rows| - 1], m, row);
      assert rows == rows[..|rows| - 1] + [rows[|rows| - 1]];
    }
  }

  /** A column is there exactly when some row of the measurement has a value for it. */
  lemma NamedIff(rows: seq<Row>, m: string, k: string)
    ensures k in ColumnsOf(Select(rows, m)) <==> exists j :: 0 <= j < |rows| && InColumn(m, k)(rows[j])
  {
    var group := Select(rows, m);
    NamesAre(group, k);
    if k in Names(group) {
      var i :| 0 <= i < |group| && Has(group[i], k);
      SelectHas(rows, m, group[i]);
      var j :| 0 <= j < |rows| && rows[j] == group[i];
      assert InColumn(m, k)(rows[j]);
    }
    if j :| 0 <= j < |rows| && InColumn(m, k)(rows[j]) {
      SelectHas(rows, m, rows[j]);
      var i :| 0 <= i < |group| && group[i] == rows[j];
      assert Has(group[i], k);
    }
  }

  /** The first row of a measurement. */
  ghost predicate FirstAt(rows: seq<Row>, m: string, i: nat) {
    i < |rows| && rows[i].m == m && forall j :: 0 <= j < i ==> rows[j].m != m
  }

  /** Increasing positions of first rows, one for each measurement in turn. */
  ghost predicate FirstRows(rows: seq<Row>, order: seq<string>, at: seq<nat>) {
    && |at| == |order| && Increasing(at) && (forall i :: 0 <= i < |at| ==> FirstAt(rows, order[i], at[i]))
    && (forall j :: 0 <= j < |rows| ==> rows[j].m in order)
  }

  lemma FirstRowsOneMore(rows: seq<Row>, row: Row, order: seq<string>, at: seq<nat>) returns (more: seq<nat>)
    requires FirstRows(rows, order, at)
    ensures FirstRows(rows + [row], if row.m in order then order else order + [row.m], more)
  {
    var all, longer := rows + [row], if row.m in order then order else order + [row.m];
    more := if row.m in order then at else at + [|rows|];
    IncreasingOneMore(at, |rows|);
    forall i | 0 <= i < |more| ensures FirstAt(all, longer[i], more[i]) {
      if i < |at| {
        assert FirstAt(rows, order[i], at[i]);
      }
    }
    forall j | 0 <= j < |all| ensures all[j].m in longer {
      assert j < |rows| ==> all[j] == rows[j] && rows[j].m in order;
    }
  }

  ghost predicate InOrder(rows: seq<Row>, order: seq<string>) {
    exists at :: FirstRows(rows, order, at)
  }

  lemma InOrderOneMore(rows: seq<Row>, row: Row, order: seq<string>)
    requires InOrder(rows, order)
    ensures InOrder(rows + [row], if row.m in order then order else order + [row.m])
  {
    var at :| FirstRows(rows, order, at);
    var more := FirstRowsOneMore(rows, row, order, at);
  }

  lemma NoneInOrder()
    ensures InOrder([], [])
  {
    assert FirstRows([], [], []);
  }

  lemma OrderStep(rows: seq<Row>) returns (init: seq<Row>, last: Row)
    requires rows != []
    ensures rows == init + [last] && |init| < |rows|
    ensures Order(rows) == if last.m in Order(init) then Order(init) else Order(init) + [last.m]
  {
    init, last := rows[..|rows| - 1], rows[|rows| - 1];
    OneMore(init, last, last.m);
  }

  /** The measurements are listed in order of first appearance. */
  lemma {:induction false} OrderIsFirst(rows: seq<Row>)
    ensures InOrder(rows, Order(rows))
    decreases |rows|
  {
    if rows == [] {
      NoneInOrder();
    } else {
      var init, last := OrderStep(rows);
      OrderIsFirst(init);
      InOrderOneMore(init, last, Order(init));
    }
  }

  ghost function Measurements(records: seq<Record>): seq<string> {
    seq(|records|, i requires 0 <= i < |records| => records[i].m)
  }

  /** A record has a column for the time and for every field of its rows, with the values of the rows that have it, in order. */
  ghost predicate IsRecord(rows: seq<Row>, r: Record) {
    && (forall k :: k in r.columns <==> exists j :: 0 <= j < |rows| && InColumn(r.m, k)(rows[j]))
    && (forall k :: k in r.columns ==> IsColumn(rows, r.m, k, r.columns[k]))
  }

  /** The columnar payload has one record for each measurement of the rows, in order of first appearance. */
  lemma ColumnarIs(rows: seq<Row>)
    ensures InOrder(rows, Measurements(Columnar(rows)))
    ensures forall i :: 0 <= i < |Columnar(rows)| ==> IsRecord(rows, Columnar(rows)[i])
  {
    OrderIsFirst(rows);
    assert Measurements(Columnar(rows)) == Order(rows);
    forall i | 0 <= i < |Columnar(rows)| ensures IsRecord(rows, Columnar(rows)[i]) {
      RecordIs(rows, Order(rows)[i]);
    }
  }

  lemma RecordIs(rows: seq<Row>, m: string)
    ensures IsRecord(rows, Record(m, ColumnsOf(Select(rows, m))))
  {
    var columns := ColumnsOf(Select(rows, m));
    forall k ensures k in columns <==> exists j :: 0 <= j < |rows| && InColumn(m, k)(rows[j]) {
      NamedIff(rows, m, k);
    }
    forall k | k in columns ensures IsColumn(rows, m, k, columns[k]) {
      ColumnIs(rows, m, k);
    }
  }
}
