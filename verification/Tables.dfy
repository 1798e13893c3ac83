/** What a database means: a catalog of finite maps from keys to rows, and what every statement
    does to it. Nothing here knows about pages. */
module Tables {
  import opened Layout
  import opened Rows
  import opened Catalog
  import opened Select

  datatype Table = Table(name: seq<Byte>, schema: Schema, rows: map<Key, Row>)

  datatype Statement =
    | Create(name: seq<Byte>, schema: Schema)
    | Insert(table: nat, vals: seq<Value>, key: Key)
    | Delete(table: nat, key: Key)
    | Update(table: nat, key: Key, mask: seq<bool>, vals: seq<Value>)
    | Select(table: nat, where: Where)

  datatype Outcome = Success | DuplicateKey | KeyNotFound | Rows(rows: seq<Cell>)

  ghost predicate ShortTexts(vals: seq<Value>, mask: seq<bool>) {
    |vals| == |mask| && forall i :: 0 <= i < |vals| && mask[i] && vals[i].Text? ==> |vals[i].s| < TEXT_SIZE
  }

  /** What the prepare functions establish before a statement is executed. */
  ghost predicate Prepared(tables: seq<Table>, s: Statement) {
    match s
    case Create(name, schema) => |tables| < MAX_TABLES && |name| < TABLE_NAME_MAX && ValidSchema(schema)
    case Insert(i, vals, key) =>
      && i < |tables| && Typed(tables[i].schema.fields, vals) && ShortTexts(vals, seq(|vals|, _ => true))
      && (|vals| > 0 ==> key == KeyOfValue(vals[0]))
    case Delete(i, _) => i < |tables|
    case Update(i, key, mask, vals) => i < |tables| && UpdatePrepared(tables[i].schema, mask, vals)
    case Select(i, _) => i < |tables|
  }

  ghost predicate UpdatePrepared(schema: Schema, mask: seq<bool>, vals: seq<Value>) {
    && |vals| == |mask| == |schema.fields| && ShortTexts(vals, mask)
    && (forall i :: 0 <= i < |mask| && mask[i] ==> Fits(schema.fields[i], vals[i]))
  }

  /** The key of a row after an UPDATE: that of the new first column, if there is one. */
  function NewKey(key: Key, mask: seq<bool>, vals: seq<Value>): Key {
    if |mask| > 0 && |vals| > 0 && mask[0] then KeyOfValue(vals[0]) else key
  }

  ghost predicate RowFits(schema: Schema, row: Row) {
    |row| == schema.rowSize && FieldsFit(schema.fields, schema.rowSize)
  }

  /** The table with the row of `key` changed, under its new key. */
  ghost function RowMoved(t: Table, key: Key, mask: seq<bool>, vals: seq<Value>): Table
    requires UpdatePrepared(t.schema, mask, vals) && key in t.rows && RowFits(t.schema, t.rows[key])
  {
    t.(rows := (t.rows - {key})[NewKey(key, mask, vals) := UpdatedRow(t.schema, t.rows[key], mask, vals, |mask|)])
  }

  /** The catalog of maps after a statement. */
  ghost function After(tables: seq<Table>, s: Statement): seq<Table> {
    if !Prepared(tables, s) then tables else
    match s
    case Create(name, schema) => tables + [Table(name, schema, map[])]
    case Insert(i, vals, key) =>
      var t := tables[i];
      if key in t.rows || !Sized(t.schema.fields) then tables
      else tables[i := t.(rows := t.rows[key := RowBytes(t.schema.fields, vals)])]
    case Delete(i, key) =>
      var t := tables[i];
      tables[i := t.(rows := t.rows - {key})]
    case Update(i, key, mask, vals) =>
      var t := tables[i];
      if key in t.rows && RowFits(t.schema, t.rows[key])
      then tables[i := RowMoved(t, key, mask, vals)]
      else tables
    case Select(_, _) => tables
  }

  /** The answer of a statement. For SELECT this determines the rows: they are the matching entries
      of the map in ascending key order. */
  ghost predicate Answers(tables: seq<Table>, s: Statement, r: Outcome)
    requires Prepared(tables, s)
  {
    match s
    case Create(_, _) => r == Success
    case Insert(i, _, key) => r == if key in tables[i].rows then DuplicateKey else Success
    case Delete(i, key) => r == if key in tables[i].rows then Success else KeyNotFound
    case Update(i, key, _, _) => r == if key in tables[i].rows then Success else KeyNotFound
    case Select(i, w) => r.Rows? && Listing(tables[i].rows, w, r.rows)
  }

  // The rows, column by column

  /** The row reads back as these values. */
  ghost predicate Reads(schema: Schema, row: Row, vals: seq<Value>) {
    && RowFits(schema, row) && |vals| == |schema.fields|
    && forall j {:trigger vals[j]} :: 0 <= j < |vals| ==> FieldValue(schema.fields[j], row) == vals[j]
  }

  /** A packed row reads back as the values it was packed from. */
  lemma RowReads(schema: Schema, vals: seq<Value>)
    requires ValidSchema(schema) && Typed(schema.fields, vals) && ShortTexts(vals, seq(|vals|, _ => true))
    ensures Reads(schema, RowBytes(schema.fields, vals), vals)
  {
    var row := RowBytes(schema.fields, vals);
    PackedRowFits(schema, vals);
    hide Packed, RowBytes, FieldValue, ValidSchema, Typed, ShortTexts;
    forall j {:trigger vals[j]} | 0 <= j < |vals| ensures FieldValue(schema.fields[j], row) == vals[j] {
      ColumnReads(schema, vals, j);
    }
  }

  lemma PackedRowFits(schema: Schema, vals: seq<Value>)
    requires ValidSchema(schema) && Typed(schema.fields, vals)
    ensures RowFits(schema, RowBytes(schema.fields, vals)) && |vals| == |schema.fields|
  {
    RowBytesLength(schema.fields, schema.rowSize, vals);
    PackedPrefix(schema.fields, schema.rowSize, 0);
    hide Packed, RowBytes, Fits;
  }

  lemma ColumnReads(schema: Schema, vals: seq<Value>, j: nat)
    requires ValidSchema(schema) && Typed(schema.fields, vals) && ShortTexts(vals, seq(|vals|, _ => true))
    requires j < |vals| && RowFits(schema, RowBytes(schema.fields, vals)) && |vals| == |schema.fields|
    ensures FieldValue(schema.fields[j], RowBytes(schema.fields, vals)) == vals[j]
  {
    assert vals[j].Num? || |vals[j].s| < TEXT_SIZE;
    hide *;
    RowRoundTrip(schema, vals, j);
  }

  /** An INSERT of a new key: one entry more, which reads back as the values of the statement, under the key
      of the first of them. */
  lemma InsertedEntry(tables: seq<Table>, i: nat, vals: seq<Value>, key: Key)
    requires Prepared(tables, Insert(i, vals, key)) && ValidSchema(tables[i].schema) && key !in tables[i].rows
    ensures var t, rows := tables[i], After(tables, Insert(i, vals, key))[i].rows;
            && rows.Keys == t.rows.Keys + {key} && (forall k :: k in t.rows ==> rows[k] == t.rows[k])
            && Reads(t.schema, rows[key], vals) && (vals != [] ==> IsKeyOf(key, vals[0]))
  {
    var schema := tables[i].schema;
    RowReads(schema, vals);
    if vals != [] { KeyIs(vals[0]); }
    hide Packed, RowBytes, Reads, IsKeyOf;
  }

  /** An UPDATE of an entry: it moves to the key of its new first column, if that is written; columns that are
      written read back as the new values, the others as before; all other entries stay. */
  lemma UpdatedEntry(tables: seq<Table>, i: nat, key: Key, mask: seq<bool>, vals: seq<Value>) returns (newKey: Key)
    requires Prepared(tables, Update(i, key, mask, vals)) && ValidSchema(tables[i].schema)
    requires key in tables[i].rows && RowFits(tables[i].schema, tables[i].rows[key])
    ensures if mask != [] && mask[0] then IsKeyOf(newKey, vals[0]) else newKey == key
    ensures mask != [] && mask[0] && vals[0].Num? ==> newKey == vals[0].n
    ensures var t, rows := tables[i], After(tables, Update(i, key, mask, vals))[i].rows;
            && rows.Keys == t.rows.Keys - {key} + {newKey} && (forall k :: k in rows && k != newKey ==> rows[k] == t.rows[k])
            && RowFits(t.schema, rows[newKey])
            && forall j {:trigger vals[j]} :: 0 <= j < |vals| ==>
                 FieldValue(t.schema.fields[j], rows[newKey]) == if mask[j] then vals[j] else FieldValue(t.schema.fields[j], t.rows[key])
  {
    var t := tables[i];
    newKey := NewKey(key, mask, vals);
    if mask != [] { KeyIs(vals[0]); }
    PackedPrefix(t.schema.fields, t.schema.rowSize, 0);
    UpdatedRowValues(t.schema, t.rows[key], mask, vals, |mask|);
    forall j | 0 <= j < |vals| && mask[j] ensures Stored(vals[j]) == vals[j] {
      if vals[j].Text? { assert vals[j].s[..|vals[j].s|] == vals[j].s; }
    }
    hide Packed, UpdatedRow, FieldValue, IsKeyOf;
  }

  /** Two INSERTs of different numbers into an empty table both succeed; of the same number only the first. */
  lemma TwoNumbers(tables: seq<Table>, i: nat, a: seq<Value>, b: seq<Value>, k: Key, l: Key, r: Outcome)
    requires Prepared(tables, Insert(i, a, k)) && Prepared(tables, Insert(i, b, l)) && ValidSchema(tables[i].schema)
    requires tables[i].rows == map[] && a != [] && b != [] && a[0].Num? && b[0].Num?
    requires var after := After(tables, Insert(i, a, k));
             Prepared(after, Insert(i, b, l)) ==> Answers(after, Insert(i, b, l), r)
    ensures Answers(tables, Insert(i, a, k), Success)
    ensures r == if a[0].n == b[0].n then DuplicateKey else Success
  {
    InsertedEntry(tables, i, a, k);
    InsertedEntry(tables, i, b, l);
    hide RowBytes, IsKeyOf, Packed, Reads;
    KeyIs(a[0]);
    KeyIs(b[0]);
    assert k == a[0].n && l == b[0].n by { NumberKey(k, a[0]); NumberKey(l, b[0]); }
    assert After(tables, Insert(i, a, k))[i].schema == tables[i].schema;
  }

  lemma NumberKey(key: Key, v: Value)
    requires IsKeyOf(key, v) && v.Num?
    ensures key == v.n
  {
  }

  /** The catalog of maps before statement i of a run. */
  ghost function Later(tables: seq<Table>, stmts: seq<Statement>, i: nat): seq<Table>
    requires i <= |stmts|
  {
    if i == 0 then tables else After(Later(tables, stmts, i - 1), stmts[i - 1])
  }

  ghost predicate AllPrepared(tables: seq<Table>, stmts: seq<Statement>) {
    forall i {:trigger Later(tables, stmts, i)} :: 0 <= i < |stmts| ==> Prepared(Later(tables, stmts, i), stmts[i])
  }

  /** Of all tables only number t may have got other rows. */
  ghost predicate OnlyTable(was: seq<Table>, now: seq<Table>, t: nat) {
    && |now| == |was|
    && forall i {:trigger now[i]} :: 0 <= i < |was| ==>
         if i == t then now[i].name == was[i].name && now[i].schema == was[i].schema else now[i] == was[i]
  }

  /** The tables are those of the specification, but for the rows of the ruined ones. */
  ghost predicate Agree(tables: seq<Table>, spec: seq<Table>, ruined: set<nat>) {
    && |tables| == |spec|
    && forall i {:trigger tables[i]} :: 0 <= i < |tables| ==>
         tables[i].name == spec[i].name && tables[i].schema == spec[i].schema && (i !in ruined ==> tables[i] == spec[i])
  }

  lemma PreparedAgree(tables: seq<Table>, spec: seq<Table>, ruined: set<nat>, s: Statement)
    requires Agree(tables, spec, ruined)
    ensures Prepared(tables, s) <==> Prepared(spec, s)
  {
    if !s.Create? && s.table < |tables| { assert tables[s.table].schema == spec[s.table].schema; }
  }

  /** What a statement answers does not depend on other tables. */
  lemma AnswersAgree(tables: seq<Table>, spec: seq<Table>, ruined: set<nat>, s: Statement, r: Outcome)
    requires Agree(tables, spec, ruined) && Prepared(tables, s) && Prepared(spec, s) && Answers(tables, s, r)
    requires s.Create? || s.table !in ruined
    ensures Answers(spec, s, r)
  {
    if !s.Create? { assert tables[s.table] == spec[s.table]; }
  }

  /** A statement that does to its own table what it should, unless that is ruined, keeps the agreement. */
  lemma AfterAgree(tables: seq<Table>, spec: seq<Table>, ruined: set<nat>, s: Statement, tables': seq<Table>, ruined': set<nat>)
    requires Agree(tables, spec, ruined) && Prepared(tables, s) && Prepared(spec, s) && ruined <= ruined'
    requires forall i :: i in ruined' ==> i < |tables|
    requires if s.Create? then tables' == After(tables, s)
             else OnlyTable(tables, tables', s.table) && (s.table !in ruined' ==> tables' == After(tables, s))
    ensures Agree(tables', After(spec, s), ruined')
  {
    hide Prepared, UpdatedRow, RowFits, Sized;
    var spec' := After(spec, s);
    if !s.Create? {
      PreparedTable(tables, s);
      PreparedTable(spec, s);
      assert tables[s.table].schema == spec[s.table].schema;
      AfterOthers(tables, s);
      AfterOthers(spec, s);
      if s.table !in ruined' { AfterSame(tables, spec, s); }
    }
  }

  lemma PreparedTable(tables: seq<Table>, s: Statement)
    requires Prepared(tables, s) && !s.Create?
    ensures s.table < |tables|
  {
  }

  lemma AfterOthers(tables: seq<Table>, s: Statement)
    requires !s.Create?
    ensures OnlyTable(tables, After(tables, s), s.table)
  {
    hide UpdatedRow;
  }

  lemma AfterSame(tables: seq<Table>, spec: seq<Table>, s: Statement)
    requires Prepared(tables, s) && Prepared(spec, s) && !s.Create? && s.table < |tables| == |spec| && tables[s.table] == spec[s.table]
    ensures |After(tables, s)| == |tables| && |After(spec, s)| == |spec| && After(tables, s)[s.table] == After(spec, s)[s.table]
  {
    hide UpdatedRow;
  }

  /** The matching entries of a map, each once, in ascending key order. */
  ghost predicate Listing(m: map<Key, Row>, w: Where, rows: seq<Cell>) {
    && SortedCells(rows)
    && forall c: Cell :: c in rows <==> c.key in m && m[c.key] == c.row && Matches(w, c.key)
  }

  lemma {:induction false} ListingUnique(m: map<Key, Row>, w: Where, a: seq<Cell>, b: seq<Cell>)
    requires Listing(m, w, a) && Listing(m, w, b)
    ensures a == b
  {
    SameCells(a, b);
  }

  ghost predicate SameMembers(a: seq<Cell>, b: seq<Cell>) { forall c: Cell :: c in a <==> c in b }

  lemma LastOnce(a: seq<Cell>)
    requires SortedCells(a) && a != []
    ensures a == a[..|a| - 1] + [a[|a| - 1]] && a[|a| - 1] !in a[..|a| - 1]
  {
    forall k | 0 <= k < |a| - 1 ensures a[k] != a[|a| - 1] {}
  }

  /** Two sorted lists of the same cells are equal. */
  lemma {:induction false} SameCells(a: seq<Cell>, b: seq<Cell>)
    requires SortedCells(a) && SortedCells(b) && SameMembers(a, b)
    ensures a == b
  {
    assert b != [] ==> b[0] in b && b[0] in a;
    if a != [] {
      assert a[0] in a && a[0] in b;
      SameLast(a, b);
      LastOnce(a);
      LastOnce(b);
      hide SortedCells;
      SameCells(a[..|a| - 1], b[..|b| - 1]);
    }
  }

  lemma SameLast(a: seq<Cell>, b: seq<Cell>)
    requires SortedCells(a) && SortedCells(b) && SameMembers(a, b) && a != [] && b != []
    ensures a[|a| - 1] == b[|b| - 1] && SortedCells(a[..|a| - 1]) && SortedCells(b[..|b| - 1])
    ensures SameMembers(a[..|a| - 1], b[..|b| - 1])
  {
    var x, y := a[|a| - 1], b[|b| - 1];
    assert x in b && y in a;
    LastOnce(a);
    LastOnce(b);
    assert x == y;
    var a', b' := a[..|a| - 1], b[..|b| - 1];
    forall c: Cell | true ensures c in a' <==> c in b' {
      assert c in a <==> c in a[..|a| - 1] || c == x;
      assert c in b <==> c in b[..|b| - 1] || c == y;
    }
  }

  // Sorted cells as a map

  ghost function MapOf(cs: seq<Cell>): map<Key, Row> {
    if cs == [] then map[] else MapOf(cs[..|cs| - 1])[cs[|cs| - 1].key := cs[|cs| - 1].row]
  }

  ghost predicate Entries(m: map<Key, Row>, cs: seq<Cell>) {
    forall c: Cell :: c in cs <==> c.key in m && m[c.key] == c.row
  }

  /** The entries of the map are the cells of the list. */
  lemma {:induction false} MapOfCells(cs: seq<Cell>)
    requires SortedCells(cs)
    ensures Entries(MapOf(cs), cs)
    decreases |cs|, 0
  {
    if cs != [] {
      var n := |cs| - 1;
      var m := MapOf(cs[..n]);
      MapOfCells(cs[..n]);
      LastOnce(cs);
      KeyInMap(cs[..n], cs[n].key);
    }
  }

  lemma KeyInMap(cs: seq<Cell>, k: Key)
    requires SortedCells(cs)
    ensures k in MapOf(cs) <==> exists i :: 0 <= i < |cs| && cs[i].key == k
    decreases |cs|, 1
  {
    MapOfCells(cs);
    if k in MapOf(cs) { assert Cell(k, MapOf(cs)[k]) in cs; }
    if i :| 0 <= i < |cs| && cs[i].key == k { assert cs[i] in cs; }
  }

  lemma MapIs(cs: seq<Cell>, m: map<Key, Row>)
    requires SortedCells(cs) && Entries(m, cs)
    ensures MapOf(cs) == m
  {
    MapOfCells(cs);
    var r := MapOf(cs);
    forall k | k in r ensures k in m && m[k] == r[k] { assert Cell(k, r[k]) in cs; }
    forall k | k in m ensures k in r { assert Cell(k, m[k]) in cs; }
  }

  lemma SortedWithout(cs: seq<Cell>, pos: nat)
    requires SortedCells(cs) && pos < |cs|
    ensures SortedCells(cs[..pos] + cs[pos + 1..])
    ensures forall c :: c in cs[..pos] + cs[pos + 1..] <==> c in cs && c.key != cs[pos].key
  {
    var cs' := cs[..pos] + cs[pos + 1..];
    forall i | 0 <= i < |cs'| ensures cs'[i] == cs[if i < pos then i else i + 1] {}
    forall c | c in cs && c.key != cs[pos].key ensures c in cs' {
      var i :| 0 <= i < |cs| && cs[i] == c;
      assert cs'[if i < pos then i else i - 1] == c;
    }
  }

  lemma MapRemove(cs: seq<Cell>, pos: nat)
    requires SortedCells(cs) && pos < |cs|
    ensures SortedCells(cs[..pos] + cs[pos + 1..])
    ensures MapOf(cs[..pos] + cs[pos + 1..]) == MapOf(cs) - {cs[pos].key}
  {
    MapOfCells(cs);
    SortedWithout(cs, pos);
    hide SortedCells, MapOf;
    MapIs(cs[..pos] + cs[pos + 1..], MapOf(cs) - {cs[pos].key});
  }

  lemma PutThenDrop<T>(cs: seq<T>, pos: nat, c: T)
    requires pos <= |cs|
    ensures var cs' := cs[..pos] + [c] + cs[pos..]; cs'[..pos] + cs'[pos + 1..] == cs && cs'[pos] == c
  {
  }

  lemma MapAdd(cs: seq<Cell>, cs': seq<Cell>, pos: nat, c: Cell)
    requires SortedCells(cs) && SortedCells(cs') && pos <= |cs| && cs' == cs[..pos] + [c] + cs[pos..]
    ensures MapOf(cs') == MapOf(cs)[c.key := c.row] && c.key !in MapOf(cs)
  {
    hide *;
    PutThenDrop(cs, pos, c);
    MapRemove(cs', pos);
    CellInMap(cs', pos);
    PutBack(MapOf(cs'), MapOf(cs), c.key, c.row);
  }

  lemma CellInMap(cs: seq<Cell>, pos: nat)
    requires SortedCells(cs) && pos < |cs|
    ensures cs[pos].key in MapOf(cs) && MapOf(cs)[cs[pos].key] == cs[pos].row
  {
    MapOfCells(cs);
    assert cs[pos] in cs;
  }

  lemma PutBack<K, V>(m: map<K, V>, less: map<K, V>, k: K, v: V)
    requires k in m && m[k] == v && less == m - {k}
    ensures m == less[k := v] && k !in less
  {
  }

  /** A cell is written over by another that keeps the order. */
  lemma MapMoved(cs: seq<Cell>, pos: nat, c: Cell)
    requires SortedCells(cs) && pos < |cs| && SortedCells(cs[pos := c])
    ensures MapOf(cs[pos := c]) == (MapOf(cs) - {cs[pos].key})[c.key := c.row]
  {
    var cs' := cs[pos := c];
    assert cs[..pos] + cs[pos + 1..] == cs'[..pos] + cs'[pos + 1..] && cs'[pos] == c;
    hide SortedCells, MapOf;
    MapRemove(cs, pos);
    MapRemove(cs', pos);
    CellInMap(cs', pos);
    PutBack(MapOf(cs'), MapOf(cs) - {cs[pos].key}, c.key, c.row);
  }

  /** The rows a scan prints are the listing of the map. */
  lemma FilterLists(cs: seq<Cell>, w: Where)
    requires SortedCells(cs)
    ensures Listing(MapOf(cs), w, Filter(cs, w))
  {
    MapOfCells(cs);
    FilterExact(cs, w);
  }
}
