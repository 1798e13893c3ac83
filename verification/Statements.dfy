/** From text to execution: what the parsers accept is what execution asks for. */
module Statements {
  import opened Layout
  import opened Rows
  import opened Catalog
  import opened Parser
  import opened TablesOnPages
  import Databases
  import Tables

  lemma TokenIsCString(s: seq<Byte>, at: At)
    requires at.pos <= |s| && CString(s)
    ensures Take(s, at).0.Some? ==> CString(Take(s, at).0.value)
  {
  }

  /** The values read so far suit their columns. */
  ghost predicate Suited(fields: seq<Field>, vals: seq<Value>) {
    |vals| <= |fields| && forall i :: 0 <= i < |vals| ==>
      Fits(fields[i], vals[i]) && (vals[i].Text? ==> |vals[i].s| < TEXT_SIZE)
  }

  lemma {:induction false} ColumnsSuit(s: seq<Byte>, at: At, fields: seq<Field>, done: seq<Value>)
    requires at.pos <= |s| && CString(s) && Sized(fields) && Suited(fields, done)
    ensures var r := ParseColumns(s, at, fields, done); r.Columns? ==> |r.vals| == |fields| && Suited(fields, r.vals)
    decreases |fields| - |done|
  {
    TokenIsCString(s, at);
    hide Take, TakeWord, Atoi, CString;
    var i := |done|;
    if i < |fields| {
      var (token, at1) := Take(s, at);
      if token.Some? {
        var v := ColumnValue(fields[i], token.value);
        if v.Some? {
          assert Suited(fields, done + [v.value]);
          hide Suited, Sized, ColumnValue;
          ColumnsSuit(s, at1, fields, done + [v.value]);
          ColumnsSuit(s, TakeWord(s, at1, [COMMA]).1, fields, done + [v.value]);
        }
      }
    }
  }

  /** The tables of a database and its catalog agree on names and schemas. */
  ghost predicate SameSchemas(catalog: seq<TableDef>, tables: seq<Tables.Table>) {
    |tables| == |catalog| && forall i :: 0 <= i < |catalog| ==> tables[i].schema == catalog[i].schema && ValidSchema(catalog[i].schema)
  }

  /** An INSERT that parses may be executed. */
  lemma ParsedInsert(line: seq<Byte>, catalog: seq<TableDef>, tables: seq<Tables.Table>, unset: Key)
    requires CString(line) && SameSchemas(catalog, tables) && ParseInsert(line, catalog, unset).result == PrepareSuccess
    ensures var s := ParseInsert(line, catalog, unset).statement;
            Tables.Prepared(tables, Tables.Insert(s.table, s.vals, s.key))
  {
    hide Take, TakeWord, Bytes, CString, ParseValues;
    var (insert, at1) := TakeWord(line, At(0, 0), Bytes("insert"));
    var (into, at2) := TakeWord(line, at1, Bytes("into"));
    var (name, at3) := Take(line, at2);
    var index := FindFrom(catalog, name.value, 0);
    FindFirst(catalog, name.value, 0);
    assert ParseInsert(line, catalog, unset) == ParseValues(line, at3, catalog, index.value, unset);
    ParsedValues(line, at3, catalog, index.value, unset);
    var s := ParseInsert(line, catalog, unset).statement;
    assert tables[s.table].schema == catalog[s.table].schema;
    assert Tables.ShortTexts(s.vals, seq(|s.vals|, _ => true));
  }

  lemma ParsedValues(line: seq<Byte>, at: At, catalog: seq<TableDef>, index: nat, unset: Key)
    requires at.pos <= |line| && CString(line) && index < |catalog| && ValidSchema(catalog[index].schema)
    requires ParseValues(line, at, catalog, index, unset).result == PrepareSuccess
    ensures var s := ParseValues(line, at, catalog, index, unset).statement; var fields := catalog[index].schema.fields;
            s.table == index && |s.vals| == |fields| && Suited(fields, s.vals) && s.key == KeyOf(s.vals, unset)
  {
    hide Take, TakeWord, Bytes, CString, ParseColumns, Packed;
    var (values, at4) := TakeWord(line, at, Bytes("values"));
    var (open, at5) := TakeWord(line, at4, [LPAREN]);
    ColumnsSuit(line, at5, catalog[index].schema.fields, []);
  }

  /** A CREATE that parses may be executed. */
  lemma ParsedCreate(line: seq<Byte>, catalog: seq<TableDef>, tables: seq<Tables.Table>)
    requires SameSchemas(catalog, tables) && ParseCreate(line, catalog).result == PrepareSuccess
    ensures var r := ParseCreate(line, catalog); Tables.Prepared(tables, Tables.Create(r.name, r.schema))
  {
    CreateIsValid(line, catalog);
  }

  lemma DatabaseSchemas(db: Databases.Database)
    requires db.Valid()
    ensures SameSchemas(db.catalog, db.Means())
  {
    forall i | 0 <= i < |db.catalog| ensures ValidSchema(db.catalog[i].schema) && db.Means()[i].schema == db.catalog[i].schema {
      OneTable(db.store.pages, db.catalog, db.views, db.shrunk, db.ruined, i);
      MeaningAt(db.store.pages, db.catalog, db.views, i);
    }
  }

  /** INSERT from the text of a line: parsing and execution together add the row that was written
      there, or report why not. Other tables keep their rows in any case. */
  method InsertLine(db: Databases.Database, line: seq<Byte>, unset: Key) returns (prepared: PrepareResult, r: Tables.Outcome)
    requires db.Valid() && CString(line)
    modifies db, db.store
    ensures db.Valid() && prepared == ParseInsert(line, old(db.catalog), unset).result && db.catalog == old(db.catalog)
    ensures prepared != PrepareSuccess ==>
              db.Means() == old(db.Means()) && db.store.pages == old(db.store.pages) && db.ruined == old(db.ruined)
    ensures prepared == PrepareSuccess ==>
              var s := ParseInsert(line, old(db.catalog), unset).statement;
              var insert := Tables.Insert(s.table, s.vals, s.key);
              && Tables.Prepared(old(db.Means()), insert) && Tables.OnlyTable(old(db.Means()), db.Means(), s.table)
              && (s.table !in old(db.ruined) ==>
                    && Tables.Answers(old(db.Means()), insert, r) && db.Means() == Tables.After(old(db.Means()), insert)
                    && (s.table in db.ruined <==> !old(Sound(db.store.pages, db.catalog, db.views, insert)))
                    && (s.table in db.ruined ==> Broken(db.store.pages, db.catalog, insert)))
  {
    hide ParseInsert, DatabaseOk, Meaning, Tables.After, Tables.Answers, InsertSound, NoTree, Databases.Synced, Tables.OnlyTable;
    r := Tables.Success;
    var p := PrepareInsert(line, db.catalog, unset);
    prepared := p.result;
    if prepared == PrepareSuccess {
      DatabaseSchemas(db);
      ParsedInsert(line, db.catalog, db.Means(), unset);
      r := db.ExecuteInsert(p.statement.table, p.statement.vals, p.statement.key);
    }
  }
}
