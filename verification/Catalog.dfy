/** The catalog: table definitions in the order they were created (include/database.h). */
module Catalog {
  import opened Layout
  import opened Rows

  const MAX_TABLES: nat := 5
  const TABLE_NAME_MAX: nat := 32

  datatype TableDef = TableDef(name: seq<Byte>, root: nat, schema: Schema)

  datatype Option<T> = None | Some(value: T)

  /** strncpy(dest, name, 31): what the catalog keeps of a name. */
  function StoredName(name: seq<Byte>): seq<Byte> { name[..Min(|name|, TABLE_NAME_MAX - 1)] }

  /** At most 31 characters are kept. */
  lemma StoredMeans(name: seq<Byte>)
    ensures StoredName(name) == if |name| > 31 then name[..31] else name
  {
  }

  function FindFrom(tables: seq<TableDef>, name: seq<Byte>, i: nat): Option<nat>
    requires i <= |tables|
    decreases |tables| - i
  {
    if i == |tables| then None else if tables[i].name == name then Some(i) else FindFrom(tables, name, i + 1)
  }

  /** find_table: the first table of that name. */
  method FindTable(tables: seq<TableDef>, name: seq<Byte>) returns (index: Option<nat>)
    ensures index == FindFrom(tables, name, 0)
  {
    var i := 0;
    while i < |tables|
      invariant i <= |tables| && FindFrom(tables, name, i) == FindFrom(tables, name, 0)
    {
      if tables[i].name == name { return Some(i); }
      i := i + 1;
    }
    index := None;
  }

  lemma {:induction false} FindFirst(tables: seq<TableDef>, name: seq<Byte>, i: nat)
    requires i <= |tables|
    ensures match FindFrom(tables, name, i)
            case None => forall j :: i <= j < |tables| ==> tables[j].name != name
            case Some(k) => i <= k < |tables| && tables[k].name == name
                            && forall j :: i <= j < k ==> tables[j].name != name
    decreases |tables| - i
  {
    if i < |tables| && tables[i].name != name { FindFirst(tables, name, i + 1); }
  }

  lemma {:induction false} FindBehind(tables: seq<TableDef>, def: TableDef, name: seq<Byte>, i: nat)
    requires i <= |tables| && forall j :: i <= j < |tables| ==> tables[j].name != name
    ensures FindFrom(tables + [def], name, i) == if def.name == name then Some(|tables|) else None
    decreases |tables| - i
  {
    var all := tables + [def];
    if i < |tables| {
      assert all[i] == tables[i];
      FindBehind(tables, def, name, i + 1);
    } else {
      assert all[i] == def && FindFrom(all, name, i + 1) == None;
    }
  }

  /** A table created under a name that was not found is found afterwards exactly when the name
      survived the copy into the catalog. */
  lemma CreatedTableFound(tables: seq<TableDef>, name: seq<Byte>, def: TableDef)
    requires FindFrom(tables, name, 0) == None && def.name == StoredName(name)
    ensures FindFrom(tables + [def], name, 0) == (if |name| < TABLE_NAME_MAX then Some(|tables|) else None)
    ensures def.name == if |name| > 31 then name[..31] else name
  {
    FindFirst(tables, name, 0);
    FindBehind(tables, def, name, 0);
    if |name| < TABLE_NAME_MAX { assert def.name == name; } else { assert |def.name| < |name|; }
  }
}
