/** Statement execution (src/statement.c) over several tables in one page store, opening and
    closing (src/database.c), and whole runs of statements. */
module Databases {
  import opened Layout
  import opened Tree
  import opened TreeInsert
  import opened Btree
  import opened TreeContents
  import opened TreeLeafUp
  import opened TreeClear
  import opened TreeRekey
  import opened TreeSearch
  import opened TreeStanding
  import opened Rows
  import opened Catalog
  import opened TablesOnPages
  import Sel = Select
  import Tables
  import Balance
  import Verify
  import Box

  /** The database file: page 0 holds the catalog, the other pages nodes. */
  datatype File = File(catalog: seq<TableDef>, pages: seq<Node>)

  /** Pages that are not dirty are in the file as they are in memory. */
  ghost predicate Synced(pages: seq<Node>, dirty: set<nat>, page0: seq<TableDef>, file: File) {
    && |file.pages| <= |pages|
    && (forall i :: 0 < i < |pages| && i !in dirty ==> i < |file.pages| && file.pages[i] == pages[i])
    && (0 !in dirty ==> |file.pages| > 0 && file.catalog == page0)
  }

  lemma StillSynced(pages: seq<Node>, dirty: set<nat>, page0: seq<TableDef>, file: File, pages': seq<Node>, dirty': set<nat>)
    requires Synced(pages, dirty, page0, file) && dirty <= dirty' && Tracked(pages, pages', dirty')
    ensures Synced(pages', dirty', page0, file)
  {
  }

  class Database {
    const store: PageStore
    var catalog: seq<TableDef>
    var page0: seq<TableDef>
    var file: File
    ghost var views: seq<View>
    ghost var shrunk: set<nat>
    ghost var ruined: set<nat>

    /** db_open: the catalog of an existing file, or an empty one whose page 0 is yet to be written. */
    constructor Open(file: File, ghost views: seq<View>, ghost shrunk: set<nat>, ghost ruined: set<nat>)
      requires if file.pages == [] then views == [] && shrunk == ruined == {} else
                 && DatabaseOk(file.pages, file.catalog, views, shrunk, ruined)
                 && (forall i :: i in shrunk ==> i < |file.catalog|) && (forall i :: i in ruined ==> i < |file.catalog|)
      ensures Valid() && fresh(store) && this.file == file && this.views == views && this.shrunk == shrunk && this.ruined == ruined
      ensures catalog == if file.pages == [] then [] else file.catalog
      ensures file.pages != [] ==> store.pages == file.pages && store.dirty == {}
    {
      this.store := new PageStore();
      this.file, this.views, this.shrunk, this.ruined := file, views, shrunk, ruined;
      this.catalog, this.page0 := [], [];
      new;
      if |file.pages| > 0 {
        store.pages := file.pages;
        catalog, page0 := file.catalog, file.catalog;
      } else {
        var zero := store.NewPage();
        store.MarkPageDirty(zero);
      }
    }

    ghost predicate Valid()
      reads this, store
    {
      && |views| == |catalog| && DatabaseOk(store.pages, catalog, views, shrunk, ruined)
      && page0 == catalog
      && Synced(store.pages, store.dirty, page0, file)
      && (forall i :: i in shrunk ==> i < |catalog|) && (forall i :: i in ruined ==> i < |catalog|)
    }

    ghost function Means(): seq<Tables.Table>
      reads this, store
      requires |views| == |catalog|
    {
      Meaning(store.pages, catalog, views)
    }

    /** The rows of a table in the order of its chain of leaves. */
    ghost function Chain(index: nat): seq<Cell>
      reads this, store
      requires index < |views|
    {
      Contents(store.pages, views[index].order)
    }

    /** A scan of the whole table would print the whole chain, because it begins with its first leaf. */
    ghost predicate Whole(index: nat)
      reads this, store
      requires index < |views| == |catalog|
    {
      Sel.Front(store.pages, views[index], TreeOf(catalog[index]))
    }

    /** find_node from the root of a table. */
    method Find(index: nat, key: Key) returns (page: nat, cell: nat)
      requires Valid() && index < |catalog|
      ensures Pointed(store.pages, views[index], TreeOf(catalog[index]), page, cell)
      ensures Walkable(store.pages, views[index].level) && catalog[index].root in views[index].level
      ensures page == Search(store.pages, views[index].level, catalog[index].root, key) && cell == SearchCell(store.pages[page].cells, key)
      ensures index !in ruined ==> Found(store.pages, views[index], page, cell, key)
    {
      OneTable(store.pages, catalog, views, shrunk, ruined, index);
      StandingWalkable(store.pages, views[index], TreeOf(catalog[index]));
      hide DatabaseOk, Standing;
      page, cell := store.FindNode(TreeOf(catalog[index]), catalog[index].root, key, views[index]);
    }

    /** execute_insert. A table in order gets the row, or the duplicate is reported; it stays in order
        exactly when the key is present or the insert is clear. */
    method ExecuteInsert(index: nat, vals: seq<Value>, key: Key) returns (r: Tables.Outcome)
      requires Valid() && Tables.Prepared(Means(), Tables.Insert(index, vals, key))
      modifies this, store
      ensures Valid() && catalog == old(catalog) && shrunk == old(shrunk)
      ensures OnlyPages(old(store.pages), old(views[index].level), store.pages) && views == old(views)[index := views[index]]
      ensures Tables.OnlyTable(old(Means()), Means(), index)
      ensures Handled(Tables.Insert(index, vals, key), r, old(store.pages), old(views[index]), catalog[index], old(Chain(index)), Chain(index))
      ensures index !in old(ruined) ==>
                && Tables.Answers(old(Means()), Tables.Insert(index, vals, key), r)
                && Means() == Tables.After(old(Means()), Tables.Insert(index, vals, key))
      ensures ruined == if index in old(ruined) || old(InsertSound(store.pages, catalog[index], views[index], key))
                        then old(ruined) else old(ruined) + {index}
      ensures index in ruined && index !in old(ruined) ==> NoTree(store.pages, catalog[index]) && index in shrunk
      ensures r == Tables.DuplicateKey ==> store.pages == old(store.pages) && store.dirty == old(store.dirty)
    {
      var page, cell := Find(index, key);
      var def := catalog[index];
      ghost var pages, g, chain := store.pages, views[index], Chain(index);
      OneTable(store.pages, catalog, views, shrunk, ruined, index);
      MeaningAt(store.pages, catalog, views, index);
      assert Sits(pages, g.level, def.root, key) <==> cell < |pages[page].cells| && pages[page].cells[cell].key == key;
      assert CursorOf(pages, g, def.root, key) == PlaceOf(pages, g, page, cell);
      hide DatabaseOk, Found, TableOk, TableStands, TableMeaning, Meaning, RowBytes, Packed, InsertClear, Synced, InsertSound,
           Sits, CursorOf, PlaceOf, Walkable, Handled, OnlyPages, Gained, Tables.OnlyTable, Tables.Reads, KeyMatches, IsKeyOf;
      if index !in ruined { CursorFacts(pages, catalog, views, shrunk, ruined, index, page, cell, key); }
      if cell < |store.pages[page].cells| && store.pages[page].cells[cell].key == key {
        r := Tables.DuplicateKey;
        SameTables(Means(), index);
        assert OnlyPages(pages, g.level, pages) by { SamePagesOnly(pages, g.level); }
        HandledInsert(index, vals, key, r, pages, g, def, [], chain, chain);
        return;
      }
      InsertKeyMatches(def.schema, vals, key);
      var row := PackedRow(def.schema, vals);
      PutRow(index, page, cell, key, row);
      r := Tables.Success;
      HandledInsert(index, vals, key, r, pages, g, def, row, chain, Chain(index));
    }

    /** The buffer of a row, filled. */
    static method PackedRow(schema: Schema, vals: seq<Value>) returns (row: Row)
      requires ValidSchema(schema) && Typed(schema.fields, vals) && Tables.ShortTexts(vals, seq(|vals|, _ => true))
      ensures row == RowBytes(schema.fields, vals) && Tables.Reads(schema, row, vals)
    {
      var buf := new Byte[schema.rowSize](_ => 0);
      SerializeRow(schema, vals, buf);
      Tables.RowReads(schema, vals);
      row := buf[..];
    }

    /** What a cursor says about a table in order. */
    static lemma CursorFacts(pages: seq<Node>, catalog: seq<TableDef>, views: seq<View>, shrunk: set<nat>, ruined: set<nat>, index: nat,
                             page: nat, cell: nat, key: Key)
      requires DatabaseOk(pages, catalog, views, shrunk, ruined) && index < |catalog| && index !in ruined
      requires Found(pages, views[index], page, cell, key)
      ensures page < |pages| && pages[page].Leaf?
      ensures var hit := cell < |pages[page].cells| && pages[page].cells[cell].key == key;
              && (key in Meaning(pages, catalog, views)[index].rows <==> hit)
              && (InsertSound(pages, catalog[index], views[index], key) <==> hit || InsertClear(pages, views[index], TreeOf(catalog[index]), page))
              && (index !in shrunk ==> InsertClear(pages, views[index], TreeOf(catalog[index]), page))
    {
      CursorMeans(pages, catalog, views, shrunk, ruined, index, page, cell, key);
      InsertSoundAt(pages, catalog[index], views[index], page, cell, key);
      if index !in shrunk { OldLeavesClear(pages, catalog, views, shrunk, ruined, index, page, cell, key); }
    }

    /** leaf_node_insert of a packed row at a cursor. */
    method PutRow(index: nat, page: nat, cell: nat, key: Key, row: Row)
      requires Valid() && index < |catalog| && Pointed(store.pages, views[index], TreeOf(catalog[index]), page, cell)
      requires KeyMatches(catalog[index].schema, Cell(key, row))
      requires index !in ruined ==> Found(store.pages, views[index], page, cell, key) && key !in Means()[index].rows
      modifies this, store
      ensures Valid() && catalog == old(catalog) && shrunk == old(shrunk)
      ensures OnlyPages(old(store.pages), old(views[index].level), store.pages) && views == old(views)[index := views[index]]
      ensures Tables.OnlyTable(old(Means()), Means(), index)
      ensures Gained(old(Chain(index)), Chain(index), old(PlaceOf(store.pages, views[index], page, cell)), Cell(key, row))
      ensures index !in old(ruined) ==>
                Means() == old(Means())[index := old(Means())[index].(rows := old(Means())[index].rows[key := row])]
      ensures ruined == if index in old(ruined) || old(InsertClear(store.pages, views[index], TreeOf(catalog[index]), page))
                        then old(ruined) else old(ruined) + {index}
      ensures index in ruined && index !in old(ruined) ==> NoTree(store.pages, catalog[index])
    {
      var def := catalog[index];
      ghost var pages, g := store.pages, views[index];
      PutReady(pages, catalog, views, shrunk, ruined, index, page, cell, Cell(key, row));
      hide DatabaseOk, Found, TableOk, TableMeaning, Meaning, KeyMatches, Synced, Tracked, Pointed, Taken, Settled, Insertable,
           InsertClear, Gained, PlaceOf;
      ghost var g' := store.LeafNodeInsert(TreeOf(def), page, cell, key, row, g);
      TakenPages(pages, g, TreeOf(def), page, cell, Cell(key, row), store.pages, g');
      ruined := PutEnds(pages, catalog, views, shrunk, ruined, index, page, cell, Cell(key, row), store.pages, g',
                        old(store.marked), store.marked);
      StillSynced(pages, old(store.dirty), page0, file, store.pages, store.dirty);
      views := views[index := g'];
    }

    /** execute_delete */
    method ExecuteDelete(index: nat, id: Key) returns (r: Tables.Outcome)
      requires Valid() && index < |catalog|
      modifies this, store
      ensures Valid() && catalog == old(catalog) && ruined == old(ruined)
      ensures shrunk == if r == Tables.Success then old(shrunk) + {index} else old(shrunk)
      ensures OnlyPages(old(store.pages), old(views[index].level), store.pages) && views == old(views)[index := views[index]]
      ensures Tables.OnlyTable(old(Means()), Means(), index)
      ensures Handled(Tables.Delete(index, id), r, old(store.pages), old(views[index]), catalog[index], old(Chain(index)), Chain(index))
      ensures old(Whole(index)) ==> Whole(index)
      ensures index !in ruined ==>
                && Means() == Tables.After(old(Means()), Tables.Delete(index, id))
                && Tables.Answers(old(Means()), Tables.Delete(index, id), r)
      ensures r == Tables.KeyNotFound ==> store.pages == old(store.pages) && store.dirty == old(store.dirty)
    {
      var page, cell := Find(index, id);
      hide DatabaseOk, Synced, TableOk, Found, Meaning, TableMeaning, Lost, PlaceOf, Standing, Sel.Front;
      if index !in ruined { CursorMeans(store.pages, catalog, views, shrunk, ruined, index, page, cell, id); }
      ghost var pages, g, root := store.pages, views[index], catalog[index].root;
      assert Sits(pages, g.level, root, id) <==> cell < |pages[page].cells| && pages[page].cells[cell].key == id;
      assert CursorOf(pages, g, root, id) == PlaceOf(pages, g, page, cell);
      hide Sits, CursorOf, Walkable;
      if cell < |store.pages[page].cells| && store.pages[page].cells[cell].key == id {
        RemoveRow(index, page, cell, id);
        r := Tables.Success;
      } else {
        if index !in ruined {
          ghost var rows := Means()[index].rows;
          assert rows - {id} == rows;
        }
        r := Tables.KeyNotFound;
      }
    }

    /** leaf_node_delete of the row under the cursor. */
    method RemoveRow(index: nat, page: nat, cell: nat, id: Key)
      requires Valid() && index < |catalog| && Pointed(store.pages, views[index], TreeOf(catalog[index]), page, cell)
      requires cell < |store.pages[page].cells| && store.pages[page].cells[cell].key == id
      requires index !in ruined ==> Found(store.pages, views[index], page, cell, id)
      modifies this, store
      ensures Valid() && catalog == old(catalog) && shrunk == old(shrunk) + {index} && ruined == old(ruined)
      ensures OnlyPages(old(store.pages), old(views[index].level), store.pages) && views == old(views)[index := views[index]]
      ensures Tables.OnlyTable(old(Means()), Means(), index) && views == old(views)
      ensures Lost(old(Chain(index)), Chain(index), old(PlaceOf(store.pages, views[index], page, cell)), id)
      ensures old(Whole(index)) ==> Whole(index)
      ensures index !in ruined ==>
                Means() == old(Means())[index := old(Means())[index].(rows := old(Means())[index].rows - {id})]
    {
      var def := catalog[index];
      ghost var pages, g := store.pages, views[index];
      RemoveReady(pages, catalog, views, shrunk, ruined, index, page, cell);
      hide DatabaseOk, TableMeaning, Meaning, Synced, Tracked, Standing, Inv, Pointed, Lost, Found, PlaceOf, Sel.Front, Tables.OnlyTable,
           Contents;
      store.LeafNodeDelete(TreeOf(def), page, cell, g);
      DeleteDone(pages, catalog, views, shrunk, ruined, index, page, cell, id, store.pages);
      Sel.FrontStays(pages, store.pages, views[index], TreeOf(def), page);
      StillSynced(pages, old(store.dirty), page0, file, store.pages, store.dirty);
      shrunk := shrunk + {index};
    }

    static lemma RemoveReady(pages: seq<Node>, catalog: seq<TableDef>, views: seq<View>, shrunk: set<nat>, ruined: set<nat>, index: nat,
                             page: nat, cell: nat)
      requires DatabaseOk(pages, catalog, views, shrunk, ruined) && index < |catalog|
      requires Pointed(pages, views[index], TreeOf(catalog[index]), page, cell)
      ensures Standing(pages, views[index], TreeOf(catalog[index]))
      ensures page in views[index].level && page < |pages| && pages[page].Leaf?
      ensures index !in ruined ==> Inv(pages, views[index], TreeOf(catalog[index]), 0)
    {
      OneTable(pages, catalog, views, shrunk, ruined, index);
    }

    /** execute_update. A new first column rewrites the key in place: a table in order stays so exactly
        when a search for the new key ends beside the row. */
    method ExecuteUpdate(index: nat, key: Key, mask: seq<bool>, vals: seq<Value>) returns (r: Tables.Outcome)
      requires Valid() && Tables.Prepared(Means(), Tables.Update(index, key, mask, vals))
      modifies this, store
      ensures Valid() && catalog == old(catalog) && shrunk == old(shrunk)
      ensures OnlyPages(old(store.pages), old(views[index].level), store.pages) && views == old(views)[index := views[index]]
      ensures Tables.OnlyTable(old(Means()), Means(), index)
      ensures Handled(Tables.Update(index, key, mask, vals), r, old(store.pages), old(views[index]), catalog[index], old(Chain(index)), Chain(index))
      ensures old(Whole(index)) ==> Whole(index)
      ensures index !in old(ruined) ==> Tables.Answers(old(Means()), Tables.Update(index, key, mask, vals), r)
      ensures index !in ruined ==> Means() == Tables.After(old(Means()), Tables.Update(index, key, mask, vals))
      ensures ruined == if index in old(ruined) || old(UpdateSound(store.pages, views[index], key, Tables.NewKey(key, mask, vals)))
                        then old(ruined) else old(ruined) + {index}
      ensures index in ruined && index !in old(ruined) ==> NoTree(store.pages, catalog[index])
      ensures r == Tables.KeyNotFound ==> store.pages == old(store.pages) && store.dirty == old(store.dirty)
    {
      var page, cell := Find(index, key);
      ghost var newKey := Tables.NewKey(key, mask, vals);
      OneTable(store.pages, catalog, views, shrunk, ruined, index);
      MeaningAt(store.pages, catalog, views, index);
      ghost var pages, g, def, chain := store.pages, views[index], catalog[index], Chain(index);
      assert Sits(pages, g.level, def.root, key) <==> cell < |pages[page].cells| && pages[page].cells[cell].key == key;
      assert CursorOf(pages, g, def.root, key) == PlaceOf(pages, g, page, cell);
      hide DatabaseOk, Meaning, TableMeaning, Synced, UpdateSound, Found, StaysPut, TableStands, RowsOk, MinKeys, Inv, Replaced, Changed,
           Sits, CursorOf, PlaceOf, Walkable, Sel.Front, Handled;
      ghost var q, j := 0, 0;
      if index !in ruined {
        CursorMeans(store.pages, catalog, views, shrunk, ruined, index, page, cell, key);
        q, j := SomeFound(store.pages, views[index], TreeOf(catalog[index]), newKey);
      }
      if cell >= |store.pages[page].cells| || store.pages[page].cells[cell].key != key {
        if index !in ruined { UpdateSoundAbsent(store.pages, catalog[index], views[index], page, cell, key, newKey); }
        r := Tables.KeyNotFound;
        HandledUpdate(index, key, mask, vals, r, pages, g, def, Cell(key, []), chain, chain);
        return;
      }
      if index !in ruined {
        UpdateSoundAt(store.pages, catalog[index], views[index], page, cell, key, q, j, newKey);
      }
      hide TableOk;
      var c := OverwriteRow(index, page, cell, key, mask, vals, q, j);
      r := Tables.Success;
      HandledUpdate(index, key, mask, vals, r, pages, g, def, c, chain, Chain(index));
    }

    /** The row under the cursor is updated in place. */
    method OverwriteRow(index: nat, page: nat, cell: nat, key: Key, mask: seq<bool>, vals: seq<Value>, ghost q: nat, ghost j: nat)
      returns (c: Cell)
      requires Valid() && index < |catalog| && Tables.UpdatePrepared(catalog[index].schema, mask, vals)
      requires Pointed(store.pages, views[index], TreeOf(catalog[index]), page, cell)
      requires cell < |store.pages[page].cells| && store.pages[page].cells[cell].key == key
      requires index !in ruined ==>
                 && Found(store.pages, views[index], page, cell, key) && Found(store.pages, views[index], q, j, Tables.NewKey(key, mask, vals))
                 && key in Means()[index].rows
      modifies this, store
      ensures Valid() && catalog == old(catalog) && shrunk == old(shrunk)
      ensures OnlyPages(old(store.pages), old(views[index].level), store.pages)
      ensures Tables.OnlyTable(old(Means()), Means(), index)
      ensures views == old(views) && Replaced(old(Chain(index)), Chain(index), old(PlaceOf(store.pages, views[index], page, cell)), key, c)
      ensures Changed(catalog[index].schema, old(Chain(index))[old(PlaceOf(store.pages, views[index], page, cell))], mask, vals, c)
      ensures old(Whole(index)) ==> Whole(index)
      ensures ruined == if index in old(ruined) || StaysPut(old(store.pages), page, cell, q, j, Tables.NewKey(key, mask, vals))
                        then old(ruined) else old(ruined) + {index}
      ensures index !in ruined ==>
                var t := old(Means())[index];
                Tables.RowFits(t.schema, t.rows[key]) && Means() == old(Means())[index := Tables.RowMoved(t, key, mask, vals)]
      ensures index in ruined && index !in old(ruined) ==> NoTree(store.pages, catalog[index])
    {
      var def := catalog[index];
      ghost var pages := store.pages;
      RowUnder(pages, catalog, views, shrunk, ruined, index, page, cell, key);
      OneTable(pages, catalog, views, shrunk, ruined, index);
      hide DatabaseOk, TableMeaning, Meaning, Synced, Packed, StaysPut, NoTree, Pointed, Found, Replaced, KeyMatches, UpdatedRow, ValidSchema,
           Changed, PlaceOf, Standing, TableOk, Sel.Front, RowAt, Tables.RowMoved, Tables.OnlyTable, OnlyPages;
      ghost var tables := Means();
      c := ChangedCell(def.schema, store.pages[page].cells[cell], mask, vals);
      store.pages := store.pages[page := store.pages[page].(cells := store.pages[page].cells[cell := c])];
      store.MarkPageDirty(page);
      ruined := Overwritten(pages, catalog, views, shrunk, ruined, index, page, cell, key, c, q, j, store.pages);
      WholeStays(store.pages, catalog, views, shrunk, ruined, index, pages, page, store.pages[page]);
      StillSynced(pages, old(store.dirty), page0, file, store.pages, store.dirty);
      SamePagesBut(pages, views[index].level, page, store.pages);
      if index !in ruined { RowAtMoved(tables, Means(), index, key, c, mask, vals); }
    }

    static lemma SamePagesBut(pages: seq<Node>, level: map<nat, nat>, page: nat, pages': seq<Node>)
      requires page < |pages| == |pages'| && page in level && forall x :: 0 <= x < |pages| && x != page ==> pages'[x] == pages[x]
      ensures OnlyPages(pages, level, pages')
    {
    }

    static lemma WholeStays(pages': seq<Node>, catalog: seq<TableDef>, views: seq<View>, shrunk: set<nat>, ruined: set<nat>, index: nat,
                            pages: seq<Node>, page: nat, x: Node)
      requires DatabaseOk(pages', catalog, views, shrunk, ruined) && index < |catalog|
      requires page < |pages| && pages[page].Leaf? && x.Leaf? && pages' == pages[page := x]
      ensures Sel.Front(pages, views[index], TreeOf(catalog[index])) ==> Sel.Front(pages', views[index], TreeOf(catalog[index]))
    {
      OneTable(pages', catalog, views, shrunk, ruined, index);
      hide DatabaseOk, Standing, Sel.Front;
      Sel.FrontStays(pages, pages', views[index], TreeOf(catalog[index]), page);
    }

    static lemma ShortStored(mask: seq<bool>, vals: seq<Value>)
      requires Tables.ShortTexts(vals, mask)
      ensures forall i :: 0 <= i < |vals| && mask[i] ==> Stored(vals[i]) == vals[i]
    {
      forall i | 0 <= i < |vals| && mask[i] ensures Stored(vals[i]) == vals[i] {
        if vals[i].Text? { assert vals[i].s[..|vals[i].s|] == vals[i].s; }
      }
    }

    /** The cell as UPDATE leaves it. */
    static method ChangedCell(schema: Schema, c: Cell, mask: seq<bool>, vals: seq<Value>) returns (c': Cell)
      requires ValidSchema(schema) && KeyMatches(schema, c) && Tables.UpdatePrepared(schema, mask, vals)
      ensures KeyMatches(schema, c') && c'.key == Tables.NewKey(c.key, mask, vals) && Tables.RowFits(schema, c.row)
      ensures Changed(schema, c, mask, vals, c')
      ensures c'.row == UpdatedRow(schema, c.row, mask, vals, |mask|)
    {
      hide Packed;
      var row := new Byte[|c.row|](i requires 0 <= i < |c.row| => c.row[i]);
      assert row[..] == c.row;
      var newKey := UpdateRow(schema, vals, mask, row, c.key);
      UpdateKeyMatches(schema, c, row[..], newKey, mask, vals);
      assert newKey == Tables.NewKey(c.key, mask, vals);
      c' := Cell(newKey, row[..]);
      ShortStored(mask, vals);
      hide FieldValue, UpdatedRow, IsKeyOf, Stored;
    }

    /** db_save_catalog */
    method SaveCatalog()
      modifies this`page0, store`dirty, store`marked
      ensures page0 == catalog && store.dirty == old(store.dirty) + {0}
    {
      page0 := catalog;
      store.MarkPageDirty(0);
    }

    /** execute_create: an empty root leaf on the next free page. */
    method ExecuteCreate(name: seq<Byte>, schema: Schema) returns (r: Tables.Outcome)
      requires Valid() && Tables.Prepared(Means(), Tables.Create(name, schema))
      modifies this, store
      ensures Valid() && shrunk == old(shrunk) && ruined == old(ruined)
      ensures catalog == old(catalog) + [TableDef(name, |old(store.pages)|, schema)]
      ensures |store.pages| == |old(store.pages)| + 1 && store.pages[..|old(store.pages)|] == old(store.pages)
      ensures Means() == Tables.After(old(Means()), Tables.Create(name, schema)) && r == Tables.Success
      ensures old(views) <= views
    {
      ghost var pages := store.pages;
      var root := if |store.pages| == 0 then 1 else |store.pages|;
      var def := TableDef(name, root, schema);
      var page := store.NewPage();
      store.pages := store.pages[root := Leaf(true, 0, 0, [])];
      store.MarkPageDirty(root);
      assert store.pages[..|pages|] == pages;
      assert |pages| >= 1 && ValidSchema(schema) && |catalog| < MAX_TABLES;
      hide TableOk, TableStands, Unshrunk, Meaning;
      TableAdded(pages, catalog, views, shrunk, ruined, store.pages, def);
      hide DatabaseOk;
      StillSynced(pages, old(store.dirty), page0, file, store.pages, store.dirty);
      catalog := catalog + [def];
      views := views + [FreshView(root)];
      SaveCatalog();
      r := Tables.Success;
    }

    /** execute_select */
    method ExecuteSelect(index: nat, where: Sel.Where) returns (r: Tables.Outcome)
      requires Valid() && index < |catalog|
      ensures Handled(Tables.Select(index, where), r, store.pages, views[index], catalog[index], Chain(index), Chain(index))
      ensures where.All? && Whole(index) ==> r.rows == Chain(index)
      ensures index !in ruined ==> Tables.Answers(Means(), Tables.Select(index, where), r) && Whole(index)
    {
      var def := catalog[index];
      OneTable(store.pages, catalog, views, shrunk, ruined, index);
      MeaningAt(store.pages, catalog, views, index);
      StandingWalkable(store.pages, views[index], TreeOf(def));
      hide DatabaseOk, Standing, Inv, Meaning, MinKeys, Synced, Sel.Front, Sel.ScanResult;
      ghost var fetched;
      var rows;
      rows, fetched := Sel.ExecuteSelect(store, TreeOf(def), where, views[index]);
      if index !in ruined {
        ContentsSorted(store.pages, views[index], TreeOf(def));
        Tables.FilterLists(Contents(store.pages, views[index].order), where);
        Sel.TreeFront(store.pages, views[index], TreeOf(def));
      }
      if where.All? && Whole(index) { Sel.FrontWhole(store.pages, views[index], TreeOf(def), rows); }
      r := Tables.Rows(rows);
    }

    /** execute_select in box mode. */
    method ExecuteSelectBox(index: nat, where: Sel.Where)
      returns (widths: seq<nat>, lines: seq<seq<seq<Byte>>>, ghost rows: seq<Cell>)
      requires Valid() && index < |catalog|
      ensures Handled(Tables.Select(index, where), Tables.Rows(rows), store.pages, views[index], catalog[index], Chain(index), Chain(index))
      ensures index !in ruined ==> Tables.Answers(Means(), Tables.Select(index, where), Tables.Rows(rows))
      ensures var fields := catalog[index].schema.fields;
              && Box.AllFit(fields, rows) && Box.Widths(fields, rows, widths) && |lines| == |rows|
              && forall k :: 0 <= k < |lines| ==> Box.Line(fields, rows[k].row, widths, lines[k])
    {
      var def := catalog[index];
      ghost var g := views[index];
      OneTable(store.pages, catalog, views, shrunk, ruined, index);
      MeaningAt(store.pages, catalog, views, index);
      StandingWalkable(store.pages, g, TreeOf(def));
      hide DatabaseOk, Standing, Inv, Meaning, MinKeys, Synced, Sel.ScanResult;
      if index !in ruined {
        ContentsSorted(store.pages, g, TreeOf(def));
        Tables.FilterLists(Contents(store.pages, g.order), where);
      }
      assert Box.AllFit(def.schema.fields, Contents(store.pages, g.order)) by {
        forall k | 0 <= k < |Contents(store.pages, g.order)|
          ensures FieldsFit(def.schema.fields, |Contents(store.pages, g.order)[k].row|)
        {
          assert KeyMatches(def.schema, Contents(store.pages, g.order)[k]);
        }
      }
      widths, lines, rows := Box.SelectBox(store, TreeOf(def), where, def.schema.fields, g);
    }

    /** execute_statement. Other tables keep their rows whatever happens. A table in order is treated as
        the specification says, and stays in order exactly when the statement is sound; otherwise it has
        no tree any more. In a ruined table, too, no row is touched but the one that was found. */
    method Execute(s: Tables.Statement) returns (r: Tables.Outcome)
      requires Valid() && Tables.Prepared(Means(), s)
      modifies this, store
      ensures Valid() && old(catalog) <= catalog
      ensures s.Create? || s.table !in old(ruined) ==> Tables.Answers(old(Means()), s, r)
      ensures s.Create? || s.table !in ruined ==> Means() == Tables.After(old(Means()), s)
      ensures !s.Create? ==>
                && catalog == old(catalog) && Tables.OnlyTable(old(Means()), Means(), s.table)
                && OnlyPages(old(store.pages), old(views[s.table].level), store.pages) && views == old(views)[s.table := views[s.table]]
                && Handled(s, r, old(store.pages), old(views[s.table]), catalog[s.table], old(Chain(s.table)), Chain(s.table))
                && (!s.Insert? && old(Whole(s.table)) ==> Whole(s.table))
                && (s.Select? && s.where.All? && Whole(s.table) ==> r.rows == Chain(s.table))
      ensures s.Create? ==> r == Tables.Success && old(views) <= views && old(store.pages) <= store.pages
      ensures !s.Create? && s.table !in ruined ==> Whole(s.table)
      ensures ruined == if s.Create? || s.table in old(ruined) || old(Sound(store.pages, catalog, views, s)) then old(ruined)
                        else old(ruined) + {s.table}
      ensures !s.Create? && s.table in ruined && s.table !in old(ruined) ==>
                Broken(store.pages, catalog, s) && (s.Insert? ==> s.table in shrunk)
      ensures old(shrunk) <= shrunk <= old(shrunk) + if s.Delete? && r == Tables.Success then {s.table} else {}
    {
      hide DatabaseOk, Meaning, Synced, InsertSound, UpdateSound, NoTree, Handled, Tables.OnlyTable, Sel.Front;
      match s {
        case Create(name, schema) => r := ExecuteCreate(name, schema);
        case Insert(index, vals, key) => r := ExecuteInsert(index, vals, key);
        case Delete(index, key) => r := ExecuteDelete(index, key);
        case Update(index, key, mask, vals) => r := ExecuteUpdate(index, key, mask, vals);
        case Select(index, where) =>
          r := ExecuteSelect(index, where);
          SameTables(Means(), index);
      }
      if !s.Create? && s.table !in ruined { OrderedWhole(store.pages, catalog, views, shrunk, ruined, s.table); }
    }

    static lemma OrderedWhole(pages: seq<Node>, catalog: seq<TableDef>, views: seq<View>, shrunk: set<nat>, ruined: set<nat>, index: nat)
      requires DatabaseOk(pages, catalog, views, shrunk, ruined) && index < |catalog| && index !in ruined
      ensures Sel.Front(pages, views[index], TreeOf(catalog[index]))
    {
      assert TableOk(pages, catalog[index], views[index]);
      Sel.TreeFront(pages, views[index], TreeOf(catalog[index]));
    }

    /** Whether a statement on a table in order would leave a table that is no tree any more. For an
        INSERT this takes an empty leaf, so a DELETE must have gone before. */
    method Blocked(s: Tables.Statement) returns (blocked: bool)
      requires Valid() && Tables.Prepared(Means(), s) && (s.Create? || s.table !in ruined)
      ensures blocked <==> !Sound(store.pages, catalog, views, s)
      ensures blocked && s.Insert? ==> s.table in shrunk
    {
      hide DatabaseOk, Meaning, Synced, InsertSound, UpdateSound;
      match s
      case Insert(index, _, key) => blocked := InsertBlocked(index, key);
      case Update(index, key, mask, vals) => blocked := UpdateBlocked(index, key, Tables.NewKey(key, mask, vals));
      case Create(_, _) => blocked := false;
      case Delete(_, _) => blocked := false;
      case Select(_, _) => blocked := false;
    }

    method InsertBlocked(index: nat, key: Key) returns (blocked: bool)
      requires Valid() && index < |catalog| && index !in ruined
      ensures blocked <==> !InsertSound(store.pages, catalog[index], views[index], key)
      ensures blocked ==> index in shrunk
    {
      var def := catalog[index];
      ghost var g := views[index];
      assert TableOk(store.pages, def, g) && (index !in shrunk ==> Unshrunk(store.pages, def, g));
      var page, cell := Find(index, key);
      hide DatabaseOk, TableOk, Found, Unshrunk, Synced, Meaning, TableMeaning, InsertSound, Clear, Shape, Upward, Standing;
      CursorMeans(store.pages, catalog, views, shrunk, ruined, index, page, cell, key);
      InsertSoundAt(store.pages, def, g, page, cell, key);
      if cell < |store.pages[page].cells| && store.pages[page].cells[cell].key == key { return false; }
      if page == def.root || |store.pages[page].cells| < LeafNodeMaxCells(def.schema.rowSize) { return false; }
      if index !in shrunk { UnshrunkClear(store.pages, def, g, page, cell, key); }
      LeafUpward(store.pages, def, g, page, cell, key);
      var y := store.pages[page].parent;
      var clear := IsClear(store.pages, def.root, y, IndexIn(store.pages[y].children, page), g.level);
      blocked := !clear;
    }

    method UpdateBlocked(index: nat, key: Key, newKey: Key) returns (blocked: bool)
      requires Valid() && index < |catalog| && index !in ruined
      ensures blocked <==> !UpdateSound(store.pages, views[index], key, newKey)
    {
      var p, i := Find(index, key);
      var cells := store.pages[p].cells;
      var q, j := Find(index, newKey);
      assert TableOk(store.pages, catalog[index], views[index]);
      hide DatabaseOk, Standing, TableOk, Found, Synced;
      if i >= |cells| || cells[i].key != key {
        UpdateSoundAbsent(store.pages, catalog[index], views[index], p, i, key, newKey);
        return false;
      }
      UpdateSoundAt(store.pages, catalog[index], views[index], p, i, key, q, j, newKey);
      hide UpdateSound;
      blocked := key != newKey && !(q == p && (j == i || j == i + 1) && (j < |cells| ==> cells[j].key != newKey));
    }

    /** A run of statements, to its end. `history` are the pages before every statement and after the
        last, `broke` says which statement broke a table: up to then that table has a tree, right after
        it has none. Every table answers as a map up to and including that statement; a table that none
        broke is that map in the end, whatever happened to the others. */
    method Run(stmts: seq<Tables.Statement>)
      returns (outcomes: seq<Tables.Outcome>, ghost history: seq<seq<Node>>, ghost seen: seq<seq<View>>, ghost broke: map<nat, nat>)
      requires Valid() && Tables.AllPrepared(Means(), stmts)
      modifies this, store
      ensures Valid() && |outcomes| == |stmts| && broke.Keys == ruined - old(ruined) && old(ruined) <= ruined
      ensures Tables.Agree(Means(), Tables.Later(old(Means()), stmts, |stmts|), ruined)
      ensures Answered(old(Means()), stmts, outcomes, old(ruined), broke)
      ensures Recorded(old(Means()), stmts, |stmts|, catalog, history, old(ruined), broke)
      ensures |history| == |seen| == |stmts| + 1 && history[0] == old(store.pages) && history[|stmts|] == store.pages
      ensures Turns(stmts, outcomes, catalog, history, seen) && seen[0] == old(views) && seen[|stmts|] == views
      ensures forall t :: t in shrunk ==> t in old(shrunk) || DeletedFrom(stmts, outcomes, t)
      ensures forall t :: t in broke && stmts[broke[t]].Insert? ==> t in shrunk
    {
      hide DatabaseOk, Meaning, Synced, Sound, Tables.After, Tables.Answers, Tables.Agree, Tables.Prepared, Tables.OnlyTable, Handled,
           NoTree, HasTree, Turn, Turns, OnlyPages, Answered, Recorded, Blamed, Undisturbed;
      ghost var tables, ruined0 := Means(), ruined;
      outcomes, history, seen, broke := [], [store.pages], [views], map[];
      assert Tables.Agree(tables, tables, ruined) by { AgreeSelf(tables, ruined); }
      TablesInOrder(store.pages, catalog, views, shrunk, ruined);
      RunBegins(tables, stmts, catalog, store.pages, seen, ruined);
      assert Blamed(stmts, [], shrunk, shrunk, broke) by { BlamedNone(stmts, shrunk); }
      while |outcomes| < |stmts|
        invariant Valid() && |outcomes| <= |stmts| && broke.Keys == ruined - ruined0 && ruined0 <= ruined
        invariant Tables.Agree(Means(), Tables.Later(tables, stmts, |outcomes|), ruined)
        invariant |history| == |seen| == |outcomes| + 1
        invariant Answered(tables, stmts, outcomes, ruined0, broke)
        invariant Recorded(tables, stmts, |outcomes|, catalog, history, ruined0, broke)
        invariant history[0] == old(store.pages) && history[|outcomes|] == store.pages
        invariant Turns(stmts[..|outcomes|], outcomes, catalog, history, seen) && seen[0] == old(views) && seen[|outcomes|] == views
        invariant Blamed(stmts, outcomes, old(shrunk), shrunk, broke)
        decreases |stmts| - |outcomes|
      {
        var i := |outcomes|;
        var s := stmts[i];
        ghost var now, was, had, spec := store.pages, Means(), ruined, Tables.Later(tables, stmts, i);
        assert Tables.Prepared(spec, s);
        Tables.PreparedAgree(was, spec, had, s);
        assert Tables.Later(tables, stmts, i + 1) == Tables.After(spec, s);
        ghost var catalog0, views0, shrunk0 := catalog, views, shrunk;
        if !s.Create? { Tables.PreparedTable(was, s); }
        var r := Execute(s);
        TurnIs(s, r, now, views0, store.pages, views, catalog);
        Tables.AfterAgree(was, spec, had, s, Means(), ruined);
        if s.Create? || s.table !in had { Tables.AnswersAgree(was, spec, had, s, r); }
        AgreeLength(Means(), Tables.Later(tables, stmts, i + 1), ruined);
        BrokenBefore(stmts, outcomes, old(shrunk), shrunk0, broke);
        ghost var broke' := BrokeNext(s, i, ruined0, had, ruined, broke, store.pages, catalog, shrunk);
        TablesInOrder(store.pages, catalog, views, shrunk, ruined);
        AnsweredNext(tables, stmts, outcomes, r, ruined0, broke, broke');
        RecordedNext(tables, stmts, i, catalog0, catalog, history, store.pages, ruined0, broke, broke', ruined);
        TurnsNext(stmts, outcomes, catalog0, catalog, history, seen, r, store.pages, views);
        BlamedNext(stmts, outcomes, r, old(shrunk), shrunk0, shrunk, broke, broke');
        outcomes, history, seen, broke := outcomes + [r], history + [store.pages], seen + [views], broke';
      }
      assert stmts[..|stmts|] == stmts;
      BlamedMeans(stmts, outcomes, old(shrunk), shrunk, broke);
    }

    /** verify_btree: it returns true exactly when every page it reaches is right. There are no false alarms:
        whatever ran before, it returns true for every table in order. */
    method VerifyTable(index: nat) returns (ok: bool)
      requires Valid() && index < |catalog|
      ensures ok <==> Verify.AllRight(store.pages, catalog[index].root)
      ensures index !in ruined ==> ok
    {
      ghost var g, t := views[index], TreeOf(catalog[index]);
      OneTable(store.pages, catalog, views, shrunk, ruined, index);
      StandingWalkable(store.pages, g, t);
      assert index !in ruined ==> Inv(store.pages, g, t, 0);
      hide DatabaseOk, Standing, Inv, Verify.AllRight;
      ok := Verify.VerifyBtree(store.pages, TreeOf(catalog[index]), g.level);
    }

    /** db_close: the catalog and every dirty page are written. */
    method Close() returns (closed: File)
      requires Valid()
      modifies this, store
      ensures closed == File(old(catalog), old(store.pages)) && views == old(views) && shrunk == old(shrunk) && ruined == old(ruined)
      ensures store.pages == old(store.pages) && catalog == old(catalog)
    {
      SaveCatalog();
      var i := 0;
      ghost var pages := store.pages;
      while i < |store.pages|
        invariant i <= |store.pages| && store.pages == pages && page0 == catalog == old(catalog)
        invariant views == old(views) && shrunk == old(shrunk) && ruined == old(ruined) && i <= |file.pages| <= |pages|
        invariant forall j :: 0 <= j < i ==> file.pages[j] == pages[j]
        invariant forall j :: i <= j < |pages| && j !in store.dirty ==> j < |file.pages| && file.pages[j] == pages[j]
        invariant if i == 0 then 0 in store.dirty else file.catalog == page0
      {
        Flush(i);
        i := i + 1;
      }
      closed := file;
    }

    /** pager_flush */
    method Flush(i: nat)
      requires i < |store.pages| && i <= |file.pages|
      modifies this`file, store`dirty
      ensures store.dirty == old(store.dirty) - {i}
      ensures i !in old(store.dirty) ==> file == old(file)
      ensures i in old(store.dirty) ==>
                && file.pages == (if i < |old(file).pages| then old(file).pages[i := store.pages[i]] else old(file).pages + [store.pages[i]])
                && file.catalog == (if i == 0 then page0 else old(file).catalog)
    {
      if i in store.dirty {
        var written := if i < |file.pages| then file.pages[i := store.pages[i]] else file.pages + [store.pages[i]];
        file := File(if i == 0 then page0 else file.catalog, written);
        store.dirty := store.dirty - {i};
      }
    }
  }

  /** No earlier statement broke the table that this one is about. */
  ghost predicate Undisturbed(s: Tables.Statement, k: nat, ruined: set<nat>, broke: map<nat, nat>) {
    s.Create? || (s.table !in ruined && (s.table in broke ==> k <= broke[s.table]))
  }

  /** The statements on undisturbed tables are answered as the maps say. */
  ghost predicate Answered(tables: seq<Tables.Table>, stmts: seq<Tables.Statement>, outcomes: seq<Tables.Outcome>,
                           ruined: set<nat>, broke: map<nat, nat>)
  {
    && |outcomes| <= |stmts|
    && forall k {:trigger outcomes[k]} :: 0 <= k < |outcomes| && Undisturbed(stmts[k], k, ruined, broke) ==>
         var before := Tables.Later(tables, stmts, k);
         Tables.Prepared(before, stmts[k]) && Tables.Answers(before, stmts[k], outcomes[k])
  }

  ghost predicate BrokenAt(stmts: seq<Tables.Statement>, n: nat, catalog: seq<TableDef>, history: seq<seq<Node>>, k: nat, t: nat) {
    && k < n <= |stmts| && !stmts[k].Create? && stmts[k].table == t
    && t < |catalog| && k + 1 < |history| && NoTree(history[k + 1], catalog[t])
  }

  /** Of the first n statements, those in `broke` broke their tables: before, the tables had a tree. */
  ghost predicate Recorded(tables: seq<Tables.Table>, stmts: seq<Tables.Statement>, n: nat, catalog: seq<TableDef>,
                           history: seq<seq<Node>>, ruined: set<nat>, broke: map<nat, nat>)
  {
    && n <= |stmts| && |history| == n + 1
    && (forall t {:trigger broke[t]} :: t in broke ==> BrokenAt(stmts, n, catalog, history, broke[t], t))
    && (forall k {:trigger Tables.Later(tables, stmts, k)} :: 0 <= k <= n ==> |Tables.Later(tables, stmts, k)| <= |catalog|)
    && (forall k, i {:trigger HasTree(history[k], catalog[i])} ::
          0 <= k <= n && 0 <= i < |Tables.Later(tables, stmts, k)| && i < |catalog| && i !in ruined && (i in broke ==> k <= broke[i]) ==>
            HasTree(history[k], catalog[i]))
  }

  /** One statement of a run: from the pages and views it finds to those it leaves. */
  ghost predicate Turn(s: Tables.Statement, r: Tables.Outcome, pages: seq<Node>, views: seq<View>, pages': seq<Node>, views': seq<View>,
                       catalog: seq<TableDef>)
  {
    if s.Create? then r == Tables.Success && pages <= pages' && views <= views'
    else
      && s.table < |views| && s.table < |catalog| && s.table < |views'| && views' == views[s.table := views'[s.table]]
      && OnlyPages(pages, views[s.table].level, pages')
      && Handled(s, r, pages, views[s.table], catalog[s.table],
                 Contents(pages, views[s.table].order), Contents(pages', views'[s.table].order))
  }

  ghost predicate Turns(stmts: seq<Tables.Statement>, outcomes: seq<Tables.Outcome>, catalog: seq<TableDef>,
                        history: seq<seq<Node>>, seen: seq<seq<View>>)
  {
    && |outcomes| == |stmts| && |history| == |seen| == |stmts| + 1
    && forall k {:trigger outcomes[k]} :: 0 <= k < |stmts| ==>
         Turn(stmts[k], outcomes[k], history[k], seen[k], history[k + 1], seen[k + 1], catalog)
  }

  lemma TurnIs(s: Tables.Statement, r: Tables.Outcome, pages: seq<Node>, views: seq<View>, pages': seq<Node>, views': seq<View>,
               catalog: seq<TableDef>)
    requires s.Create? ==> r == Tables.Success && pages <= pages' && views <= views'
    requires !s.Create? ==>
               && s.table < |views| && s.table < |catalog| && s.table < |views'| && views' == views[s.table := views'[s.table]]
               && OnlyPages(pages, views[s.table].level, pages')
               && Handled(s, r, pages, views[s.table], catalog[s.table],
                          Contents(pages, views[s.table].order), Contents(pages', views'[s.table].order))
    ensures Turn(s, r, pages, views, pages', views', catalog)
  {
    hide Handled;
  }

  lemma TurnKept(s: Tables.Statement, r: Tables.Outcome, pages: seq<Node>, views: seq<View>, pages': seq<Node>, views': seq<View>,
                 catalog: seq<TableDef>, catalog': seq<TableDef>)
    requires Turn(s, r, pages, views, pages', views', catalog) && catalog <= catalog'
    ensures Turn(s, r, pages, views, pages', views', catalog')
  {
    hide Handled;
  }

  lemma RunBegins(tables: seq<Tables.Table>, stmts: seq<Tables.Statement>, catalog: seq<TableDef>, pages: seq<Node>, seen: seq<seq<View>>,
                  ruined: set<nat>)
    requires |tables| <= |catalog| && |seen| == 1
    requires forall i {:trigger HasTree(pages, catalog[i])} :: 0 <= i < |catalog| && i !in ruined ==> HasTree(pages, catalog[i])
    ensures Turns(stmts[..0], [], catalog, [pages], seen)
    ensures Answered(tables, stmts, [], ruined, map[]) && Recorded(tables, stmts, 0, catalog, [pages], ruined, map[])
  {
  }

  lemma TurnsNext(stmts: seq<Tables.Statement>, outcomes: seq<Tables.Outcome>, catalog: seq<TableDef>, catalog': seq<TableDef>,
                  history: seq<seq<Node>>, seen: seq<seq<View>>, r: Tables.Outcome, pages: seq<Node>, views: seq<View>)
    requires |outcomes| < |stmts| && catalog <= catalog'
    requires Turns(stmts[..|outcomes|], outcomes, catalog, history, seen)
    requires Turn(stmts[|outcomes|], r, history[|outcomes|], seen[|outcomes|], pages, views, catalog')
    ensures Turns(stmts[..|outcomes| + 1], outcomes + [r], catalog', history + [pages], seen + [views])
  {
    hide Turn;
    var n := |outcomes|;
    forall k | 0 <= k <= n
      ensures Turn(stmts[k], (outcomes + [r])[k], (history + [pages])[k], (seen + [views])[k],
                   (history + [pages])[k + 1], (seen + [views])[k + 1], catalog')
    {
      if k < n {
        assert stmts[..n][k] == stmts[k];
        assert Turn(stmts[..n][k], outcomes[k], history[k], seen[k], history[k + 1], seen[k + 1], catalog);
        TurnKept(stmts[k], outcomes[k], history[k], seen[k], history[k + 1], seen[k + 1], catalog, catalog');
      }
    }
  }

  lemma AgreeSelf(tables: seq<Tables.Table>, ruined: set<nat>)
    ensures Tables.Agree(tables, tables, ruined)
  {
  }

  lemma AgreeLength(tables: seq<Tables.Table>, spec: seq<Tables.Table>, ruined: set<nat>)
    requires Tables.Agree(tables, spec, ruined)
    ensures |tables| == |spec|
  {
  }

  lemma SameTables(tables: seq<Tables.Table>, t: nat)
    ensures Tables.OnlyTable(tables, tables, t)
  {
  }

  /** Tables that are not ruined have a tree. */
  lemma TablesInOrder(pages: seq<Node>, catalog: seq<TableDef>, views: seq<View>, shrunk: set<nat>, ruined: set<nat>)
    requires DatabaseOk(pages, catalog, views, shrunk, ruined)
    ensures forall i {:trigger HasTree(pages, catalog[i])} :: 0 <= i < |catalog| && i !in ruined ==> HasTree(pages, catalog[i])
  {
    forall i | 0 <= i < |catalog| && i !in ruined ensures HasTree(pages, catalog[i]) {
      assert TableOk(pages, catalog[i], views[i]);
    }
  }

  lemma BrokeNext(s: Tables.Statement, i: nat, ruined0: set<nat>, had: set<nat>, ruined: set<nat>, broke: map<nat, nat>,
                  pages: seq<Node>, catalog: seq<TableDef>, shrunk: set<nat>)
    returns (broke': map<nat, nat>)
    requires ruined0 <= had && broke.Keys == had - ruined0
    requires ruined == had || (!s.Create? && ruined == had + {s.table} && s.table < |catalog|)
    requires ruined != had ==> NoTree(pages, catalog[s.table]) && (s.Insert? ==> s.table in shrunk)
    requires !s.Create? && s.table in broke ==> broke[s.table] < i
    ensures broke'.Keys == ruined - ruined0
    ensures broke' == broke || (!s.Create? && s.table !in broke && broke' == broke[s.table := i] && s.table < |catalog|
                                && NoTree(pages, catalog[s.table]) && (s.Insert? ==> s.table in shrunk))
    ensures Undisturbed(s, i, ruined0, broke') ==> s.Create? || s.table !in had
  {
    hide NoTree;
    broke' := if ruined == had then broke else broke[s.table := i];
  }

  lemma AnsweredNext(tables: seq<Tables.Table>, stmts: seq<Tables.Statement>, outcomes: seq<Tables.Outcome>, r: Tables.Outcome,
                     ruined: set<nat>, broke: map<nat, nat>, broke': map<nat, nat>)
    requires |outcomes| < |stmts| && Answered(tables, stmts, outcomes, ruined, broke)
    requires var k := |outcomes|; var s := stmts[k]; var before := Tables.Later(tables, stmts, k);
             && (broke' == broke || (!s.Create? && s.table !in broke && broke' == broke[s.table := k]))
             && (Undisturbed(s, k, ruined, broke') ==> Tables.Prepared(before, s) && Tables.Answers(before, s, r))
    ensures Answered(tables, stmts, outcomes + [r], ruined, broke')
  {
    hide Tables.Later, Tables.Prepared, Tables.Answers;
    var longer := outcomes + [r];
    forall k | 0 <= k < |longer| && Undisturbed(stmts[k], k, ruined, broke')
      ensures var before := Tables.Later(tables, stmts, k); Tables.Prepared(before, stmts[k]) && Tables.Answers(before, stmts[k], longer[k])
    {
      if k < |outcomes| { assert longer[k] == outcomes[k] && Undisturbed(stmts[k], k, ruined, broke); }
    }
  }

  lemma RecordedNext(tables: seq<Tables.Table>, stmts: seq<Tables.Statement>, n: nat, catalog: seq<TableDef>, catalog': seq<TableDef>,
                     history: seq<seq<Node>>, pages: seq<Node>, ruined0: set<nat>, broke: map<nat, nat>, broke': map<nat, nat>,
                     ruined: set<nat>)
    requires n < |stmts| && Recorded(tables, stmts, n, catalog, history, ruined0, broke) && catalog <= catalog'
    requires |Tables.Later(tables, stmts, n + 1)| <= |catalog'|
    requires broke' == broke || (!stmts[n].Create? && stmts[n].table !in broke && broke' == broke[stmts[n].table := n]
                                 && stmts[n].table < |catalog'| && NoTree(pages, catalog'[stmts[n].table]))
    requires broke'.Keys == ruined - ruined0
    requires forall i {:trigger HasTree(pages, catalog'[i])} :: 0 <= i < |catalog'| && i !in ruined ==> HasTree(pages, catalog'[i])
    ensures Recorded(tables, stmts, n + 1, catalog', history + [pages], ruined0, broke')
  {
    hide Tables.Later, NoTree, HasTree;
    var longer := history + [pages];
    forall t | t in broke' ensures BrokenAt(stmts, n + 1, catalog', longer, broke'[t], t) {
      if t in broke && broke'[t] == broke[t] { assert BrokenAt(stmts, n, catalog, history, broke[t], t); }
    }
    forall k, i | 0 <= k <= n + 1 && 0 <= i < |Tables.Later(tables, stmts, k)| && i < |catalog'| && i !in ruined0
                  && (i in broke' ==> k <= broke'[i])
      ensures HasTree(longer[k], catalog'[i])
    {
      if k <= n {
        assert i < |catalog| && catalog'[i] == catalog[i] && longer[k] == history[k];
        assert HasTree(history[k], catalog[i]);
      } else {
        assert i !in broke';
        assert HasTree(pages, catalog'[i]);
      }
    }
  }

  ghost predicate DeletedFrom(stmts: seq<Tables.Statement>, outcomes: seq<Tables.Outcome>, t: nat) {
    exists i {:trigger stmts[i]} :: 0 <= i < |outcomes| && i < |stmts| && stmts[i].Delete? && stmts[i].table == t && outcomes[i] == Tables.Success
  }

  /** A table with an empty leaf has been deleted from, and one that an INSERT broke has an empty leaf. */
  ghost predicate Blamed(stmts: seq<Tables.Statement>, outcomes: seq<Tables.Outcome>, shrunk: set<nat>, shrunk': set<nat>, broke: map<nat, nat>) {
    && |outcomes| <= |stmts|
    && (forall t :: t in shrunk' ==> t in shrunk || DeletedFrom(stmts, outcomes, t))
    && (forall t :: t in broke ==> broke[t] < |outcomes| && (stmts[broke[t]].Insert? ==> t in shrunk'))
  }

  lemma BlamedNone(stmts: seq<Tables.Statement>, shrunk: set<nat>)
    ensures Blamed(stmts, [], shrunk, shrunk, map[])
  {
  }

  lemma BrokenBefore(stmts: seq<Tables.Statement>, outcomes: seq<Tables.Outcome>, shrunk: set<nat>, shrunk': set<nat>, broke: map<nat, nat>)
    requires Blamed(stmts, outcomes, shrunk, shrunk', broke) && |outcomes| < |stmts|
    ensures var s := stmts[|outcomes|]; !s.Create? && s.table in broke ==> broke[s.table] < |outcomes|
  {
  }

  lemma BlamedMeans(stmts: seq<Tables.Statement>, outcomes: seq<Tables.Outcome>, shrunk: set<nat>, shrunk': set<nat>, broke: map<nat, nat>)
    requires Blamed(stmts, outcomes, shrunk, shrunk', broke)
    ensures forall t :: t in shrunk' ==> t in shrunk || DeletedFrom(stmts, outcomes, t)
    ensures forall t :: t in broke ==> broke[t] < |stmts| && (stmts[broke[t]].Insert? ==> t in shrunk')
  {
    hide DeletedFrom;
  }

  lemma BlamedNext(stmts: seq<Tables.Statement>, outcomes: seq<Tables.Outcome>, r: Tables.Outcome, shrunk: set<nat>, shrunk': set<nat>,
                   shrunk'': set<nat>, broke: map<nat, nat>, broke': map<nat, nat>)
    requires |outcomes| < |stmts| && Blamed(stmts, outcomes, shrunk, shrunk', broke)
    requires var s := stmts[|outcomes|];
             && shrunk' <= shrunk'' <= shrunk' + (if s.Delete? && r == Tables.Success then {s.table} else {})
             && (broke' == broke || (!s.Create? && broke' == broke[s.table := |outcomes|] && (s.Insert? ==> s.table in shrunk'')))
    ensures Blamed(stmts, outcomes + [r], shrunk, shrunk'', broke')
  {
    DeletedLater(stmts, outcomes, r);
    hide DeletedFrom;
  }

  lemma DeletedLater(stmts: seq<Tables.Statement>, outcomes: seq<Tables.Outcome>, r: Tables.Outcome)
    requires |outcomes| < |stmts|
    ensures forall t :: DeletedFrom(stmts, outcomes, t) ==> DeletedFrom(stmts, outcomes + [r], t)
    ensures var s := stmts[|outcomes|]; s.Delete? && r == Tables.Success ==> DeletedFrom(stmts, outcomes + [r], s.table)
  {
    var longer := outcomes + [r];
    forall t | DeletedFrom(stmts, outcomes, t) ensures DeletedFrom(stmts, longer, t) {
      var i :| 0 <= i < |outcomes| && i < |stmts| && stmts[i].Delete? && stmts[i].table == t && outcomes[i] == Tables.Success;
      assert longer[i] == outcomes[i];
    }
    assert longer[|outcomes|] == r;
  }

  /** Closing the database and opening its file again gives back the catalog and every table. */
  method Reopen(db: Database) returns (again: Database)
    requires db.Valid()
    modifies db, db.store
    ensures again.Valid() && fresh(again) && again.catalog == old(db.catalog) && again.Means() == old(db.Means())
    ensures again.shrunk == old(db.shrunk) && again.ruined == old(db.ruined) && again.store.dirty == {}
  {
    ghost var views, shrunk, ruined := db.views, db.shrunk, db.ruined;
    var file := db.Close();
    again := new Database.Open(file, views, shrunk, ruined);
  }

  /** A table that stands in order in a file of at most 1000 pages has at most two levels of internal
      pages, and every leaf is equally deep. */
  lemma ShallowTable(pages: seq<Node>, catalog: seq<TableDef>, views: seq<View>, shrunk: set<nat>, ruined: set<nat>, index: nat)
    requires DatabaseOk(pages, catalog, views, shrunk, ruined) && index < |catalog| && index !in ruined && |pages| <= 1000
    ensures catalog[index].root in views[index].level && views[index].level[catalog[index].root] <= 2
    ensures Balance.Uniform(pages, views[index].level)
  {
    var t := TreeOf(catalog[index]);
    assert TableOk(pages, catalog[index], views[index]);
    Balance.HeightBound(pages, views[index], t);
    Balance.AllLeavesEquallyDeep(pages, views[index], t);
  }
}
