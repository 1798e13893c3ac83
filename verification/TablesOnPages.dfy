/** Several tables in one page store: what each of them owes, and that a change to one leaves the
    others alone. */
module TablesOnPages {
  import opened Layout
  import opened Tree
  import opened TreeSteps
  import opened TreeCascade
  import opened TreeContents
  import opened TreeLeafUp
  import opened TreeClear
  import opened TreeRekey
  import opened TreeRuin
  import opened TreeSearch
  import opened TreeStanding
  import opened TreeInsert
  import opened Rows
  import opened Catalog
  import Sel = Select
  import Tables

  function TreeOf(def: TableDef): Table { Table(def.root, LeafNodeMaxCells(def.schema.rowSize)) }

  /** Every stored key belongs to its row. */
  ghost predicate RowsOk(schema: Schema, cs: seq<Cell>) {
    forall i {:trigger KeyMatches(schema, cs[i])} :: 0 <= i < |cs| ==> KeyMatches(schema, cs[i])
  }

  ghost predicate TableOk(pages: seq<Node>, def: TableDef, g: View) {
    && ValidSchema(def.schema) && Inv(pages, g, TreeOf(def), 0) && MinKeys(pages, g, TreeOf(def))
    && RowsOk(def.schema, Contents(pages, g.order))
  }

  /** What DELETE may destroy: leaves are half full, and none but a lone root is empty. */
  ghost predicate Unshrunk(pages: seq<Node>, def: TableDef, g: View) {
    MinCells(pages, g, TreeOf(def)) && NoEmptyLeaf(pages, g)
  }

  ghost predicate Separate(views: seq<View>) {
    forall i, j :: 0 <= i < j < |views| ==> views[i].level.Keys !! views[j].level.Keys
  }

  /** What stays true of a table whatever statements were executed on it. */
  ghost predicate TableStands(pages: seq<Node>, def: TableDef, g: View) {
    ValidSchema(def.schema) && Standing(pages, g, TreeOf(def)) && RowsOk(def.schema, Contents(pages, g.order))
  }

  /** The tables of a store; `shrunk` are those that DELETE has taken rows from, `ruined` those on
      which a statement was executed that was not sound. */
  ghost predicate DatabaseOk(pages: seq<Node>, catalog: seq<TableDef>, views: seq<View>, shrunk: set<nat>, ruined: set<nat>) {
    && |views| == |catalog| <= MAX_TABLES && |pages| >= 1 && Separate(views)
    && (forall i {:trigger TableStands(pages, catalog[i], views[i])} :: 0 <= i < |catalog| ==> TableStands(pages, catalog[i], views[i]))
    && (forall i {:trigger TableOk(pages, catalog[i], views[i])} ::
          0 <= i < |catalog| && i !in ruined ==> TableOk(pages, catalog[i], views[i]))
    && (forall i {:trigger Unshrunk(pages, catalog[i], views[i])} ::
          0 <= i < |catalog| && i !in shrunk && i !in ruined ==> Unshrunk(pages, catalog[i], views[i]))
  }

  /** A table in order stands. */
  lemma OkStands(pages: seq<Node>, def: TableDef, g: View)
    requires TableOk(pages, def, g)
    ensures TableStands(pages, def, g)
  {
    HalvesFit(def.schema);
    InvStands(pages, g, TreeOf(def));
  }

  ghost function TableMeaning(pages: seq<Node>, def: TableDef, g: View): Tables.Table {
    Tables.Table(def.name, def.schema, Tables.MapOf(Contents(pages, g.order)))
  }

  ghost function Meaning(pages: seq<Node>, catalog: seq<TableDef>, views: seq<View>): (r: seq<Tables.Table>)
    requires |views| == |catalog|
    ensures |r| == |catalog|
  {
    seq(|catalog|, i requires 0 <= i < |catalog| => TableMeaning(pages, catalog[i], views[i]))
  }

  /** A table does not notice what happens outside its pages. */
  ghost predicate SamePages(pages: seq<Node>, pages': seq<Node>, g: View) {
    |pages| <= |pages'| && forall x :: x in g.level && x < |pages| ==> pages'[x] == pages[x]
  }

  lemma InvElsewhere(pages: seq<Node>, pages': seq<Node>, g: View, t: Table)
    requires Inv(pages, g, t, 0) && SamePages(pages, pages', g)
    ensures Inv(pages', g, t, 0)
  {
    assert Dom(pages', g);
    forall x | x in g.level ensures PageOk(pages', g, t, 0, x) {
      assert PageOk(pages, g, t, 0, x);
      assert pages'[x] == pages[x];
      if pages[x].Internal? {
        assert KeysOk(pages', g, x);
        forall i | 0 <= i < |pages[x].children| ensures ChildOk(pages', g, x, i) {
          assert ChildOk(pages, g, x, i);
        }
      }
    }
    forall x, l | x in g.level && l in g.level && pages'[l].Leaf? ensures Outside(g, x, l) {
      assert pages[l].Leaf?;
    }
    assert OrderOk(pages', g);
  }

  lemma TableElsewhere(pages: seq<Node>, pages': seq<Node>, def: TableDef, g: View)
    requires TableOk(pages, def, g) && SamePages(pages, pages', g)
    ensures TableOk(pages', def, g) && TableMeaning(pages', def, g) == TableMeaning(pages, def, g)
    ensures Unshrunk(pages, def, g) ==> Unshrunk(pages', def, g)
  {
    var t := TreeOf(def);
    InvElsewhere(pages, pages', g, t);
    forall i | 0 <= i < |g.order| ensures g.order[i] < |pages| && pages'[g.order[i]] == pages[g.order[i]] {
      assert g.order[i] in g.level;
    }
    ContentsFrame(pages, pages', g.order);
    hide Inv;
    forall x | x in g.level && x < |pages'| && pages'[x].Internal?
      ensures |pages'[x].keys| >= if x == t.root then 1 else TreeHalves.SPLIT - 1
    {
    }
  }

  lemma StandingElsewhere(pages: seq<Node>, pages': seq<Node>, g: View, t: Table)
    requires Standing(pages, g, t) && SamePages(pages, pages', g)
    ensures Standing(pages', g, t)
  {
    forall x | x in g.level ensures InPlace(pages', g.level, t, 0, x) && LeafStands(pages', g, t, x) {
      StandingPage(pages, g, t, x);
    }
    forall i | 0 <= i < |g.order| ensures Link(pages', g.order, i) { assert Link(pages, g.order, i) && g.order[i] in g.level; }
    hide InPlace, Link, LeafStands;
  }

  lemma StandingPage(pages: seq<Node>, g: View, t: Table, x: nat)
    requires Standing(pages, g, t) && x in g.level
    ensures InPlace(pages, g.level, t, 0, x) && LeafStands(pages, g, t, x)
    ensures x != t.root ==> InPlace(pages, g.level, t, 0, pages[x].parent)
  {
    assert InPlace(pages, g.level, t, 0, x) && LeafStands(pages, g, t, x);
  }

  lemma StandsElsewhere(pages: seq<Node>, pages': seq<Node>, def: TableDef, g: View)
    requires TableStands(pages, def, g) && SamePages(pages, pages', g)
    ensures TableStands(pages', def, g) && Contents(pages', g.order) == Contents(pages, g.order)
    ensures TableMeaning(pages', def, g) == TableMeaning(pages, def, g)
  {
    StandingElsewhere(pages, pages', g, TreeOf(def));
    forall i | 0 <= i < |g.order| ensures g.order[i] in g.level && g.order[i] < |pages| {
      assert g.order[i] in g.level;
      StandingPage(pages, g, TreeOf(def), g.order[i]);
    }
    hide Standing;
    ContentsFrame(pages, pages', g.order);
  }

  /** One table changed its pages, took new ones, and is in order again, or ruined. */
  lemma OneTableChanged(pages: seq<Node>, catalog: seq<TableDef>, views: seq<View>, shrunk: set<nat>, ruined: set<nat>,
                        index: nat, pages': seq<Node>, g': View, shrunk': set<nat>, ruined': set<nat>)
    requires DatabaseOk(pages, catalog, views, shrunk, ruined) && index < |catalog| && shrunk <= shrunk'
    requires ruined <= ruined' && Framed(pages, views[index], pages', g') && TableStands(pages', catalog[index], g')
    requires index !in ruined' ==> TableOk(pages', catalog[index], g')
    requires index !in shrunk' && index !in ruined' ==> Unshrunk(pages', catalog[index], g')
    ensures DatabaseOk(pages', catalog, views[index := g'], shrunk', ruined')
    ensures Meaning(pages', catalog, views[index := g'])
         == Meaning(pages, catalog, views)[index := TableMeaning(pages', catalog[index], g')]
  {
    var views' := views[index := g'];
    forall i | 0 <= i < |catalog| && i != index
      ensures views[i].level.Keys !! g'.level.Keys
      ensures TableStands(pages', catalog[i], views'[i])
      ensures i !in ruined' ==> TableOk(pages', catalog[i], views'[i])
      ensures TableMeaning(pages', catalog[i], views'[i]) == TableMeaning(pages, catalog[i], views[i])
      ensures i !in shrunk' && i !in ruined' ==> Unshrunk(pages', catalog[i], views'[i])
    {
      OtherTable(pages, catalog, views, shrunk, ruined, index, pages', g', i);
    }
    hide TableOk, TableStands, Unshrunk, TableMeaning, Framed;
  }

  /** A statement on one table writes no page of another, and none of the catalog, whether or not it
      leaves its own table in order, and whether or not the other one is. */
  lemma OtherTable(pages: seq<Node>, catalog: seq<TableDef>, views: seq<View>, shrunk: set<nat>, ruined: set<nat>,
                   index: nat, pages': seq<Node>, g': View, i: nat)
    requires DatabaseOk(pages, catalog, views, shrunk, ruined) && index < |catalog| && i < |catalog| && i != index
    requires Framed(pages, views[index], pages', g')
    ensures views[i].level.Keys !! g'.level.Keys
    ensures TableStands(pages', catalog[i], views[i]) && (i !in ruined ==> TableOk(pages', catalog[i], views[i]))
    ensures TableMeaning(pages', catalog[i], views[i]) == TableMeaning(pages, catalog[i], views[i])
    ensures i !in shrunk && i !in ruined ==> Unshrunk(pages', catalog[i], views[i])
    ensures forall x :: x in views[i].level ==> 0 < x < |pages| <= |pages'| && pages'[x] == pages[x]
  {
    assert TableStands(pages, catalog[i], views[i]) && (i !in ruined ==> TableOk(pages, catalog[i], views[i]));
    assert i !in shrunk && i !in ruined ==> Unshrunk(pages, catalog[i], views[i]);
    assert views[i].level.Keys !! views[index].level.Keys;
    forall x | x in views[i].level ensures 0 < x < |pages| && x !in g'.level && pages'[x] == pages[x] {
      assert InPlace(pages, views[i].level, TreeOf(catalog[i]), 0, x);
    }
    hide Standing, Inv, RowsOk, Unshrunk;
    StandsElsewhere(pages, pages', catalog[i], views[i]);
    if i !in ruined { TableElsewhere(pages, pages', catalog[i], views[i]); }
  }

  /** A new table on a fresh page. */
  ghost function FreshView(root: nat): View {
    View(map[root := 0], map[root := -1], map[root := MAX_KEY], map[], [root])
  }

  lemma FreshTable(pages: seq<Node>, def: TableDef)
    requires ValidSchema(def.schema) && 0 < def.root < |pages| && pages[def.root] == Leaf(true, 0, 0, [])
    ensures TableOk(pages, def, FreshView(def.root)) && Unshrunk(pages, def, FreshView(def.root))
    ensures TableStands(pages, def, FreshView(def.root))
    ensures TableMeaning(pages, def, FreshView(def.root)) == Tables.Table(def.name, def.schema, map[])
  {
    assert Contents(pages, [def.root]) == CellsAt(pages, def.root) + Contents(pages, []);
    hide Standing;
    OkStands(pages, def, FreshView(def.root));
  }

  lemma TableAdded(pages: seq<Node>, catalog: seq<TableDef>, views: seq<View>, shrunk: set<nat>, ruined: set<nat>, pages': seq<Node>, def: TableDef)
    requires DatabaseOk(pages, catalog, views, shrunk, ruined) && |catalog| < MAX_TABLES && ValidSchema(def.schema)
    requires def.root == |pages| && |pages'| == |pages| + 1 && pages'[..|pages|] == pages
    requires pages'[def.root] == Leaf(true, 0, 0, []) && |catalog| !in shrunk && |catalog| !in ruined
    ensures DatabaseOk(pages', catalog + [def], views + [FreshView(def.root)], shrunk, ruined)
    ensures Meaning(pages', catalog + [def], views + [FreshView(def.root)])
         == Meaning(pages, catalog, views) + [Tables.Table(def.name, def.schema, map[])]
  {
    FreshTable(pages', def);
    var catalog', views' := catalog + [def], views + [FreshView(def.root)];
    forall i | 0 <= i < |catalog|
      ensures TableStands(pages', catalog[i], views[i]) && def.root !in views[i].level
      ensures i !in ruined ==> TableOk(pages', catalog[i], views[i])
      ensures TableMeaning(pages', catalog[i], views[i]) == TableMeaning(pages, catalog[i], views[i])
      ensures i !in shrunk && i !in ruined ==> Unshrunk(pages', catalog[i], views[i])
    {
      TableKept(pages, catalog, views, shrunk, ruined, pages', i);
    }
    hide TableOk, TableStands, Unshrunk, TableMeaning;
  }

  /** Appending a page disturbs no table. */
  lemma TableKept(pages: seq<Node>, catalog: seq<TableDef>, views: seq<View>, shrunk: set<nat>, ruined: set<nat>,
                  pages': seq<Node>, i: nat)
    requires DatabaseOk(pages, catalog, views, shrunk, ruined) && i < |catalog|
    requires |pages'| == |pages| + 1 && pages'[..|pages|] == pages
    ensures TableStands(pages', catalog[i], views[i]) && |pages| !in views[i].level
    ensures i !in ruined ==> TableOk(pages', catalog[i], views[i])
    ensures TableMeaning(pages', catalog[i], views[i]) == TableMeaning(pages, catalog[i], views[i])
    ensures i !in shrunk && i !in ruined ==> Unshrunk(pages', catalog[i], views[i])
  {
    assert TableStands(pages, catalog[i], views[i]) && (i !in ruined ==> TableOk(pages, catalog[i], views[i]));
    assert i !in shrunk && i !in ruined ==> Unshrunk(pages, catalog[i], views[i]);
    forall x | x in views[i].level ensures x < |pages| && pages'[x] == pages[x] {
      assert InPlace(pages, views[i].level, TreeOf(catalog[i]), 0, x);
    }
    hide Standing, Inv, RowsOk, Unshrunk;
    StandsElsewhere(pages, pages', catalog[i], views[i]);
    if i !in ruined { TableElsewhere(pages, pages', catalog[i], views[i]); }
  }

  /** The key is in the table exactly when it sits at the cursor. */
  lemma Lookup(pages: seq<Node>, def: TableDef, g: View, page: nat, cell: nat, key: Key) returns (j: nat, pos: nat)
    requires TableOk(pages, def, g) && Found(pages, g, page, cell, key)
    ensures j < |g.order| && g.order[j] == page && pos == Position(pages, g.order, j, cell)
    ensures SortedCells(Contents(pages, g.order)) && IsCellLowerBound(Contents(pages, g.order), key, pos)
    ensures var rows := TableMeaning(pages, def, g).rows;
            && (key in rows <==> cell < |pages[page].cells| && pages[page].cells[cell].key == key)
            && (key in rows ==> pos < |Contents(pages, g.order)| && Contents(pages, g.order)[pos] == pages[page].cells[cell]
                                && rows[key] == pages[page].cells[cell].row)
  {
    j, pos := LookupCell(pages, TreeOf(def), g, page, cell, key);
    var all := Contents(pages, g.order);
    hide Inv, Contents, Position, SortedCells, IsCellLowerBound, RowsOk, MinKeys;
    LookupMap(all, key, cell < |pages[page].cells| && pages[page].cells[cell].key == key);
    if cell < |pages[page].cells| && pages[page].cells[cell].key == key {
      Tables.CellInMap(all, pos);
    }
  }

  lemma LookupCell(pages: seq<Node>, t: Table, g: View, page: nat, cell: nat, key: Key) returns (j: nat, pos: nat)
    requires Inv(pages, g, t, 0) && Found(pages, g, page, cell, key)
    ensures j < |g.order| && g.order[j] == page && pos == Position(pages, g.order, j, cell)
    ensures var all := Contents(pages, g.order); var present := cell < |pages[page].cells| && pages[page].cells[cell].key == key;
            && SortedCells(all) && IsCellLowerBound(all, key, pos) && (present <==> exists x :: x in all && x.key == key)
            && (present ==> pos < |all| && all[pos] == pages[page].cells[cell])
  {
    j := LeafPlace(pages, g, t, 0, page);
    pos := Position(pages, g.order, j, cell);
    GlobalLowerBound(pages, g, t, j, cell, key);
    ContentsSorted(pages, g, t);
    ContentsSplit(pages, g.order, j);
    hide Inv, Contents, SortedCells, IsCellLowerBound;
  }

  lemma LookupMap(all: seq<Cell>, key: Key, present: bool)
    requires SortedCells(all) && (present <==> exists x :: x in all && x.key == key)
    ensures key in Tables.MapOf(all) <==> present
  {
    Tables.KeyInMap(all, key);
    if present { var x :| x in all && x.key == key; }
    if i :| 0 <= i < |all| && all[i].key == key { assert all[i] in all; }
  }

  /** After an insert: the table's map has the new entry and no other change. */
  lemma InsertedTable(pages: seq<Node>, def: TableDef, g: View, pages': seq<Node>, g': View, c: Cell)
    requires TableOk(pages, def, g) && TreeInserted(pages, g, pages', g', TreeOf(def), c) && KeyMatches(def.schema, c)
    ensures TableOk(pages', def, g')
    ensures TableMeaning(pages', def, g')
         == TableMeaning(pages, def, g).(rows := TableMeaning(pages, def, g).rows[c.key := c.row])
    ensures Unshrunk(pages, def, g) ==> Unshrunk(pages', def, g')
  {
    var t, had, has := TreeOf(def), Contents(pages, g.order), Contents(pages', g'.order);
    ContentsSorted(pages, g, t);
    ContentsSorted(pages', g', t);
    hide Inv, Contents, MinKeys, MinCells, NonEmpty, Framed;
    var pos: nat :| IsCellLowerBound(had, c.key, pos) && has == WithCell(had, pos, c);
    Tables.MapAdd(had, has, pos, c);
    forall i | 0 <= i < |has| ensures KeyMatches(def.schema, has[i]) {
      assert has[i] == if i < pos then had[i] else if i == pos then c else had[i - 1];
      if i < pos { assert KeyMatches(def.schema, had[i]); }
      if i > pos { assert KeyMatches(def.schema, had[i - 1]); }
    }
  }

  /** Only leaf `page` differs, and it is still a leaf. */
  ghost predicate LeafEdited(pages: seq<Node>, g: View, page: nat, pages': seq<Node>) {
    && |pages'| == |pages| && page < |pages| && page in g.level && pages[page].Leaf? && pages'[page].Leaf?
    && pages' == pages[page := pages'[page]]
  }

  lemma EditKeepsKeys(pages: seq<Node>, g: View, t: Table, page: nat, pages': seq<Node>)
    requires LeafEdited(pages, g, page, pages') && MinKeys(pages, g, t)
    ensures MinKeys(pages', g, t) && Framed(pages, g, pages', g)
  {
    forall x | x in g.level && x < |pages'| && pages'[x].Internal?
      ensures |pages'[x].keys| >= if x == t.root then 1 else TreeHalves.SPLIT - 1
    {
      assert pages[x] == pages'[x];
    }
  }

  /** After the row at a cursor was deleted. */
  lemma DeletedTable(pages: seq<Node>, def: TableDef, g: View, page: nat, cell: nat, key: Key, pages': seq<Node>)
    requires TableOk(pages, def, g) && Found(pages, g, page, cell, key) && cell < |pages[page].cells| && pages[page].cells[cell].key == key
    requires LeafEdited(pages, g, page, pages') && Inv(pages', g, TreeOf(def), 0)
    requires pages'[page].cells == pages[page].cells[..cell] + pages[page].cells[cell + 1..]
    ensures TableOk(pages', def, g) && Framed(pages, g, pages', g)
    ensures TableMeaning(pages', def, g)
         == TableMeaning(pages, def, g).(rows := TableMeaning(pages, def, g).rows - {key})
  {
    var had, has := Contents(pages, g.order), Contents(pages', g.order);
    EditKeepsKeys(pages, g, TreeOf(def), page, pages');
    var pos := DeletedCells(pages, def, g, page, cell, key, pages');
    assert RowsOk(def.schema, had);
    hide Inv, Contents, MinKeys, Framed, RowsOk, SortedCells, Found, LeafEdited;
    Tables.MapRemove(had, pos);
    RowsWithout(def.schema, had, pos);
  }

  lemma DeletedCells(pages: seq<Node>, def: TableDef, g: View, page: nat, cell: nat, key: Key, pages': seq<Node>) returns (pos: nat)
    requires TableOk(pages, def, g) && Found(pages, g, page, cell, key) && cell < |pages[page].cells| && pages[page].cells[cell].key == key
    requires LeafEdited(pages, g, page, pages')
    requires pages'[page].cells == pages[page].cells[..cell] + pages[page].cells[cell + 1..]
    ensures var had := Contents(pages, g.order);
            && SortedCells(had) && pos < |had| && had[pos].key == key
            && Contents(pages', g.order) == had[..pos] + had[pos + 1..]
  {
    hide Tables.MapOf;
    var j;
    j, pos := Lookup(pages, def, g, page, cell, key);
    assert key in TableMeaning(pages, def, g).rows;
    hide TableMeaning, IsCellLowerBound, SortedCells, Contents, RowsOk, MinKeys, ValidSchema;
    TreeLeaf.OrderDistinct(pages, g, TreeOf(def), 0, j);
    hide Inv;
    ContentsDelete(pages, pages', g.order, j, cell);
  }

  lemma RowsWithout(schema: Schema, had: seq<Cell>, pos: nat)
    requires RowsOk(schema, had) && pos < |had|
    ensures RowsOk(schema, had[..pos] + had[pos + 1..])
  {
    var has := had[..pos] + had[pos + 1..];
    hide KeyMatches;
    forall i | 0 <= i < |has| ensures KeyMatches(schema, has[i]) {
      assert has[i] == had[if i < pos then i else i + 1];
      assert KeyMatches(schema, had[if i < pos then i else i + 1]);
    }
  }

  lemma RowsWith(schema: Schema, had: seq<Cell>, pos: nat, c: Cell)
    requires RowsOk(schema, had) && pos < |had| && KeyMatches(schema, c)
    ensures RowsOk(schema, had[pos := c])
  {
    hide KeyMatches;
    var has := had[pos := c];
    forall i | 0 <= i < |has| ensures KeyMatches(schema, has[i]) {
      if i != pos { assert has[i] == had[i] && KeyMatches(schema, had[i]); }
    }
  }

  /** After the row at a cursor was replaced by one that keeps the tree in order. */
  lemma UpdatedTable(pages: seq<Node>, def: TableDef, g: View, page: nat, cell: nat, key: Key, c: Cell, pages': seq<Node>)
    requires TableOk(pages, def, g) && Found(pages, g, page, cell, key) && cell < |pages[page].cells| && pages[page].cells[cell].key == key
    requires pages' == Rewritten(pages, page, cell, c) && KeyMatches(def.schema, c) && Inv(pages', g, TreeOf(def), 0)
    ensures TableOk(pages', def, g) && Framed(pages, g, pages', g)
    ensures TableMeaning(pages', def, g)
         == TableMeaning(pages, def, g).(rows := (TableMeaning(pages, def, g).rows - {key})[c.key := c.row])
    ensures Unshrunk(pages, def, g) ==> Unshrunk(pages', def, g)
  {
    var t, had, has := TreeOf(def), Contents(pages, g.order), Contents(pages', g.order);
    hide Inv;
    var j, pos := Lookup(pages, def, g, page, cell, key);
    EditKeepsKeys(pages, g, t, page, pages');
    TreeLeaf.OrderDistinct(pages, g, t, 0, j);
    ContentsUpdate(pages, pages', g.order, j, cell, c);
    ContentsSorted(pages', g, t);
    assert SortedCells(had) && RowsOk(def.schema, had);
    hide Inv, Contents, MinKeys, Framed, Position, RowsOk, SortedCells, IsCellLowerBound;
    Tables.MapMoved(had, pos, c);
    RowsWith(def.schema, had, pos, c);
  }

  /** An insert of the key ends in a tree, or is not carried out because the key is present. */
  ghost predicate InsertSound(pages: seq<Node>, def: TableDef, g: View, key: Key) {
    key in TableMeaning(pages, def, g).rows
    || forall page: nat, cell: nat :: Found(pages, g, page, cell, key) ==> InsertClear(pages, g, TreeOf(def), page)
  }

  /** An update that gives the row of `key` the key `newKey` leaves a tree, or does not find a row. */
  ghost predicate UpdateSound(pages: seq<Node>, g: View, key: Key, newKey: Key) {
    forall p: nat, i: nat, q: nat, j: nat ::
      Found(pages, g, p, i, key) && i < |pages[p].cells| && pages[p].cells[i].key == key && Found(pages, g, q, j, newKey) ==>
        StaysPut(pages, p, i, q, j, newKey)
  }

  /** A statement ends in trees again. Only INSERT and UPDATE may fail to. */
  ghost predicate Sound(pages: seq<Node>, catalog: seq<TableDef>, views: seq<View>, s: Tables.Statement)
    requires |views| == |catalog|
  {
    match s
    case Insert(i, _, key) => i < |catalog| ==> InsertSound(pages, catalog[i], views[i], key)
    case Update(i, key, mask, vals) => i < |catalog| ==> UpdateSound(pages, views[i], key, Tables.NewKey(key, mask, vals))
    case _ => true
  }

  /** The pages of the statement's table are no tree, whatever view one takes of them. */
  ghost predicate Broken(pages: seq<Node>, catalog: seq<TableDef>, s: Tables.Statement) {
    !s.Create? && s.table < |catalog| && NoTree(pages, catalog[s.table])
  }

  ghost predicate NoTree(pages: seq<Node>, def: TableDef) { forall v, over :: !Inv(pages, v, TreeOf(def), over) }

  /** There is one cursor for a key. */
  lemma FoundOnce(pages: seq<Node>, g: View, t: Table, p: nat, i: nat, q: nat, j: nat, key: Key)
    requires Inv(pages, g, t, 0) && Found(pages, g, p, i, key) && Found(pages, g, q, j, key)
    ensures p == q && i == j
  {
    if p != q { LeavesDisjoint(pages, g, t, 0, p, q); }
    hide Inv;
    var cells := pages[p].cells;
    assert i < |cells| ==> (cells[i].key < key <==> i < j);
    assert j < |cells| ==> (cells[j].key < key <==> j < i);
  }

  lemma InsertSoundAt(pages: seq<Node>, def: TableDef, g: View, page: nat, cell: nat, key: Key)
    requires TableOk(pages, def, g) && Found(pages, g, page, cell, key)
    ensures InsertSound(pages, def, g, key) <==> key in TableMeaning(pages, def, g).rows || InsertClear(pages, g, TreeOf(def), page)
  {
    forall p: nat, c: nat | Found(pages, g, p, c, key) ensures p == page {
      FoundOnce(pages, g, TreeOf(def), p, c, page, cell, key);
    }
    hide Inv, TableMeaning, InsertClear;
  }

  lemma UpdateSoundAt(pages: seq<Node>, def: TableDef, g: View, p: nat, i: nat, key: Key, q: nat, j: nat, newKey: Key)
    requires TableOk(pages, def, g) && Found(pages, g, p, i, key) && Found(pages, g, q, j, newKey)
    requires i < |pages[p].cells| && pages[p].cells[i].key == key
    ensures UpdateSound(pages, g, key, newKey) <==> StaysPut(pages, p, i, q, j, newKey)
  {
    forall p': nat, i': nat | Found(pages, g, p', i', key) ensures p' == p && i' == i {
      FoundOnce(pages, g, TreeOf(def), p', i', p, i, key);
    }
    forall q': nat, j': nat | Found(pages, g, q', j', newKey) ensures q' == q && j' == j {
      FoundOnce(pages, g, TreeOf(def), q', j', q, j, newKey);
    }
    hide Inv;
  }

  lemma UpdateSoundAbsent(pages: seq<Node>, def: TableDef, g: View, p: nat, i: nat, key: Key, newKey: Key)
    requires TableOk(pages, def, g) && Found(pages, g, p, i, key) && (i < |pages[p].cells| ==> pages[p].cells[i].key != key)
    ensures UpdateSound(pages, g, key, newKey)
  {
    forall p': nat, i': nat | Found(pages, g, p', i', key) ensures p' == p && i' == i {
      FoundOnce(pages, g, TreeOf(def), p', i', p, i, key);
    }
    hide Inv;
  }

  /** The cursor of an absent key is fit for leaf_node_insert. */
  lemma ReadyToPut(pages: seq<Node>, def: TableDef, g: View, page: nat, cell: nat, c: Cell)
    requires TableOk(pages, def, g) && Found(pages, g, page, cell, c.key)
    requires c.key !in TableMeaning(pages, def, g).rows
    ensures Insertable(pages, g, TreeOf(def), page, cell, c)
  {
    HalvesFit(def.schema);
    var j, pos := Lookup(pages, def, g, page, cell, c.key);
    hide Tables.MapOf, Contents, RowsOk, MinKeys, Position;
  }

  /** The pages of a table name their parents. */
  lemma TableUpward(pages: seq<Node>, g: View, t: Table)
    requires Inv(pages, g, t, 0)
    ensures Upward(pages, g.level, t.root)
  {
    InvShape(pages, g, t, 0);
    TreeLeaf.RootTop(pages, g, t, 0);
    forall x | x in g.level
      ensures x < |pages| && g.level[x] <= g.level[t.root] && (x != t.root ==> HasParent(pages, g.level, t.root, x))
      ensures pages[x].Internal? ==> |pages[x].children| == |pages[x].keys| + 1
    {
      assert PageOk(pages, g, t, 0, x);
      if x != t.root { TreeLeaf.PageBelowParent(pages, g, t, 0, x); }
    }
  }

  /** A table without empty leaves is clear everywhere. */
  lemma NonEmptyClear(pages: seq<Node>, def: TableDef, g: View, page: nat)
    requires TableOk(pages, def, g) && NoEmptyLeaf(pages, g) && page in g.level && page < |pages| && pages[page].Leaf?
    ensures InsertClear(pages, g, TreeOf(def), page)
  {
    var t := TreeOf(def);
    if page != t.root {
      TwoLeaves(pages, g, t, page);
      TableUpward(pages, g, t);
      forall x | x in g.level ensures Fine(pages, g.level, x) {
        RightLeafEnds(pages, g, t, 0, x);
        var l := RightLeaf(pages, g.level, x);
        var i :| 0 <= i < |g.order| && g.order[i] == l;
      }
      var y := pages[page].parent;
      assert HasParent(pages, g.level, t.root, page);
      AllFineClear(pages, g.level, t.root, y, IndexIn(pages[y].children, page));
    }
  }

  lemma UnshrunkClear(pages: seq<Node>, def: TableDef, g: View, page: nat, cell: nat, key: Key)
    requires TableOk(pages, def, g) && Unshrunk(pages, def, g) && Found(pages, g, page, cell, key)
    ensures InsertClear(pages, g, TreeOf(def), page)
  {
    NonEmptyClear(pages, def, g, page);
  }

  /** The way up from a full leaf below the root. */
  lemma LeafUpward(pages: seq<Node>, def: TableDef, g: View, page: nat, cell: nat, key: Key)
    requires TableOk(pages, def, g) && Found(pages, g, page, cell, key) && page != def.root
    requires |pages[page].cells| >= LeafNodeMaxCells(def.schema.rowSize)
    ensures Upward(pages, g.level, def.root) && HasParent(pages, g.level, def.root, page)
    ensures InsertClear(pages, g, TreeOf(def), page) <==>
            var y := pages[page].parent; Clear(pages, g.level, def.root, y, IndexIn(pages[y].children, page))
  {
    TableUpward(pages, g, TreeOf(def));
    assert HasParent(pages, g.level, def.root, page);
    hide Clear, Inv;
  }

  /** A tree with a single leaf is that leaf. */
  lemma OneLeafIsRoot(pages: seq<Node>, g: View, t: Table, page: nat)
    requires Inv(pages, g, t, 0) && MinKeys(pages, g, t) && |g.order| == 1 && page in g.level && pages[page].Leaf?
    ensures page == t.root
  {
    var l := g.order[0];
    assert forall x :: x in g.order ==> x == l;
    assert page in g.order;
    assert PageOk(pages, g, t, 0, t.root);
    if pages[t.root].Leaf? { assert t.root in g.order; }
    if pages[t.root].Internal? {
      var c := pages[t.root].children[0];
      assert ChildOk(pages, g, t.root, 0) && KeysOk(pages, g, t.root);
      assert g.hi[c] < MAX_KEY && g.hi[l] == MAX_KEY;
      InvShape(pages, g, t, 0);
      RightLeafEnds(pages, g, t, 0, c);
    }
  }

  /** A leaf below the root is not alone. */
  lemma TwoLeaves(pages: seq<Node>, g: View, t: Table, page: nat)
    requires Inv(pages, g, t, 0) && MinKeys(pages, g, t) && page in g.level && pages[page].Leaf? && page != t.root
    ensures |g.order| >= 2 && pages[t.root].Internal?
  {
    if |g.order| == 1 { OneLeafIsRoot(pages, g, t, page); }
    assert PageOk(pages, g, t, 0, t.root);
    if pages[t.root].Leaf? { LeavesDisjoint(pages, g, t, 0, page, t.root); }
  }

  // Rows put, dropped and replaced

  ghost predicate Gained(a: seq<Cell>, b: seq<Cell>, at: nat, c: Cell) { at <= |a| && b == a[..at] + [c] + a[at..] }

  ghost predicate Lost(a: seq<Cell>, b: seq<Cell>, at: nat, key: Key) {
    at < |a| && a[at].key == key && b == a[..at] + a[at + 1..]
  }

  ghost predicate Replaced(a: seq<Cell>, b: seq<Cell>, at: nat, key: Key, c: Cell) {
    at < |a| && a[at].key == key && b == a[at := c]
  }

  /** No page outside a table was written. */
  ghost predicate OnlyPages(before: seq<Node>, level: map<nat, nat>, after: seq<Node>) {
    |before| <= |after| && forall x :: 0 <= x < |before| && x !in level ==> after[x] == before[x]
  }

  lemma SamePagesOnly(pages: seq<Node>, level: map<nat, nat>)
    ensures OnlyPages(pages, level, pages)
  {
  }

  lemma TakenPages(pages: seq<Node>, g: View, t: Table, page: nat, cell: nat, c: Cell, pages': seq<Node>, g': View)
    requires Taken(pages, g, t, page, cell, c, pages', g')
    ensures OnlyPages(pages, g.level, pages')
  {
    hide Standing, RowPut;
  }

  /** The cell as an UPDATE leaves it: the key of the new first column, if that is written; columns that are written
      read back as the new values, the others as before. */
  ghost predicate Changed(schema: Schema, was: Cell, mask: seq<bool>, vals: seq<Value>, c: Cell) {
    && FieldsFit(schema.fields, |was.row|) && FieldsFit(schema.fields, |c.row|) && |mask| == |vals| == |schema.fields|
    && (if mask != [] && mask[0] then IsKeyOf(c.key, vals[0]) else c.key == was.key)
    && forall j {:trigger vals[j]} :: 0 <= j < |vals| ==>
         FieldValue(schema.fields[j], c.row) == if mask[j] then vals[j] else FieldValue(schema.fields[j], was.row)
  }

  /** What a statement does and answers, be the table in order or ruined. find_node decides whether the key is
      there; if so the cell it comes to is taken out or changed, if not the new cell goes where it points. `a` and
      `b` are the cells of the chain before and after. */
  ghost predicate Handled(s: Tables.Statement, r: Tables.Outcome, pages: seq<Node>, g: View, def: TableDef, a: seq<Cell>, b: seq<Cell>) {
    && Walkable(pages, g.level) && def.root in g.level
    && match s
       case Create(_, _) => true
       case Insert(_, vals, key) =>
         if Sits(pages, g.level, def.root, key) then r == Tables.DuplicateKey && b == a
         else r == Tables.Success && exists row :: Tables.Reads(def.schema, row, vals) && Gained(a, b, CursorOf(pages, g, def.root, key), Cell(key, row))
       case Delete(_, key) =>
         if Sits(pages, g.level, def.root, key) then r == Tables.Success && Lost(a, b, CursorOf(pages, g, def.root, key), key)
         else r == Tables.KeyNotFound && b == a
       case Update(_, key, mask, vals) =>
         if Sits(pages, g.level, def.root, key) then
           && r == Tables.Success
           && exists c :: Replaced(a, b, CursorOf(pages, g, def.root, key), key, c)
                          && Changed(def.schema, a[CursorOf(pages, g, def.root, key)], mask, vals, c)
         else r == Tables.KeyNotFound && b == a
       case Select(_, w) => r.Rows? && Sel.ScanResult(pages, g, TreeOf(def), w, r.rows) && b == a
  }

  lemma HandledInsert(index: nat, vals: seq<Value>, key: Key, r: Tables.Outcome, pages: seq<Node>, g: View, def: TableDef, row: Row,
                      a: seq<Cell>, b: seq<Cell>)
    requires Walkable(pages, g.level) && def.root in g.level
    requires if Sits(pages, g.level, def.root, key) then r == Tables.DuplicateKey && b == a
             else r == Tables.Success && Tables.Reads(def.schema, row, vals) && Gained(a, b, CursorOf(pages, g, def.root, key), Cell(key, row))
    ensures Handled(Tables.Insert(index, vals, key), r, pages, g, def, a, b)
  {
    hide Sits, CursorOf, Gained, Tables.Reads, Walkable;
  }

  lemma HandledUpdate(index: nat, key: Key, mask: seq<bool>, vals: seq<Value>, r: Tables.Outcome, pages: seq<Node>, g: View, def: TableDef,
                      c: Cell, a: seq<Cell>, b: seq<Cell>)
    requires Walkable(pages, g.level) && def.root in g.level
    requires if Sits(pages, g.level, def.root, key) then
               && r == Tables.Success && Replaced(a, b, CursorOf(pages, g, def.root, key), key, c)
               && Changed(def.schema, a[CursorOf(pages, g, def.root, key)], mask, vals, c)
             else r == Tables.KeyNotFound && b == a
    ensures Handled(Tables.Update(index, key, mask, vals), r, pages, g, def, a, b)
  {
    hide Sits, CursorOf, Changed, Walkable;
  }

  /** Where find_node points in the whole chain. */
  ghost function CursorOf(pages: seq<Node>, g: View, root: nat, key: Key): nat
    requires Walkable(pages, g.level) && root in g.level
  {
    var page := Search(pages, g.level, root, key);
    PlaceOf(pages, g, page, SearchCell(pages[page].cells, key))
  }

  /** The table has a tree, in some view. */
  ghost predicate HasTree(pages: seq<Node>, def: TableDef) { exists v :: Inv(pages, v, TreeOf(def), 0) }

  /** A row was put at a cursor, and the table stands again. */
  lemma PutLoose(pages: seq<Node>, catalog: seq<TableDef>, views: seq<View>, shrunk: set<nat>, ruined: set<nat>, index: nat,
                 page: nat, cell: nat, c: Cell, pages': seq<Node>, g': View)
    requires DatabaseOk(pages, catalog, views, shrunk, ruined) && index < |catalog| && KeyMatches(catalog[index].schema, c)
    requires Taken(pages, views[index], TreeOf(catalog[index]), page, cell, c, pages', g')
    ensures DatabaseOk(pages', catalog, views[index := g'], shrunk, ruined + {index})
    ensures Tables.OnlyTable(Meaning(pages, catalog, views), Meaning(pages', catalog, views[index := g']), index)
    ensures Meaning(pages', catalog, views[index := g'])[index] == TableMeaning(pages', catalog[index], g')
    ensures Gained(Contents(pages, views[index].order), Contents(pages', g'.order), PlaceOf(pages, views[index], page, cell), c)
  {
    var def, g := catalog[index], views[index];
    assert TableStands(pages, def, g);
    hide Standing, Framed;
    TakenGained(pages, def, g, page, cell, c, pages', g');
    hide Taken, Gained;
    OneTableChanged(pages, catalog, views, shrunk, ruined, index, pages', g', shrunk, ruined + {index});
  }

  lemma TakenGained(pages: seq<Node>, def: TableDef, g: View, page: nat, cell: nat, c: Cell, pages': seq<Node>, g': View)
    requires TableStands(pages, def, g) && KeyMatches(def.schema, c) && Taken(pages, g, TreeOf(def), page, cell, c, pages', g')
    ensures TableStands(pages', def, g') && Framed(pages, g, pages', g')
    ensures Gained(Contents(pages, g.order), Contents(pages', g'.order), PlaceOf(pages, g, page, cell), c)
  {
    hide Standing, Framed, Position, Contents, PlaceOf;
    var had, has := Contents(pages, g.order), Contents(pages', g'.order);
    var j: nat :| j < |g.order| && g.order[j] == page && Position(pages, g.order, j, cell) <= |had|
      && has == WithCell(had, Position(pages, g.order, j, cell), c);
    PlaceIs(pages, g, TreeOf(def), page, cell, j);
    RowsGained(def.schema, had, Position(pages, g.order, j, cell), c);
  }

  lemma RowsGained(schema: Schema, had: seq<Cell>, pos: nat, c: Cell)
    requires RowsOk(schema, had) && pos <= |had| && KeyMatches(schema, c)
    ensures RowsOk(schema, WithCell(had, pos, c))
  {
    hide KeyMatches;
    var has := WithCell(had, pos, c);
    forall i | 0 <= i < |has| ensures KeyMatches(schema, has[i]) {
      assert has[i] == if i < pos then had[i] else if i == pos then c else had[i - 1];
      if i < pos { assert KeyMatches(schema, had[i]); }
      if i > pos { assert KeyMatches(schema, had[i - 1]); }
    }
  }

  /** In the chain of a table in order a new row has its place, even if the search tree above is broken. */
  lemma AddedMeaning(pages: seq<Node>, def: TableDef, g: View, page: nat, cell: nat, c: Cell, pages': seq<Node>, g': View)
    requires TableOk(pages, def, g) && Insertable(pages, g, TreeOf(def), page, cell, c) && CellAdded(pages, g, pages', g', c)
    ensures TableMeaning(pages', def, g')
         == TableMeaning(pages, def, g).(rows := TableMeaning(pages, def, g).rows[c.key := c.row])
  {
    var had, has := Contents(pages, g.order), Contents(pages', g'.order);
    ContentsSorted(pages, g, TreeOf(def));
    var j := LeafPlace(pages, g, TreeOf(def), 0, page);
    GlobalLowerBound(pages, g, TreeOf(def), j, cell, c.key);
    hide Inv, Contents, MinKeys, RowsOk;
    var pos: nat :| IsCellLowerBound(had, c.key, pos) && has == WithCell(had, pos, c);
    SortedWith(had, pos, c);
    Tables.MapAdd(had, has, pos, c);
  }

  lemma SortedWith(had: seq<Cell>, pos: nat, c: Cell)
    requires SortedCells(had) && IsCellLowerBound(had, c.key, pos) && !exists x :: x in had && x.key == c.key
    ensures SortedCells(WithCell(had, pos, c))
  {
    var has := WithCell(had, pos, c);
    forall i | pos <= i < |had| ensures c.key < had[i].key { assert had[i] in had; }
    forall i, j | 0 <= i < j < |has| ensures has[i].key < has[j].key {
      assert has[i] == if i < pos then had[i] else if i == pos then c else had[i - 1];
      assert has[j] == if j < pos then had[j] else if j == pos then c else had[j - 1];
    }
  }

  lemma PutDone(pages: seq<Node>, catalog: seq<TableDef>, views: seq<View>, shrunk: set<nat>, ruined: set<nat>, index: nat, c: Cell,
                pages': seq<Node>, g': View)
    requires DatabaseOk(pages, catalog, views, shrunk, ruined) && index < |catalog| && index !in ruined
    requires KeyMatches(catalog[index].schema, c) && TreeInserted(pages, views[index], pages', g', TreeOf(catalog[index]), c)
    ensures DatabaseOk(pages', catalog, views[index := g'], shrunk, ruined)
    ensures Meaning(pages', catalog, views[index := g'])
         == Meaning(pages, catalog, views)[index := TableMeaning(pages', catalog[index], g')]
    ensures var was := Meaning(pages, catalog, views);
            Meaning(pages', catalog, views[index := g']) == was[index := was[index].(rows := was[index].rows[c.key := c.row])]
  {
    var def, g := catalog[index], views[index];
    assert TableOk(pages, def, g) && (index !in shrunk ==> Unshrunk(pages, def, g));
    InsertedTable(pages, def, g, pages', g', c);
    OkStands(pages', def, g');
    OneTableChanged(pages, catalog, views, shrunk, ruined, index, pages', g', shrunk, ruined);
  }

  /** The whole outcome of an insert at a cursor. */
  ghost predicate PutOutcome(pages: seq<Node>, catalog: seq<TableDef>, views: seq<View>, shrunk: set<nat>, ruined: set<nat>,
                             index: nat, page: nat, cell: nat, c: Cell, pages': seq<Node>, g': View, ruined': set<nat>)
    requires |views| == |catalog| && index < |catalog|
  {
    && DatabaseOk(pages', catalog, views[index := g'], shrunk, ruined')
    && Tables.OnlyTable(Meaning(pages, catalog, views), Meaning(pages', catalog, views[index := g']), index)
    && Gained(Contents(pages, views[index].order), Contents(pages', g'.order), PlaceOf(pages, views[index], page, cell), c)
    && ruined' == (if index in ruined || InsertClear(pages, views[index], TreeOf(catalog[index]), page) then ruined else ruined + {index})
    && (index !in ruined ==>
          var was := Meaning(pages, catalog, views);
          Meaning(pages', catalog, views[index := g']) == was[index := was[index].(rows := was[index].rows[c.key := c.row])])
    && (index in ruined' && index !in ruined ==> NoTree(pages', catalog[index]))
  }

  lemma PutEnds(pages: seq<Node>, catalog: seq<TableDef>, views: seq<View>, shrunk: set<nat>, ruined: set<nat>, index: nat,
                page: nat, cell: nat, c: Cell, pages': seq<Node>, g': View, m0: set<nat>, m1: set<nat>)
    returns (ruined': set<nat>)
    requires DatabaseOk(pages, catalog, views, shrunk, ruined) && index < |catalog| && KeyMatches(catalog[index].schema, c)
    requires Taken(pages, views[index], TreeOf(catalog[index]), page, cell, c, pages', g')
    requires index !in ruined ==>
               && Insertable(pages, views[index], TreeOf(catalog[index]), page, cell, c)
               && Settled(pages, views[index], TreeOf(catalog[index]), page, c, pages', g', m0, m1)
    ensures PutOutcome(pages, catalog, views, shrunk, ruined, index, page, cell, c, pages', g', ruined')
  {
    var def, g := catalog[index], views[index];
    hide DatabaseOk, Taken, Insertable, KeyMatches, InsertClear, TreeInserted, TableMeaning, Meaning, Gained, Tables.OnlyTable, NoTree;
    PutLoose(pages, catalog, views, shrunk, ruined, index, page, cell, c, pages', g');
    if index in ruined {
      ruined' := ruined;
      assert ruined + {index} == ruined;
    } else if InsertClear(pages, g, TreeOf(def), page) {
      ruined' := ruined;
      PutDone(pages, catalog, views, shrunk, ruined, index, c, pages', g');
    } else {
      ruined' := ruined + {index};
      PutAdded(pages, catalog, views, shrunk, ruined, index, page, cell, c, pages', g', m0, m1);
    }
  }

  lemma PutAdded(pages: seq<Node>, catalog: seq<TableDef>, views: seq<View>, shrunk: set<nat>, ruined: set<nat>, index: nat,
                 page: nat, cell: nat, c: Cell, pages': seq<Node>, g': View, m0: set<nat>, m1: set<nat>)
    requires DatabaseOk(pages, catalog, views, shrunk, ruined) && index < |catalog| && KeyMatches(catalog[index].schema, c)
    requires Taken(pages, views[index], TreeOf(catalog[index]), page, cell, c, pages', g') && index !in ruined
    requires Insertable(pages, views[index], TreeOf(catalog[index]), page, cell, c)
    requires Settled(pages, views[index], TreeOf(catalog[index]), page, c, pages', g', m0, m1)
    requires !InsertClear(pages, views[index], TreeOf(catalog[index]), page)
    ensures var was := Meaning(pages, catalog, views);
            Meaning(pages', catalog, views[index := g']) == was[index := was[index].(rows := was[index].rows[c.key := c.row])]
    ensures NoTree(pages', catalog[index])
  {
    var def, g := catalog[index], views[index];
    var was := Meaning(pages, catalog, views);
    hide DatabaseOk, Taken, Insertable, KeyMatches, InsertClear, TreeInserted, TableMeaning, Gained;
    PutLoose(pages, catalog, views, shrunk, ruined, index, page, cell, c, pages', g');
    assert TableOk(pages, def, g) by { OneTable(pages, catalog, views, shrunk, ruined, index); }
    AddedMeaning(pages, def, g, page, cell, c, pages', g');
    OnlyOne(was, Meaning(pages', catalog, views[index := g']), index, was[index].(rows := was[index].rows[c.key := c.row]));
  }

  lemma PutReady(pages: seq<Node>, catalog: seq<TableDef>, views: seq<View>, shrunk: set<nat>, ruined: set<nat>, index: nat,
                 page: nat, cell: nat, c: Cell)
    requires DatabaseOk(pages, catalog, views, shrunk, ruined) && index < |catalog|
    requires index !in ruined ==> Found(pages, views[index], page, cell, c.key) && c.key !in Meaning(pages, catalog, views)[index].rows
    ensures index !in ruined ==> Insertable(pages, views[index], TreeOf(catalog[index]), page, cell, c)
  {
    if index !in ruined {
      CursorMeans(pages, catalog, views, shrunk, ruined, index, page, cell, c.key);
      ReadyToPut(pages, catalog[index], views[index], page, cell, c);
    }
  }

  /** The row at a cursor. */
  lemma RowUnder(pages: seq<Node>, catalog: seq<TableDef>, views: seq<View>, shrunk: set<nat>, ruined: set<nat>, index: nat,
                 page: nat, cell: nat, key: Key)
    requires DatabaseOk(pages, catalog, views, shrunk, ruined) && index < |catalog|
    requires page in views[index].level && page < |pages| && pages[page].Leaf?
    requires cell < |pages[page].cells| && pages[page].cells[cell].key == key
    requires index !in ruined ==> Found(pages, views[index], page, cell, key)
    ensures ValidSchema(catalog[index].schema) && KeyMatches(catalog[index].schema, pages[page].cells[cell])
    ensures Meaning(pages, catalog, views)[index].schema == catalog[index].schema
    ensures index !in ruined ==>
              var t := Meaning(pages, catalog, views)[index]; key in t.rows && t.rows[key] == pages[page].cells[cell].row
  {
    OneTable(pages, catalog, views, shrunk, ruined, index);
    CellMatches(pages, catalog[index], views[index], page, cell);
    MeaningAt(pages, catalog, views, index);
    if index !in ruined { CursorMeans(pages, catalog, views, shrunk, ruined, index, page, cell, key); }
  }

  /** Where nothing was deleted, every insert is clear. */
  lemma OldLeavesClear(pages: seq<Node>, catalog: seq<TableDef>, views: seq<View>, shrunk: set<nat>, ruined: set<nat>, index: nat,
                       page: nat, cell: nat, key: Key)
    requires DatabaseOk(pages, catalog, views, shrunk, ruined) && index < |catalog| && index !in ruined && index !in shrunk
    requires Found(pages, views[index], page, cell, key)
    ensures InsertClear(pages, views[index], TreeOf(catalog[index]), page)
  {
    assert TableOk(pages, catalog[index], views[index]) && Unshrunk(pages, catalog[index], views[index]);
    UnshrunkClear(pages, catalog[index], views[index], page, cell, key);
  }

  lemma OneTable(pages: seq<Node>, catalog: seq<TableDef>, views: seq<View>, shrunk: set<nat>, ruined: set<nat>, index: nat)
    requires DatabaseOk(pages, catalog, views, shrunk, ruined) && index < |catalog|
    ensures TableStands(pages, catalog[index], views[index]) && (index !in ruined ==> TableOk(pages, catalog[index], views[index]))
    ensures ValidSchema(catalog[index].schema)
  {
    assert TableStands(pages, catalog[index], views[index]);
  }

  lemma MeaningAt(pages: seq<Node>, catalog: seq<TableDef>, views: seq<View>, index: nat)
    requires |views| == |catalog| && index < |catalog|
    ensures var t := Meaning(pages, catalog, views)[index];
            && t == TableMeaning(pages, catalog[index], views[index]) && t.name == catalog[index].name && t.schema == catalog[index].schema
            && t.rows == Tables.MapOf(Contents(pages, views[index].order))
  {
  }

  lemma OnlyOne(was: seq<Tables.Table>, now: seq<Tables.Table>, t: nat, x: Tables.Table)
    requires Tables.OnlyTable(was, now, t) && t < |was| && now[t] == x
    ensures now == was[t := x]
  {
  }

  /** The cell under a cursor was dropped from its leaf. */
  lemma DeleteDone(pages: seq<Node>, catalog: seq<TableDef>, views: seq<View>, shrunk: set<nat>, ruined: set<nat>, index: nat,
                   page: nat, cell: nat, key: Key, pages': seq<Node>)
    requires DatabaseOk(pages, catalog, views, shrunk, ruined) && index < |catalog|
    requires LeafEdited(pages, views[index], page, pages') && cell < |pages[page].cells| && pages[page].cells[cell].key == key
    requires pages'[page] == pages[page].(cells := pages[page].cells[..cell] + pages[page].cells[cell + 1..])
    requires Standing(pages', views[index], TreeOf(catalog[index]))
    requires index !in ruined ==>
               Found(pages, views[index], page, cell, key) && Inv(pages', views[index], TreeOf(catalog[index]), 0)
    ensures DatabaseOk(pages', catalog, views, shrunk + {index}, ruined)
    ensures Tables.OnlyTable(Meaning(pages, catalog, views), Meaning(pages', catalog, views), index)
    ensures Lost(Contents(pages, views[index].order), Contents(pages', views[index].order), PlaceOf(pages, views[index], page, cell), key)
    ensures index !in ruined ==>
            var was := Meaning(pages, catalog, views);
            Meaning(pages', catalog, views) == was[index := was[index].(rows := was[index].rows - {key})]
  {
    var def, g := catalog[index], views[index];
    assert views == views[index := g] && |views| == |catalog|;
    hide DatabaseOk, Standing, TableOk, Found, Inv, Lost, Meaning, PlaceOf, TableMeaning, Framed, TableStands, Unshrunk, Tables.OnlyTable,
         Contents;
    OneTable(pages, catalog, views, shrunk, ruined, index);
    MeaningAt(pages, catalog, views, index);
    DroppedRow(pages, def, g, page, cell, key, pages');
    if index !in ruined { DeletedTable(pages, def, g, page, cell, key, pages'); }
    OneTableChanged(pages, catalog, views, shrunk, ruined, index, pages', g, shrunk + {index}, ruined);
    SameSchema(pages, catalog, views, pages', index);
  }

  lemma DroppedRow(pages: seq<Node>, def: TableDef, g: View, page: nat, cell: nat, key: Key, pages': seq<Node>)
    requires TableStands(pages, def, g) && LeafEdited(pages, g, page, pages') && Standing(pages', g, TreeOf(def))
    requires cell < |pages[page].cells| && pages[page].cells[cell].key == key
    requires pages'[page] == pages[page].(cells := pages[page].cells[..cell] + pages[page].cells[cell + 1..])
    ensures TableStands(pages', def, g) && Framed(pages, g, pages', g)
    ensures Lost(Contents(pages, g.order), Contents(pages', g.order), PlaceOf(pages, g, page, cell), key)
  {
    hide LeafStands, Linked, Hooked, KeyMatches, ValidSchema, PlaceOf, Contents, RowsOk, Position, Lost;
    var j := StandingPlace(pages, g, TreeOf(def), page);
    PlaceIs(pages, g, TreeOf(def), page, cell, j);
    hide Standing;
    assert OneLeafEdited(pages, pages', g.order, j);
    hide OneLeafEdited;
    ContentsDelete(pages, pages', g.order, j, cell);
    DroppedRows(def.schema, Contents(pages, g.order), Contents(pages', g.order), Position(pages, g.order, j, cell), key);
  }

  lemma DroppedRows(schema: Schema, had: seq<Cell>, has: seq<Cell>, pos: nat, key: Key)
    requires RowsOk(schema, had) && pos < |had| && had[pos].key == key && has == had[..pos] + had[pos + 1..]
    ensures RowsOk(schema, has) && Lost(had, has, pos, key)
  {
    RowsWithout(schema, had, pos);
  }

  /** The cell under a cursor was written over, with whatever key. */
  lemma ReplacedRow(pages: seq<Node>, def: TableDef, g: View, page: nat, cell: nat, key: Key, c: Cell, pages': seq<Node>)
    requires TableStands(pages, def, g) && page in g.level && page < |pages| && pages[page].Leaf?
    requires cell < |pages[page].cells| && pages[page].cells[cell].key == key
    requires pages' == Rewritten(pages, page, cell, c) && KeyMatches(def.schema, c)
    ensures TableStands(pages', def, g) && Framed(pages, g, pages', g)
    ensures Replaced(Contents(pages, g.order), Contents(pages', g.order), PlaceOf(pages, g, page, cell), key, c)
    ensures PlaceOf(pages, g, page, cell) < |Contents(pages, g.order)|
            && Contents(pages, g.order)[PlaceOf(pages, g, page, cell)] == pages[page].cells[cell]
  {
    var j := StandingPlace(pages, g, TreeOf(def), page);
    assert |pages[page].cells| <= TreeOf(def).cap by { assert LeafStands(pages, g, TreeOf(def), page); }
    EditStands(pages, g, TreeOf(def), page, pages[page].cells[cell := c]);
    PlaceIs(pages, g, TreeOf(def), page, cell, j);
    hide Standing, PlaceOf;
    ContentsUpdate(pages, pages', g.order, j, cell, c);
    hide Contents, RowsOk, Position, KeyMatches;
    RowsWith(def.schema, Contents(pages, g.order), Position(pages, g.order, j, cell), c);
  }

  lemma UpdateDone(pages: seq<Node>, catalog: seq<TableDef>, views: seq<View>, shrunk: set<nat>, ruined: set<nat>, index: nat,
                   page: nat, cell: nat, key: Key, c: Cell, pages': seq<Node>)
    requires DatabaseOk(pages, catalog, views, shrunk, ruined) && index < |catalog| && index !in ruined
    requires Found(pages, views[index], page, cell, key) && cell < |pages[page].cells| && pages[page].cells[cell].key == key
    requires pages' == Rewritten(pages, page, cell, c) && KeyMatches(catalog[index].schema, c)
    requires Inv(pages', views[index], TreeOf(catalog[index]), 0)
    ensures DatabaseOk(pages', catalog, views, shrunk, ruined)
    ensures var was := Meaning(pages, catalog, views);
            Meaning(pages', catalog, views) == was[index := was[index].(rows := (was[index].rows - {key})[c.key := c.row])]
  {
    var def, g := catalog[index], views[index];
    assert TableOk(pages, def, g) && (index !in shrunk ==> Unshrunk(pages, def, g));
    assert views == views[index := g];
    UpdatedTable(pages, def, g, page, cell, key, c, pages');
    OkStands(pages', def, g);
    OneTableChanged(pages, catalog, views, shrunk, ruined, index, pages', g, shrunk, ruined);
  }

  /** In one table the entry of `key` has become that of the cell. */
  ghost predicate RowAt(was: seq<Tables.Table>, now: seq<Tables.Table>, index: nat, key: Key, c: Cell) {
    index < |was| && now == was[index := was[index].(rows := (was[index].rows - {key})[c.key := c.row])]
  }

  /** The cell is the changed row under its new key. */
  lemma RowAtMoved(was: seq<Tables.Table>, now: seq<Tables.Table>, index: nat, key: Key, c: Cell, mask: seq<bool>, vals: seq<Value>)
    requires RowAt(was, now, index, key, c) && Tables.UpdatePrepared(was[index].schema, mask, vals)
    requires key in was[index].rows && Tables.RowFits(was[index].schema, was[index].rows[key])
    requires c == Cell(Tables.NewKey(key, mask, vals), UpdatedRow(was[index].schema, was[index].rows[key], mask, vals, |mask|))
    ensures now == was[index := Tables.RowMoved(was[index], key, mask, vals)]
  {
  }

  /** The whole outcome of writing over the row of `key` at a cursor. */
  ghost predicate UpdateOutcome(pages: seq<Node>, catalog: seq<TableDef>, views: seq<View>, shrunk: set<nat>, ruined: set<nat>,
                                index: nat, page: nat, cell: nat, key: Key, c: Cell, sound: bool, pages': seq<Node>, ruined': set<nat>)
    requires |views| == |catalog| && index < |catalog|
  {
    && DatabaseOk(pages', catalog, views, shrunk, ruined')
    && Tables.OnlyTable(Meaning(pages, catalog, views), Meaning(pages', catalog, views), index)
    && Replaced(Contents(pages, views[index].order), Contents(pages', views[index].order), PlaceOf(pages, views[index], page, cell), key, c)
    && page < |pages| && pages[page].Leaf? && cell < |pages[page].cells|
    && Contents(pages, views[index].order)[PlaceOf(pages, views[index], page, cell)] == pages[page].cells[cell]
    && ruined' == (if index in ruined || sound then ruined else ruined + {index})
    && (index !in ruined' ==> RowAt(Meaning(pages, catalog, views), Meaning(pages', catalog, views), index, key, c))
    && (index in ruined' && index !in ruined ==> NoTree(pages', catalog[index]))
  }

  lemma Overwritten(pages: seq<Node>, catalog: seq<TableDef>, views: seq<View>, shrunk: set<nat>, ruined: set<nat>, index: nat,
                    page: nat, cell: nat, key: Key, c: Cell, q: nat, j: nat, pages': seq<Node>)
    returns (ruined': set<nat>)
    requires DatabaseOk(pages, catalog, views, shrunk, ruined) && index < |catalog|
    requires page in views[index].level && page < |pages| && pages[page].Leaf?
    requires cell < |pages[page].cells| && pages[page].cells[cell].key == key
    requires pages' == Rewritten(pages, page, cell, c) && KeyMatches(catalog[index].schema, c)
    requires index !in ruined ==> Found(pages, views[index], page, cell, key) && Found(pages, views[index], q, j, c.key)
    ensures UpdateOutcome(pages, catalog, views, shrunk, ruined, index, page, cell, key, c, StaysPut(pages, page, cell, q, j, c.key), pages', ruined')
  {
    var def, g := catalog[index], views[index];
    OneTable(pages, catalog, views, shrunk, ruined, index);
    assert views == views[index := g];
    hide DatabaseOk, Meaning, KeyMatches, StaysPut, TableStands, Replaced, Found, TableMeaning;
    assert index !in ruined ==> Inv(pages, g, TreeOf(def), 0);
    hide TableOk, Inv, Framed;
    ReplacedRow(pages, def, g, page, cell, key, c, pages');
    if index in ruined || !StaysPut(pages, page, cell, q, j, c.key) {
      ruined' := ruined + {index};
      OneTableChanged(pages, catalog, views, shrunk, ruined, index, pages', g, shrunk, ruined');
      assert Tables.OnlyTable(Meaning(pages, catalog, views), Meaning(pages', catalog, views), index) by {
        SameSchema(pages, catalog, views, pages', index);
      }
      if index in ruined { assert ruined' == ruined; }
      else { RekeyedTree(pages, g, TreeOf(def), page, cell, c, q, j); }
    } else {
      ruined' := ruined;
      RekeyedTree(pages, g, TreeOf(def), page, cell, c, q, j);
      UpdateDone(pages, catalog, views, shrunk, ruined, index, page, cell, key, c, pages');
    }
  }

  lemma SameSchema(pages: seq<Node>, catalog: seq<TableDef>, views: seq<View>, pages': seq<Node>, index: nat)
    requires |views| == |catalog| && index < |catalog|
    requires Meaning(pages', catalog, views)
          == Meaning(pages, catalog, views)[index := TableMeaning(pages', catalog[index], views[index])]
    ensures Tables.OnlyTable(Meaning(pages, catalog, views), Meaning(pages', catalog, views), index)
  {
  }

  /** What a cursor says about the meaning of the database. */
  lemma CursorMeans(pages: seq<Node>, catalog: seq<TableDef>, views: seq<View>, shrunk: set<nat>, ruined: set<nat>, index: nat,
                    page: nat, cell: nat, key: Key)
    requires DatabaseOk(pages, catalog, views, shrunk, ruined) && index < |catalog| && index !in ruined
    requires Found(pages, views[index], page, cell, key)
    ensures TableOk(pages, catalog[index], views[index]) && ValidSchema(catalog[index].schema)
    ensures var t := Meaning(pages, catalog, views)[index];
            && t == TableMeaning(pages, catalog[index], views[index])
            && t.name == catalog[index].name && t.schema == catalog[index].schema
            && (key in t.rows <==> cell < |pages[page].cells| && pages[page].cells[cell].key == key)
            && (key in t.rows ==> t.rows[key] == pages[page].cells[cell].row
                                  && KeyMatches(t.schema, pages[page].cells[cell]))
  {
    assert TableOk(pages, catalog[index], views[index]);
    var j, pos := Lookup(pages, catalog[index], views[index], page, cell, key);
    var cs := Contents(pages, views[index].order);
    if pos < |cs| { assert KeyMatches(catalog[index].schema, cs[pos]); }
  }

  /** Every cell of a table's leaves has its key from its row. */
  lemma CellMatches(pages: seq<Node>, def: TableDef, g: View, page: nat, cell: nat)
    requires TableStands(pages, def, g) && page in g.level && page < |pages| && pages[page].Leaf? && cell < |pages[page].cells|
    ensures KeyMatches(def.schema, pages[page].cells[cell])
  {
    var j := StandingPlace(pages, g, TreeOf(def), page);
    ContentsSplit(pages, g.order, j);
    var all := Contents(pages, g.order);
    var pos := |Contents(pages, g.order[..j])| + cell;
    assert all[pos] == pages[page].cells[cell];
    assert KeyMatches(def.schema, all[pos]);
  }
}
