/** A CREATE statement written out and read back by its parser. */
module CreateText {
  import opened Layout
  import opened Rows
  import opened Catalog
  import opened Parser

  function RenderField(f: Field, kind: seq<Byte>): seq<Byte> { f.name + [SPACE] + kind }

  function RenderFields(fields: seq<Field>, kinds: seq<seq<Byte>>): seq<Byte>
    requires |kinds| == |fields|
  {
    if |fields| == 0 then []
    else if |fields| == 1 then RenderField(fields[0], kinds[0])
    else RenderField(fields[0], kinds[0]) + [COMMA, SPACE] + RenderFields(fields[1..], kinds[1..])
  }

  /** A CREATE with its keywords and type words as they are given, and whatever follows it. */
  function RenderCreate(create: seq<Byte>, table: seq<Byte>, name: seq<Byte>, fields: seq<Field>, kinds: seq<seq<Byte>>, tail: seq<Byte>): seq<Byte>
    requires |kinds| == |fields|
  {
    (create + [SPACE] + table + [SPACE]) + name + [SPACE, LPAREN] + RenderFields(fields, kinds) + ([RPAREN] + tail)
  }

  /** A word for the type: int, in whatever case, or any other word for a text. */
  ghost predicate KindWord(f: Field, kind: seq<Byte>) {
    PlainWord(kind) && (f.kind == FieldInt <==> Spells(kind, "int", "INT"))
  }

  ghost predicate KindWords(fields: seq<Field>, kinds: seq<seq<Byte>>) {
    |kinds| == |fields| && forall i :: 0 <= i < |fields| ==> KindWord(fields[i], kinds[i])
  }

  /** The keywords of a CREATE, each letter in either case. */
  ghost predicate CreateWords(create: seq<Byte>, table: seq<Byte>) {
    Spells(create, "create", "CREATE") && Spells(table, "table", "TABLE")
  }

  ghost predicate PlainNames(fields: seq<Field>) {
    forall i :: 0 <= i < |fields| ==> PlainWord(fields[i].name) && |fields[i].name| < FIELD_NAME_MAX
  }

  // The schema, column by column

  /** The schema after the first k columns. */
  function FirstColumns(schema: Schema, k: nat): Schema
    requires k <= |schema.fields|
  {
    Schema(schema.fields[..k], if k < |schema.fields| then schema.fields[k].offset else schema.rowSize)
  }

  lemma {:induction false} PackedChain(fields: seq<Field>, rowSize: nat, k: nat)
    requires Packed(fields, rowSize) && k < |fields|
    ensures fields[k].size == SizeOf(fields[k].kind)
    ensures fields[k].offset + fields[k].size == if k + 1 < |fields| then fields[k + 1].offset else rowSize
    ensures fields[0].offset == 0
  {
    var n := |fields| - 1;
    if n > 0 { PackedChain(fields[..n], fields[n].offset, if k < n then k else n - 1); }
  }

  /** Adding column k leads from the first k columns to the first k + 1. */
  lemma NextColumns(schema: Schema, k: nat)
    requires Packed(schema.fields, schema.rowSize) && k < |schema.fields|
    ensures AddField(FirstColumns(schema, k), schema.fields[k].name, schema.fields[k].kind) == FirstColumns(schema, k + 1)
    ensures FirstColumns(schema, 0) == NoSchema
  {
    PackedChain(schema.fields, schema.rowSize, k);
    assert schema.fields[..k + 1] == schema.fields[..k] + [schema.fields[k]];
  }

  // The text, column by column

  lemma KindPlain(f: Field, kind: seq<Byte>)
    requires KindWord(f, kind)
    ensures PlainWord(kind) && (SameWord(kind, Bytes("int")) <==> f.kind == FieldInt)
  {
    Keywords(kind);
  }

  /** The tokens of one column and what follows it. */
  lemma FieldTokens(s: seq<Byte>, at: At, start: nat, end: nat, f: Field, kind: seq<Byte>)
    requires at.pos <= start <= end < |s| && AllSpace(s, at.pos, start) && s[start..end] == RenderField(f, kind)
    requires (s[end] == COMMA || s[end] == RPAREN) && PlainWord(f.name) && KindWord(f, kind) && at.count + 3 <= MAX_TOKENS
    ensures start + |f.name| <= |s| && Take(s, at) == (Some(f.name), At(start + |f.name|, at.count + 1))
    ensures Take(s, At(start + |f.name|, at.count + 1)) == (Some(kind), At(end, at.count + 2))
    ensures Take(s, At(end, at.count + 2)) == (Some([s[end]]), At(end + 1, at.count + 3))
  {
    KindPlain(f, kind);
    hide *;
    FieldParts(s, start, end, f, kind);
    var mid := start + |f.name|;
    TakeWordAt(s, at, start, mid, f.name);
    TakeWordAt(s, At(mid, at.count + 1), mid + 1, end, kind);
    TakeSingle(s, At(end, at.count + 2));
  }

  lemma FieldParts(s: seq<Byte>, start: nat, end: nat, f: Field, kind: seq<Byte>)
    requires start <= end < |s| && s[start..end] == RenderField(f, kind) && PlainWord(f.name) && PlainWord(kind)
    requires s[end] == COMMA || s[end] == RPAREN
    ensures var mid := start + |f.name|;
            && start < mid && mid + 1 < end && s[start..mid] == f.name && EndsWord(s[mid]) && AllSpace(s, mid, mid + 1)
            && s[mid + 1..end] == kind && EndsWord(s[end]) && IsSingle(s[end])
  {
    var mid := start + |f.name|;
    NotEmpty(f.name);
    NotEmpty(kind);
    hide PlainWord;
    WindowParts(s, start, end, f.name, [SPACE], kind);
    assert s[mid] == s[mid..mid + 1][0];
  }

  lemma NotEmpty(w: seq<Byte>)
    requires PlainWord(w)
    ensures |w| > 0
  {
  }

  lemma TakeSingle(s: seq<Byte>, at: At)
    requires at.pos < |s| && IsSingle(s[at.pos]) && at.count < MAX_TOKENS
    ensures Take(s, at) == (Some([s[at.pos]]), At(at.pos + 1, at.count + 1))
  {
    LexSingleAt(s, at.pos, at.pos);
  }

  /** One turn of the parser's loop. */
  lemma FieldTurn(s: seq<Byte>, at: At, start: nat, end: nat, f: Field, kind: seq<Byte>, name: seq<Byte>, schema: Schema)
    requires at.pos <= start <= end < |s| && AllSpace(s, at.pos, start) && s[start..end] == RenderField(f, kind)
    requires (s[end] == COMMA || s[end] == RPAREN) && PlainWord(f.name) && |f.name| < FIELD_NAME_MAX && KindWord(f, kind)
    requires at.count + 3 <= MAX_TOKENS && |schema.fields| < MAX_FIELDS
    ensures var more := AddField(schema, f.name, f.kind);
            ParseFields(s, at, name, schema)
            == if s[end] == RPAREN then Created(PrepareSuccess, name, more) else ParseFields(s, At(end + 1, at.count + 3), name, more)
  {
    FieldTokens(s, at, start, end, f, kind);
    KindPlain(f, kind);
    assert f.name != [RPAREN];
    hide Take, SameWord, RenderField, AllSpace, Bytes, PlainWord, KindWord;
  }

  /** The columns `rest` stand between start and end, before the closing parenthesis. */
  ghost predicate FieldsAt(s: seq<Byte>, at: At, start: nat, end: nat, rest: seq<Field>, kinds: seq<seq<Byte>>) {
    && at.pos <= start <= end < |s| && AllSpace(s, at.pos, start) && KindWords(rest, kinds) && s[start..end] == RenderFields(rest, kinds)
    && s[end] == RPAREN && at.count + 3 * |rest| < MAX_TOKENS && PlainNames(rest)
  }

  lemma RestWords(rest: seq<Field>, kinds: seq<seq<Byte>>)
    requires KindWords(rest, kinds) && |rest| > 0 && PlainNames(rest)
    ensures KindWord(rest[0], kinds[0]) && KindWords(rest[1..], kinds[1..]) && PlainNames(rest[1..])
  {
    hide KindWord;
    forall i | 0 <= i < |rest[1..]| ensures KindWord(rest[1..][i], kinds[1..][i]) { assert KindWord(rest[i + 1], kinds[i + 1]); }
  }

  lemma FieldsSplit(s: seq<Byte>, at: At, start: nat, end: nat, rest: seq<Field>, kinds: seq<seq<Byte>>) returns (mid: nat)
    requires FieldsAt(s, at, start, end, rest, kinds) && |rest| > 1
    ensures |kinds| == |rest| && start <= mid && mid + 2 <= end && s[start..mid] == RenderField(rest[0], kinds[0]) && s[mid] == COMMA
    ensures FieldsAt(s, At(mid + 1, at.count + 3), mid + 2, end, rest[1..], kinds[1..])
  {
    RestWords(rest, kinds);
    var text, tail := RenderField(rest[0], kinds[0]), RenderFields(rest[1..], kinds[1..]);
    assert s[start..end] == text + [COMMA, SPACE] + tail;
    hide RenderFields, RenderField, PlainNames, KindWords;
    WindowParts(s, start, end, text, [COMMA, SPACE], tail);
    mid := start + |text|;
    assert s[mid] == s[mid..mid + 2][0] && s[mid + 1] == s[mid..mid + 2][1];
  }

  lemma LastField(s: seq<Byte>, at: At, start: nat, end: nat, f: Field, kind: seq<Byte>, name: seq<Byte>, schema: Schema)
    requires FieldsAt(s, at, start, end, [f], [kind]) && |schema.fields| < MAX_FIELDS
    ensures ParseFields(s, at, name, schema) == Created(PrepareSuccess, name, AddField(schema, f.name, f.kind))
  {
    FirstPlain([f], [kind]);
    assert RenderFields([f], [kind]) == RenderField(f, kind);
    hide RenderField, RenderFields, PlainNames, AllSpace, ParseFields, PlainWord, AddField, KindWords, KindWord;
    FieldTurn(s, at, start, end, f, kind, name, schema);
  }

  lemma FirstPlain(rest: seq<Field>, kinds: seq<seq<Byte>>)
    requires PlainNames(rest) && rest != [] && KindWords(rest, kinds)
    ensures PlainWord(rest[0].name) && |rest[0].name| < FIELD_NAME_MAX && KindWord(rest[0], kinds[0])
  {
  }

  lemma NextField(s: seq<Byte>, at: At, start: nat, end: nat, rest: seq<Field>, kinds: seq<seq<Byte>>, name: seq<Byte>, schema: Schema)
    returns (at': At, start': nat)
    requires FieldsAt(s, at, start, end, rest, kinds) && |rest| > 1 && |schema.fields| < MAX_FIELDS
    ensures |kinds| == |rest| && FieldsAt(s, at', start', end, rest[1..], kinds[1..]) && at'.pos <= |s| && |schema.fields| + 1 <= MAX_FIELDS
    ensures ParseFields(s, at, name, schema) == ParseFields(s, at', name, AddField(schema, rest[0].name, rest[0].kind))
  {
    FieldsRoom(s, at, start, end, rest, kinds);
    FirstPlain(rest, kinds);
    hide *;
    var mid := FieldsSplit(s, at, start, end, rest, kinds);
    at', start' := At(mid + 1, at.count + 3), mid + 2;
    assert COMMA != RPAREN by { Comma(); }
    FieldTurn(s, at, start, mid, rest[0], kinds[0], name, schema);
  }

  lemma Comma()
    ensures COMMA != RPAREN && MAX_FIELDS > 0
  {
  }

  lemma {:induction false} FieldsRoundTrip(s: seq<Byte>, at: At, start: nat, end: nat, kinds: seq<seq<Byte>>, name: seq<Byte>, schema: Schema,
                                           k: nat)
    requires ValidSchema(schema) && k <= |schema.fields| && FieldsAt(s, at, start, end, schema.fields[k..], kinds)
    requires k < |schema.fields| || k == 0
    ensures at.pos <= |s| && |FirstColumns(schema, k).fields| <= MAX_FIELDS
    ensures ParseFields(s, at, name, FirstColumns(schema, k)) == Created(PrepareSuccess, name, schema)
    decreases |schema.fields| - k
  {
    hide *;
    if k == |schema.fields| {
      assert k == 0 && schema.fields == [];
      NoFields(s, at, start, end, kinds, name, schema);
    } else {
      if k + 1 == |schema.fields| {
        FieldsDone(s, at, start, end, kinds, name, schema, k);
      } else {
        var at', start' := FieldsStep(s, at, start, end, kinds, name, schema, k);
        FieldsRoundTrip(s, at', start', end, kinds[1..], name, schema, k + 1);
      }
    }
  }

  lemma FieldsDone(s: seq<Byte>, at: At, start: nat, end: nat, kinds: seq<seq<Byte>>, name: seq<Byte>, schema: Schema, k: nat)
    requires ValidSchema(schema) && k + 1 == |schema.fields| && FieldsAt(s, at, start, end, schema.fields[k..], kinds)
    ensures at.pos <= |s| && |FirstColumns(schema, k).fields| <= MAX_FIELDS
    ensures ParseFields(s, at, name, FirstColumns(schema, k)) == Created(PrepareSuccess, name, schema)
  {
    hide *;
    var rest := schema.fields[k..];
    ColumnsLeft(schema, k);
    FieldsRoom(s, at, start, end, rest, kinds);
    assert rest == [rest[0]] && kinds == [kinds[0]];
    LastField(s, at, start, end, rest[0], kinds[0], name, FirstColumns(schema, k));
  }

  lemma FieldsStep(s: seq<Byte>, at: At, start: nat, end: nat, kinds: seq<seq<Byte>>, name: seq<Byte>, schema: Schema, k: nat)
    returns (at': At, start': nat)
    requires ValidSchema(schema) && k + 1 < |schema.fields| && FieldsAt(s, at, start, end, schema.fields[k..], kinds)
    ensures |kinds| > 0 && FieldsAt(s, at', start', end, schema.fields[k + 1..], kinds[1..])
    ensures at.pos <= |s| && at'.pos <= |s| && |FirstColumns(schema, k).fields| <= MAX_FIELDS && |FirstColumns(schema, k + 1).fields| <= MAX_FIELDS
    ensures ParseFields(s, at, name, FirstColumns(schema, k)) == ParseFields(s, at', name, FirstColumns(schema, k + 1))
  {
    hide *;
    var rest := schema.fields[k..];
    ColumnsLeft(schema, k);
    ColumnsLeft(schema, k + 1);
    FieldsRoom(s, at, start, end, rest, kinds);
    at', start' := NextField(s, at, start, end, rest, kinds, name, FirstColumns(schema, k));
  }

  lemma ColumnsLeft(schema: Schema, k: nat)
    requires ValidSchema(schema) && k < |schema.fields|
    ensures var rest, sofar := schema.fields[k..], FirstColumns(schema, k);
            && |rest| == |schema.fields| - k && rest[1..] == schema.fields[k + 1..] && |sofar.fields| == k < MAX_FIELDS
            && AddField(sofar, rest[0].name, rest[0].kind) == FirstColumns(schema, k + 1)
    ensures k + 1 == |schema.fields| ==> FirstColumns(schema, k + 1) == schema
  {
    NextColumns(schema, k);
    if k + 1 == |schema.fields| { assert schema.fields[..k + 1] == schema.fields; }
  }

  lemma FieldsRoom(s: seq<Byte>, at: At, start: nat, end: nat, rest: seq<Field>, kinds: seq<seq<Byte>>)
    requires FieldsAt(s, at, start, end, rest, kinds)
    ensures at.pos <= start <= end < |s| && AllSpace(s, at.pos, start) && at.count + 3 * |rest| < MAX_TOKENS && PlainNames(rest)
    ensures KindWords(rest, kinds) && |kinds| == |rest|
  {
  }

  lemma NoFields(s: seq<Byte>, at: At, start: nat, end: nat, kinds: seq<seq<Byte>>, name: seq<Byte>, schema: Schema)
    requires ValidSchema(schema) && schema.fields == [] && FieldsAt(s, at, start, end, schema.fields[0..], kinds)
    ensures at.pos <= |s| && |FirstColumns(schema, 0).fields| <= MAX_FIELDS
    ensures ParseFields(s, at, name, FirstColumns(schema, 0)) == Created(PrepareSuccess, name, schema)
  {
    assert start == end;
    TakeSingleAt(s, at, end, RPAREN);
    LexSingleAt(s, at.pos, end);
  }

  // The whole line

  ghost predicate CreateAt(s: seq<Byte>, create: seq<Byte>, table: seq<Byte>, name: seq<Byte>, body: seq<Byte>) {
    var n := |name|;
    && |s| > 15 + n + |body|
    && s[0..6] == create && s[6] == SPACE && s[7..12] == table && s[12] == SPACE
    && s[13..13 + n] == name && s[13 + n] == SPACE && s[14 + n] == LPAREN
    && s[15 + n..15 + n + |body|] == body && s[15 + n + |body|] == RPAREN
  }

  lemma RenderedCreate(create: seq<Byte>, table: seq<Byte>, name: seq<Byte>, fields: seq<Field>, kinds: seq<seq<Byte>>, tail: seq<Byte>)
    requires |create| == 6 && |table| == 5 && |kinds| == |fields|
    ensures CreateAt(RenderCreate(create, table, name, fields, kinds, tail), create, table, name, RenderFields(fields, kinds))
  {
    hide RenderFields;
    var s, body := RenderCreate(create, table, name, fields, kinds, tail), RenderFields(fields, kinds);
    var head, open, end := create + [SPACE] + table + [SPACE], [SPACE, LPAREN], [RPAREN] + tail;
    var n := |name|;
    FivePieces(s, head, name, open, body, end);
    assert s[0..6] == head[0..6] == create && s[7..12] == head[7..12] == table && s[6] == head[6] && s[12] == head[12];
    assert s[13 + n] == s[13 + n..15 + n][0] && s[14 + n] == s[13 + n..15 + n][1];
    EndPiece(s, 15 + n + |body|, end, tail);
  }

  lemma CreateWordsPlain(create: seq<Byte>, table: seq<Byte>)
    requires CreateWords(create, table)
    ensures |create| == 6 && |table| == 5 && PlainWord(create) && PlainWord(table)
    ensures SameWord(create, Bytes("create")) && SameWord(table, Bytes("table"))
  {
    Keywords(create);
    Keywords(table);
    hide SameWord, PlainWord, Bytes;
    SpelledPlain(create, "create", "CREATE");
    SpelledPlain(table, "table", "TABLE");
  }

  lemma CreateHead(s: seq<Byte>, create: seq<Byte>, table: seq<Byte>, name: seq<Byte>, body: seq<Byte>)
    requires CreateAt(s, create, table, name, body) && PlainWord(name) && CreateWords(create, table)
    ensures TakeWord(s, At(0, 0), Bytes("create")) == (true, At(6, 1))
    ensures TakeWord(s, At(6, 1), Bytes("table")) == (true, At(12, 2))
    ensures Take(s, At(12, 2)) == (Some(name), At(13 + |name|, 3))
    ensures TakeWord(s, At(13 + |name|, 3), [LPAREN]) == (true, At(15 + |name|, 4))
  {
    CreateWordsPlain(create, table);
    NotEmpty(name);
    hide PlainWord, Bytes, SameWord, CreateWords;
    var n := |name|;
    assert AllSpace(s, 0, 0) && AllSpace(s, 6, 7) && AllSpace(s, 12, 13) && AllSpace(s, 13 + n, 14 + n) && EndsWord(SPACE) && IsSingle(LPAREN);
    hide Take, TakeWord, Lex, AllSpace, EndsWord, IsSingle;
    TakeSpelled(s, At(0, 0), 0, 6, Bytes("create"));
    TakeSpelled(s, At(6, 1), 7, 12, Bytes("table"));
    TakeWordAt(s, At(12, 2), 13, 13 + n, name);
    TakeSingleAt(s, At(13 + n, 3), 14 + n, LPAREN);
  }

  /** Rendering a CREATE of a new table and parsing it gives back the name, as the catalog keeps it, and
      the schema with its sizes and offsets, whatever the case of keywords and type words. */
  lemma CreateRoundTrip(create: seq<Byte>, table: seq<Byte>, kinds: seq<seq<Byte>>, tail: seq<Byte>,
                        tables: seq<TableDef>, name: seq<Byte>, schema: Schema)
    requires CreateWords(create, table) && KindWords(schema.fields, kinds)
    requires PlainWord(name) && FindFrom(tables, name, 0) == None && |tables| < MAX_TABLES
    requires ValidSchema(schema) && PlainNames(schema.fields)
    ensures ParseCreate(RenderCreate(create, table, name, schema.fields, kinds, tail), tables) == Created(PrepareSuccess, StoredName(name), schema)
    ensures StoredName(name) == if |name| > 31 then name[..31] else name
  {
    StoredMeans(name);
    var s, body := RenderCreate(create, table, name, schema.fields, kinds, tail), RenderFields(schema.fields, kinds);
    CreateWordsPlain(create, table);
    RenderedCreate(create, table, name, schema.fields, kinds, tail);
    CreateHead(s, create, table, name, body);
    assert schema.fields[0..] == schema.fields && FirstColumns(schema, 0) == NoSchema by {
      if schema.fields != [] { NextColumns(schema, 0); }
    }
    var at, end := At(15 + |name|, 4), 15 + |name| + |body|;
    assert FieldsAt(s, at, at.pos, end, schema.fields[0..], kinds);
    hide CreateAt, RenderCreate, PlainWord, PlainNames, FieldsAt, Packed, RenderFields, Bytes, Take, TakeWord, Lex, FindFrom, ParseFields,
         KindWords, CreateWords, SameWord;
    FieldsRoundTrip(s, at, at.pos, end, kinds, StoredName(name), schema, 0);
  }
}
