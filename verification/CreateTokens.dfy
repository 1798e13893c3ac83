/** Which lines prepare_create accepts, told by their tokens. */
module CreateTokens {
  import opened Layout
  import opened Rows
  import opened Catalog
  import opened Parser

  /** The tokens from a position of the line, as many as a statement may still take. */
  ghost function Tokens(s: seq<Byte>, at: At): seq<seq<Byte>>
    requires at.pos <= |s|
    decreases |s| - at.pos
  {
    LexAdvances(s, at.pos);
    match Lex(s, at.pos)
    case End => []
    case Lexeme(text, next) => if at.count < 128 then [text] + Tokens(s, At(next, at.count + 1)) else []
  }

  lemma TakeTokens(s: seq<Byte>, at: At)
    requires at.pos <= |s|
    ensures var ts := Tokens(s, at);
            && Take(s, at).0 == (if ts == [] then None else Some(ts[0]))
            && (ts != [] ==> Tokens(s, Take(s, at).1) == ts[1..])
  {
    hide Lex;
    LexAdvances(s, at.pos);
  }

  // The column list

  /** Column i of the list: a name of at most 31 characters, and some type. */
  ghost predicate ColumnAt(ts: seq<seq<Byte>>, i: nat) {
    3 * i + 2 <= |ts| && ts[3 * i] != [41] && |ts[3 * i]| <= 31
  }

  /** What stands behind column i. */
  ghost predicate BehindColumn(ts: seq<seq<Byte>>, i: nat, b: Byte) { 3 * i + 2 < |ts| && ts[3 * i + 2] == [b] }

  /** k columns with commas between them. */
  ghost predicate Listed(ts: seq<seq<Byte>>, k: nat) {
    forall i {:trigger ColumnAt(ts, i)} :: 0 <= i < k ==> ColumnAt(ts, i) && (i + 1 < k ==> BehindColumn(ts, i, 44))
  }

  /** Where a name may follow: at the beginning, or after a comma. */
  ghost predicate Expecting(ts: seq<seq<Byte>>, k: nat) { k > 0 ==> BehindColumn(ts, k - 1, 44) }

  /** After k columns the list is closed. */
  ghost predicate Closed(ts: seq<seq<Byte>>, k: nat) {
    || (k > 0 && BehindColumn(ts, k - 1, 41))
    || (Expecting(ts, k) && 3 * k < |ts| && ts[3 * k] == [41])
  }

  /** After k columns the line ends where a name may follow. */
  ghost predicate CutShort(ts: seq<seq<Byte>>, k: nat) { Expecting(ts, k) && |ts| == 3 * k }

  ghost predicate ListOf(ts: seq<seq<Byte>>, k: nat) { Listed(ts, k) && (Closed(ts, k) || CutShort(ts, k)) }

  ghost function KindOf(kind: seq<Byte>): FieldType { if Spells(kind, "int", "INT") then FieldInt else FieldText }

  /** The schema with the columns of the list. */
  ghost function WithColumns(schema: Schema, ts: seq<seq<Byte>>, k: nat): Schema
    requires k > 0 ==> 3 * k - 1 <= |ts|
    decreases k
  {
    if k == 0 then schema
    else WithColumns(AddField(schema, ts[0], KindOf(ts[1])),
                     if |ts| < 3 then [] else ts[3..], k - 1)
  }

  lemma ListedSize(ts: seq<seq<Byte>>, k: nat)
    requires Listed(ts, k)
    ensures k > 0 ==> 3 * k - 1 <= |ts| && ColumnAt(ts, 0)
  {
    assert k > 0 ==> ColumnAt(ts, k - 1);
    assert k > 0 ==> ColumnAt(ts, 0);
  }

  lemma ListSize(ts: seq<seq<Byte>>, k: nat)
    requires ListOf(ts, k)
    ensures k > 0 ==> 3 * k - 1 <= |ts| && ColumnAt(ts, 0)
    ensures k > 1 && BehindColumn(ts, 0, COMMA) ==> |ts| >= 3
  {
    ListedSize(ts, k);
  }

  /** A column and a comma before k others. */
  lemma ListRest(ts: seq<seq<Byte>>, k: nat)
    requires BehindColumn(ts, 0, COMMA) && COMMA != RPAREN
    ensures ListOf(ts, k + 1) <==> ColumnAt(ts, 0) && ListOf(ts[3..], k)
  {
    var rest := ts[3..];
    assert forall i: nat {:trigger ColumnAt(rest, i)} :: ColumnAt(rest, i) <==> ColumnAt(ts, i + 1);
    assert forall i: nat, b {:trigger BehindColumn(rest, i, b)} :: BehindColumn(rest, i, b) <==> BehindColumn(ts, i + 1, b);
    assert Expecting(ts, k + 1) <==> Expecting(rest, k);
    assert Closed(ts, k + 1) <==> Closed(rest, k);
    if Listed(ts, k + 1) {
      forall i: nat | i < k ensures ColumnAt(rest, i) && (i + 1 < k ==> BehindColumn(rest, i, COMMA)) {
        assert ColumnAt(ts, i + 1);
      }
    }
    if ColumnAt(ts, 0) && Listed(rest, k) {
      forall i: nat | i < k + 1 ensures ColumnAt(ts, i) && (i < k ==> BehindColumn(ts, i, COMMA)) {
        if i > 0 { assert ColumnAt(rest, i - 1); }
      }
    }
  }

  lemma ListNone(ts: seq<seq<Byte>>)
    ensures ListOf(ts, 0) <==> ts == [] || ts[0] == [RPAREN]
    ensures forall k: nat {:trigger ListOf(ts, k)} :: ListOf(ts, k) && k > 0 ==> ColumnAt(ts, 0) && ts != [] && ts[0] != [RPAREN]
  {
    forall k: nat | ListOf(ts, k) && k > 0 ensures ColumnAt(ts, 0) { ListedSize(ts, k); }
  }

  lemma OneSeparator(ts: seq<seq<Byte>>)
    ensures !(BehindColumn(ts, 0, COMMA) && BehindColumn(ts, 0, RPAREN)) && COMMA != RPAREN
  {
  }

  /** Without a comma behind the first column there is no second one. */
  lemma ListEnd(ts: seq<seq<Byte>>, k: nat)
    requires !BehindColumn(ts, 0, COMMA) && k > 0
    ensures ListOf(ts, k) <==> k == 1 && ColumnAt(ts, 0) && BehindColumn(ts, 0, RPAREN)
  {
    assert Listed(ts, k) ==> ColumnAt(ts, 0);
  }

  /** One turn of the loop, told by its tokens. */
  lemma FieldsTurn(s: seq<Byte>, at: At, name: seq<Byte>, schema: Schema) returns (at': At)
    requires at.pos <= |s| && |schema.fields| <= MAX_FIELDS
    ensures at'.pos <= |s|
    ensures var ts := Tokens(s, at); var r := ParseFields(s, at, name, schema);
            if ts == [] || ts[0] == [RPAREN] then r == Created(PrepareSuccess, name, schema)
            else if |schema.fields| >= MAX_FIELDS || !ColumnAt(ts, 0) then r.result == PrepareSyntaxError
            else
              var more := AddField(schema, ts[0], KindOf(ts[1]));
              && |more.fields| == |schema.fields| + 1
              && (if BehindColumn(ts, 0, RPAREN) then r == Created(PrepareSuccess, name, more)
                  else if BehindColumn(ts, 0, COMMA) then Tokens(s, at') == ts[3..] && r == ParseFields(s, at', name, more)
                  else r.result == PrepareSyntaxError)
  {
    hide Take, Tokens, SameWord, Bytes, Spells;
    TakeTokens(s, at);
    var at1 := Take(s, at).1;
    TakeTokens(s, at1);
    var at2 := Take(s, at1).1;
    TakeTokens(s, at2);
    at' := Take(s, at2).1;
    if |Tokens(s, at)| >= 2 { Keywords(Tokens(s, at)[1]); }
    var ts := Tokens(s, at);
    assert |ts| >= 2 ==> ts[1..][0] == ts[1];
    assert |ts| >= 3 ==> ts[1..][1..][0] == ts[2] && ts[1..][1..][1..] == ts[3..];
  }

  /** One turn on the tokens of a list. */
  lemma ListTurn(s: seq<Byte>, at: At, name: seq<Byte>, schema: Schema, k: nat) returns (at': At, more: Schema)
    requires at.pos <= |s| && 0 < k && |schema.fields| + k <= MAX_FIELDS && ListOf(Tokens(s, at), k)
    ensures at'.pos <= |s| && |more.fields| == |schema.fields| + 1 && 3 * k - 1 <= |Tokens(s, at)|
    ensures var ts := Tokens(s, at);
            if BehindColumn(ts, 0, COMMA) then
              && ListOf(Tokens(s, at'), k - 1) && (k > 1 ==> 3 * k - 4 <= |Tokens(s, at')|)
              && ParseFields(s, at, name, schema) == ParseFields(s, at', name, more)
              && WithColumns(schema, ts, k) == WithColumns(more, Tokens(s, at'), k - 1)
            else ParseFields(s, at, name, schema) == Created(PrepareSuccess, name, WithColumns(schema, ts, k))
  {
    hide *;
    var ts := Tokens(s, at);
    ListSize(ts, k);
    ListNone(ts);
    OneSeparator(ts);
    at' := FieldsTurn(s, at, name, schema);
    ColumnRoom(ts);
    more := AddField(schema, ts[0], KindOf(ts[1]));
    Unfolded(schema, ts, k);
    NoColumnsAdded(more, Tokens(s, at'));
    if BehindColumn(ts, 0, COMMA) { ListRest(ts, k - 1); } else { ListEnd(ts, k); }
  }

  /** Columns between commas, if not too many, are accepted when the list is closed, and when the line ends
      where a name may follow. */
  lemma {:induction false} ListAccepted(s: seq<Byte>, at: At, name: seq<Byte>, schema: Schema, k: nat)
    requires at.pos <= |s| && |schema.fields| + k <= MAX_FIELDS && ListOf(Tokens(s, at), k)
    ensures k > 0 ==> 3 * k - 1 <= |Tokens(s, at)|
    ensures ParseFields(s, at, name, schema) == Created(PrepareSuccess, name, WithColumns(schema, Tokens(s, at), k))
    decreases k
  {
    if k > 0 {
      hide *;
      var at', more := ListTurn(s, at, name, schema, k);
      if BehindColumn(Tokens(s, at), 0, COMMA) { ListAccepted(s, at', name, more, k - 1); }
    } else {
      ListNone(Tokens(s, at));
      NoColumnsAdded(schema, Tokens(s, at));
      hide *;
      var at' := FieldsTurn(s, at, name, schema);
    }
  }

  lemma ColumnRoom(ts: seq<seq<Byte>>)
    requires ColumnAt(ts, 0)
    ensures |ts| >= 2 && forall b :: BehindColumn(ts, 0, b) ==> |ts| >= 3
  {
  }

  lemma NoColumnsAdded(schema: Schema, ts: seq<seq<Byte>>)
    ensures WithColumns(schema, ts, 0) == schema
  {
  }

  lemma Unfolded(schema: Schema, ts: seq<seq<Byte>>, k: nat)
    requires k > 0 && 3 * k - 1 <= |ts|
    ensures var more := AddField(schema, ts[0], KindOf(ts[1]));
            WithColumns(schema, ts, k) == if k == 1 then more else WithColumns(more, ts[3..], k - 1)
  {
    var more := AddField(schema, ts[0], KindOf(ts[1]));
    NoColumnsAdded(more, if |ts| < 3 then [] else ts[3..]);
  }

  /** One turn that leads to success. */
  lemma GoodTurn(s: seq<Byte>, at: At, name: seq<Byte>, schema: Schema) returns (more: bool, at': At, schema': Schema)
    requires at.pos <= |s| && |schema.fields| <= MAX_FIELDS && ParseFields(s, at, name, schema).result == PrepareSuccess
    ensures !more ==> ListOf(Tokens(s, at), 0) || (|schema.fields| < MAX_FIELDS && ListOf(Tokens(s, at), 1))
    ensures more ==> at'.pos <= |s| && |schema.fields| < MAX_FIELDS && |schema'.fields| == |schema.fields| + 1
                     && ParseFields(s, at', name, schema').result == PrepareSuccess
                     && forall k: nat {:trigger ListOf(Tokens(s, at'), k)} :: ListOf(Tokens(s, at'), k) ==> ListOf(Tokens(s, at), k + 1)
  {
    var ts := Tokens(s, at);
    ListNone(ts);
    OneSeparator(ts);
    at' := FieldsTurn(s, at, name, schema);
    more, schema' := false, schema;
    hide ParseFields, Tokens, AddField, SameWord, Bytes, ListOf, WithColumns, Listed;
    if ts != [] && ts[0] != [RPAREN] {
      more := BehindColumn(ts, 0, COMMA);
      schema' := AddField(schema, ts[0], KindOf(ts[1]));
      if more {
        forall k: nat | ListOf(ts[3..], k) ensures ListOf(ts, k + 1) { ListRest(ts, k); }
      } else {
        ListEnd(ts, 1);
      }
    }
  }

  /** Nothing else is accepted. */
  lemma {:induction false} AcceptedList(s: seq<Byte>, at: At, name: seq<Byte>, schema: Schema) returns (k: nat)
    requires at.pos <= |s| && |schema.fields| <= MAX_FIELDS && ParseFields(s, at, name, schema).result == PrepareSuccess
    ensures |schema.fields| + k <= MAX_FIELDS && ListOf(Tokens(s, at), k)
    decreases MAX_FIELDS - |schema.fields|
  {
    hide *;
    var more, at', schema' := GoodTurn(s, at, name, schema);
    if more {
      var rest := AcceptedList(s, at', name, schema');
      k := rest + 1;
    } else {
      k := if ListOf(Tokens(s, at), 0) then 0 else 1;
    }
  }

  // The whole line

  /** The tokens of a CREATE: the four words at its head, then the list. */
  ghost predicate HeadOf(ts: seq<seq<Byte>>, tables: seq<TableDef>) {
    && |ts| >= 4 && Spells(ts[0], "create", "CREATE") && Spells(ts[1], "table", "TABLE")
    && Unnamed(tables, ts[2]) && |tables| < 5 && ts[3] == [40]
  }

  ghost predicate Unnamed(tables: seq<TableDef>, name: seq<Byte>) { forall i :: 0 <= i < |tables| ==> tables[i].name != name }

  ghost predicate CreateOf(ts: seq<seq<Byte>>, tables: seq<TableDef>, k: nat) {
    HeadOf(ts, tables) && k <= 16 && ListOf(ts[4..], k)
  }

  /** What stands at the head of a line decides why it is refused, and where the list begins. */
  lemma HeadTurn(s: seq<Byte>, tables: seq<TableDef>) returns (at: At)
    ensures at.pos <= |s|
    ensures var ts := Tokens(s, At(0, 0)); var r := ParseCreate(s, tables);
            if ts == [] || !Spells(ts[0], "create", "CREATE") then r.result == PrepareUnrecognized
            else if |ts| < 3 || !Spells(ts[1], "table", "TABLE") then r.result == PrepareSyntaxError
            else if !Unnamed(tables, ts[2]) then r.result == PrepareTableAlreadyExists
            else if |tables| >= 5 then r.result == PrepareCatalogFull
            else if |ts| < 4 || ts[3] != [40] then r.result == PrepareSyntaxError
            else Tokens(s, at) == ts[4..] && r == ParseFields(s, at, StoredName(ts[2]), NoSchema)
  {
    hide Take, Tokens, SameWord, Bytes, ParseFields, FindFrom, Spells;
    var at0 := At(0, 0);
    TakeTokens(s, at0);
    var at1 := Take(s, at0).1;
    TakeTokens(s, at1);
    var at2 := Take(s, at1).1;
    TakeTokens(s, at2);
    var at3 := Take(s, at2).1;
    TakeTokens(s, at3);
    at := Take(s, at3).1;
    var ts := Tokens(s, at0);
    assert |ts| >= 2 ==> ts[1..][0] == ts[1];
    assert |ts| >= 3 ==> ts[1..][1..][0] == ts[2];
    assert |ts| >= 4 ==> ts[1..][1..][1..][0] == ts[3] && ts[1..][1..][1..][1..] == ts[4..];
    if |ts| >= 1 { Keywords(ts[0]); }
    if |ts| >= 2 { Keywords(ts[1]); }
    if |ts| >= 3 { FindFirst(tables, ts[2], 0); }
    if |ts| >= 4 { Marks(ts[3]); }
  }

  /** Why a CREATE is refused: a first word that is not CREATE, a name that is taken, a full catalog; anything
      else is a syntax error. */
  lemma CreateRefused(s: seq<Byte>, tables: seq<TableDef>)
    ensures var ts := Tokens(s, At(0, 0)); var why := ParseCreate(s, tables).result;
            var named := |ts| >= 3 && Spells(ts[0], "create", "CREATE") && Spells(ts[1], "table", "TABLE");
            && (why == PrepareUnrecognized <==> ts == [] || !Spells(ts[0], "create", "CREATE"))
            && (why == PrepareTableAlreadyExists <==> named && !Unnamed(tables, ts[2]))
            && (why == PrepareCatalogFull <==> named && Unnamed(tables, ts[2]) && |tables| >= 5)
            && why != PrepareNoTable && why != PrepareStringTooLong
  {
    var at := HeadTurn(s, tables);
    var ts := Tokens(s, At(0, 0));
    hide Tokens, ParseCreate, Unnamed, Spells, ParseFields;
    if |ts| >= 4 { FieldsOutcome(s, at, StoredName(ts[2]), NoSchema); }
  }

  lemma {:induction false} FieldsOutcome(s: seq<Byte>, at: At, name: seq<Byte>, schema: Schema)
    requires at.pos <= |s| && |schema.fields| <= MAX_FIELDS
    ensures ParseFields(s, at, name, schema).result == PrepareSuccess || ParseFields(s, at, name, schema).result == PrepareSyntaxError
    decreases MAX_FIELDS - |schema.fields|
  {
    var ts := Tokens(s, at);
    var at' := FieldsTurn(s, at, name, schema);
    hide Tokens, ParseFields, Spells, Take;
    if ts != [] && ts[0] != [RPAREN] && |schema.fields| < MAX_FIELDS && ColumnAt(ts, 0) && BehindColumn(ts, 0, COMMA) {
      FieldsOutcome(s, at', name, AddField(schema, ts[0], KindOf(ts[1])));
    }
  }

  /** A CREATE is accepted if and only if its tokens are the head and a list of at most 16 columns; the
      schema has these columns. */
  lemma CreateAccepted(s: seq<Byte>, tables: seq<TableDef>)
    ensures var ts := Tokens(s, At(0, 0)); var r := ParseCreate(s, tables);
            && (r.result == PrepareSuccess <==> exists k :: CreateOf(ts, tables, k))
            && forall k: nat {:trigger CreateOf(ts, tables, k)} :: CreateOf(ts, tables, k) ==>
                 (k > 0 ==> 3 * k + 3 <= |ts|) && r == Created(PrepareSuccess, StoredName(ts[2]), WithColumns(NoSchema, ts[4..], k))
                 && StoredName(ts[2]) == if |ts[2]| > 31 then ts[2][..31] else ts[2]
  {
    var ts := Tokens(s, At(0, 0));
    var at := HeadTurn(s, tables);
    hide ParseFields, Tokens, SameWord, Bytes, FindFrom, ParseCreate, ListOf, WithColumns;
    if ParseCreate(s, tables).result == PrepareSuccess {
      var k := AcceptedList(s, at, StoredName(ts[2]), NoSchema);
      assert CreateOf(ts, tables, k);
    }
    forall k: nat | CreateOf(ts, tables, k)
      ensures (k > 0 ==> 3 * k + 3 <= |ts|) && ParseCreate(s, tables) == Created(PrepareSuccess, StoredName(ts[2]), WithColumns(NoSchema, ts[4..], k))
      ensures StoredName(ts[2]) == if |ts[2]| > 31 then ts[2][..31] else ts[2]
    {
      ListAccepted(s, at, StoredName(ts[2]), NoSchema, k);
      StoredMeans(ts[2]);
    }
  }

  /** Without a closing parenthesis a CREATE is accepted exactly when the line ends right after the opening
      one or after a comma. */
  lemma UnclosedCreate(s: seq<Byte>, tables: seq<TableDef>)
    requires [41] !in Tokens(s, At(0, 0))
    ensures var ts := Tokens(s, At(0, 0));
            ParseCreate(s, tables).result == PrepareSuccess
            <==> HeadOf(ts, tables) && exists k: nat :: k <= 16 && Listed(ts[4..], k) && CutShort(ts[4..], k)
  {
    var ts := Tokens(s, At(0, 0));
    CreateAccepted(s, tables);
    hide Tokens, ParseCreate, HeadOf, Listed, WithColumns, FindFrom;
    if k: nat :| CreateOf(ts, tables, k) {
      NotClosed(ts, ts[4..], k);
    }
    if HeadOf(ts, tables) {
      if k: nat :| k <= 16 && Listed(ts[4..], k) && CutShort(ts[4..], k) { assert CreateOf(ts, tables, k); }
    }
  }

  lemma NotClosed(ts: seq<seq<Byte>>, list: seq<seq<Byte>>, k: nat)
    requires [41] !in ts && |ts| >= 4 && list == ts[4..] && ListOf(list, k)
    ensures CutShort(list, k)
  {
    assert forall i :: 0 <= i < |list| ==> list[i] == ts[i + 4];
  }

  // A line cut short

  lemma WordToken(s: seq<Byte>, at: At, start: nat, end: nat)
    requires at.pos <= start < end <= |s| && AllSpace(s, at.pos, start) && PlainWord(s[start..end])
    requires (end < |s| ==> EndsWord(s[end])) && at.count < MAX_TOKENS
    ensures Tokens(s, at) == [s[start..end]] + Tokens(s, At(end, at.count + 1))
  {
    LexWordAt(s, at.pos, start, end);
  }

  lemma ThisToken(s: seq<Byte>, at: At, start: nat, end: nat, w: seq<Byte>)
    requires at.pos <= start < end <= |s| && AllSpace(s, at.pos, start) && PlainWord(s[start..end]) && s[start..end] == w
    requires (end < |s| ==> EndsWord(s[end])) && at.count < MAX_TOKENS
    ensures Tokens(s, at) == [w] + Tokens(s, At(end, at.count + 1))
  {
    hide *;
    WordToken(s, at, start, end);
  }

  lemma SingleToken(s: seq<Byte>, at: At, start: nat)
    requires at.pos <= start < |s| && AllSpace(s, at.pos, start) && IsSingle(s[start]) && at.count < MAX_TOKENS
    ensures Tokens(s, at) == [[s[start]]] + Tokens(s, At(start + 1, at.count + 1))
  {
    LexSingleAt(s, at.pos, start);
  }

  lemma NoToken(s: seq<Byte>, at: At)
    requires at.pos == |s|
    ensures Tokens(s, at) == []
  {
  }

  const LINE := "create table t (a int,"

  /** `create table t (`, perhaps with a column and perhaps with a comma behind it. */
  function CutLine(n: nat): (s: seq<Byte>)
    requires n <= |LINE|
    ensures |s| == n && forall i :: 0 <= i < n ==> s[i] == LINE[i] as int
  {
    Bytes(LINE)[..n]
  }

  ghost predicate Cut(s: seq<Byte>) { 16 <= |s| <= 22 && s == CutLine(|s|) }

  lemma CutBytes(s: seq<Byte>)
    requires Cut(s)
    ensures s[0..6] == Bytes("create") && s[6] == SPACE && s[7..12] == Bytes("table") && s[12] == SPACE && s[13] == 116
    ensures s[14] == SPACE && s[15] == LPAREN && (|s| >= 21 ==> s[16] == 97 && s[17] == SPACE && s[18..21] == Bytes("int"))
    ensures |s| == 22 ==> s[21] == COMMA
  {
    assert forall k :: 0 <= k < |s| ==> s[k] == LINE[k] as int;
    var create, table, kind := Bytes("create"), Bytes("table"), Bytes("int");
    hide CutLine;
    assert forall k :: 0 <= k < 6 ==> s[0..6][k] == create[k];
    assert forall k :: 0 <= k < 5 ==> s[7..12][k] == table[k];
    if |s| >= 21 { assert forall k :: 0 <= k < 3 ==> s[18..21][k] == kind[k]; }
  }

  lemma PlainBytes()
    ensures PlainWord(Bytes("create")) && PlainWord(Bytes("table")) && PlainWord(Bytes("int")) && PlainWord([116]) && PlainWord([97])
    ensures IsSpace(SPACE) && EndsWord(SPACE) && IsSingle(LPAREN) && IsSingle(COMMA) && EndsWord(COMMA) && EndsWord(LPAREN)
  {
  }

  /** What the tokenizer needs to know of the cut line. */
  lemma CutWords(s: seq<Byte>)
    requires Cut(s)
    ensures s[0..6] == Bytes("create") && s[7..12] == Bytes("table") && s[13..14] == [116]
    ensures PlainWord(s[0..6]) && PlainWord(s[7..12]) && PlainWord(s[13..14])
    ensures AllSpace(s, 0, 0) && AllSpace(s, 6, 7) && AllSpace(s, 12, 13) && AllSpace(s, 14, 15)
    ensures EndsWord(s[6]) && EndsWord(s[12]) && EndsWord(s[14]) && IsSingle(s[15]) && [s[15]] == [LPAREN]
  {
    CutBytes(s);
    PlainBytes();
    assert s[13..14] == [116];
  }

  lemma CutColumn(s: seq<Byte>)
    requires Cut(s) && |s| >= 21
    ensures s[16..17] == [97] && s[18..21] == Bytes("int") && PlainWord(s[16..17]) && PlainWord(s[18..21])
    ensures AllSpace(s, 16, 16) && AllSpace(s, 17, 18) && AllSpace(s, 21, 21) && EndsWord(s[17])
    ensures |s| == 22 ==> EndsWord(s[21]) && IsSingle(s[21]) && [s[21]] == [COMMA]
  {
    CutBytes(s);
    PlainBytes();
    assert s[16..17] == [97];
  }

  lemma HeadTokens(s: seq<Byte>)
    requires Cut(s)
    ensures Tokens(s, At(0, 0)) == [Bytes("create"), Bytes("table"), [116], [LPAREN]] + Tokens(s, At(16, 4))
  {
    CutWords(s);
    assert |s| >= 16;
    hide *;
    assert 4 <= MAX_TOKENS by { Room(); }
    WordToken(s, At(0, 0), 0, 6);
    WordToken(s, At(6, 1), 7, 12);
    WordToken(s, At(12, 2), 13, 14);
    SingleToken(s, At(14, 3), 15);
  }

  lemma Room()
    ensures 7 <= MAX_TOKENS
  {
  }

  lemma ColumnTokens(s: seq<Byte>)
    requires Cut(s) && 21 <= |s|
    ensures Tokens(s, At(16, 4)) == [[97], Bytes("int")] + Tokens(s, At(21, 6))
    ensures Tokens(s, At(21, 6)) == if |s| == 22 then [[COMMA]] else []
  {
    assert |s| == 21 || |s| == 22;
    hide *;
    CutColumn(s);
    LastToken(s);
    assert 7 <= MAX_TOKENS by { Room(); }
    ThisToken(s, At(16, 4), 16, 17, [97]);
    ThisToken(s, At(17, 5), 18, 21, Bytes("int"));
    Joined([97], Bytes("int"), Tokens(s, At(16, 4)), Tokens(s, At(17, 5)), Tokens(s, At(21, 6)));
  }

  lemma LastToken(s: seq<Byte>)
    requires Cut(s) && 21 <= |s|
    ensures Tokens(s, At(21, 6)) == if |s| == 22 then [[COMMA]] else []
  {
    CutColumn(s);
    assert |s| == 21 || |s| == 22;
    hide *;
    assert 7 <= MAX_TOKENS by { Room(); }
    if |s| == 22 {
      SingleToken(s, At(21, 6), 21);
      NoToken(s, At(22, 7));
    } else {
      NoToken(s, At(21, 6));
    }
  }

  lemma Joined<T>(x: T, y: T, a: seq<T>, b: seq<T>, c: seq<T>)
    requires a == [x] + b && b == [y] + c
    ensures a == [x, y] + c
  {
  }

  lemma WordsSpelled()
    ensures Spells(Bytes("create"), "create", "CREATE") && Spells(Bytes("table"), "table", "TABLE")
  {
  }

  lemma CutHead(s: seq<Byte>, tables: seq<TableDef>)
    requires Cut(s) && Unnamed(tables, [116]) && |tables| < 5
    ensures var ts := Tokens(s, At(0, 0)); HeadOf(ts, tables) && ts[2] == [116] && ts[4..] == Tokens(s, At(16, 4))
  {
    assert |s| >= 16;
    hide Tokens, Cut, Unnamed, Bytes, Spells;
    HeadTokens(s);
    WordsSpelled();
    FourThenRest(Tokens(s, At(0, 0)), Bytes("create"), Bytes("table"), [116], [LPAREN], Tokens(s, At(16, 4)));
  }

  lemma FourThenRest<T>(all: seq<T>, a: T, b: T, c: T, d: T, rest: seq<T>)
    requires all == [a, b, c, d] + rest
    ensures |all| >= 4 && all[0] == a && all[1] == b && all[2] == c && all[3] == d && all[4..] == rest
  {
  }

  lemma OneColumn(ts: seq<seq<Byte>>)
    requires ts == [[97], Bytes("int"), [COMMA]]
    ensures ListOf(ts, 1) && WithColumns(NoSchema, ts, 1) == Schema([Field([97], FieldInt, 4, 0)], 4)
  {
    assert Spells(ts[1], "int", "INT");
    NoColumnsAdded(AddField(NoSchema, [97], FieldInt), ts[3..]);
  }

  lemma NoComma(ts: seq<seq<Byte>>)
    requires |ts| == 2 && ts[0] == [97]
    ensures forall k: nat :: !ListOf(ts, k)
  {
    assert !ListOf(ts, 0);
    forall k: nat | ListOf(ts, k) ensures k == 0 { ListedSize(ts, k); if k > 0 { ListEnd(ts, k); } }
  }

  /** `create table t (` makes a table without columns, `create table t (a int,` one with a single column, and
      `create table t (a int` is refused. */
  lemma {:induction false} CutCreate(tables: seq<TableDef>, n: nat)
    requires Unnamed(tables, [116]) && |tables| < 5
    requires n == 16 || n == 21 || n == 22
    ensures var r := ParseCreate(CutLine(n), tables);
            if n == 16 then r == Created(PrepareSuccess, [116], NoSchema)
            else if n == 22 then r == Created(PrepareSuccess, [116], Schema([Field([97], FieldInt, 4, 0)], 4))
            else r.result != PrepareSuccess
  {
    var s := CutLine(n);
    var ts := Tokens(s, At(0, 0));
    CreateAccepted(s, tables);
    CutHead(s, tables);
    ShortName();
    assert Cut(s) && 1 <= MAX_FIELDS;
    hide Tokens, ParseCreate, FindFrom, CutLine, Bytes, ListOf, WithColumns, HeadOf, Cut, AddField, Unnamed, Spells, KindOf;
    if n == 16 {
      NoToken(s, At(16, 4));
      ListNone(ts[4..]);
      NoColumnsAdded(NoSchema, ts[4..]);
      assert CreateOf(ts, tables, 0);
    } else {
      ColumnTokens(s);
      if n == 22 {
        OneColumn(ts[4..]);
        assert CreateOf(ts, tables, 1);
      } else {
        NoComma(ts[4..]);
      }
    }
  }

  lemma ShortName()
    ensures StoredName([116]) == [116]
  {
  }
}
