/** The tokenizer and the INSERT parser of src/statement.c. */
module Parser {
  import opened Layout
  import opened Rows
  import opened Catalog

  const MAX_TOKENS: nat := 128
  const QUOTE: Byte := 39
  const LPAREN: Byte := 40
  const RPAREN: Byte := 41
  const COMMA: Byte := 44
  const SPACE: Byte := 32

  /** isspace in the C locale. */
  predicate IsSpace(b: Byte) { b == SPACE || 9 <= b <= 13 }

  /** ( ) , = ; */
  predicate IsPunct(b: Byte) { b == LPAREN || b == RPAREN || b == COMMA || b == 61 || b == 59 }

  /** The characters that are tokens of their own at the start of a token: < and > as well. */
  predicate IsSingle(b: Byte) { IsPunct(b) || b == 60 || b == 62 }

  /** The characters that end a bare word. */
  predicate EndsWord(b: Byte) { IsSpace(b) || IsPunct(b) }

  function SkipSpace(s: seq<Byte>, pos: nat): (r: nat)
    requires pos <= |s|
    ensures pos <= r <= |s| && (r < |s| ==> !IsSpace(s[r]))
    ensures forall i :: pos <= i < r ==> IsSpace(s[i])
    decreases |s| - pos
  {
    if pos < |s| && IsSpace(s[pos]) then SkipSpace(s, pos + 1) else pos
  }

  function WordEnd(s: seq<Byte>, pos: nat): (r: nat)
    requires pos <= |s|
    ensures pos <= r <= |s| && (r < |s| ==> EndsWord(s[r]))
    ensures forall i :: pos <= i < r ==> !EndsWord(s[i])
    decreases |s| - pos
  {
    if pos < |s| && !EndsWord(s[pos]) then WordEnd(s, pos + 1) else pos
  }

  function QuoteEnd(s: seq<Byte>, pos: nat): (r: nat)
    requires pos <= |s|
    ensures pos <= r <= |s| && (r < |s| ==> s[r] == QUOTE)
    ensures forall i :: pos <= i < r ==> s[i] != QUOTE
    decreases |s| - pos
  {
    if pos < |s| && s[pos] != QUOTE then QuoteEnd(s, pos + 1) else pos
  }

  datatype Lexeme = End | Lexeme(text: seq<Byte>, next: nat)

  /** The token at a position of the line and where the next one may start. */
  function Lex(s: seq<Byte>, pos: nat): Lexeme
    requires pos <= |s|
  {
    var start := SkipSpace(s, pos);
    if start == |s| then End
    else if IsSingle(s[start]) then Lexeme([s[start]], start + 1)
    else if s[start] == QUOTE then
      var end := QuoteEnd(s, start + 1);
      Lexeme(s[start + 1..end], if end < |s| then end + 1 else end)
    else
      var end := WordEnd(s, start);
      Lexeme(s[start..end], end)
  }

  /** Every token consumes at least one character. */
  lemma LexAdvances(s: seq<Byte>, pos: nat)
    requires pos <= |s|
    ensures match Lex(s, pos) case End => true case Lexeme(_, next) => pos < next <= |s|
  {
    var start := SkipSpace(s, pos);
    if start < |s| && !IsSingle(s[start]) && s[start] != QUOTE {
      assert !EndsWord(s[start]);
      assert WordEnd(s, start) == WordEnd(s, start + 1);
    }
  }

  /** White space, and the characters that are tokens of their own. */
  ghost const WHITE: set<int> := {9, 10, 11, 12, 13, 32}
  ghost const PUNCTUATION: set<int> := {40, 41, 44, 59, 61}

  /** A token, told by its bytes: one character of ( ) , ; = < >, or what stands between quotes, or a word up to
      white space or one of ( ) , ; =. */
  lemma LexMeans(s: seq<Byte>, pos: nat) returns (start: nat)
    requires pos <= |s|
    ensures pos <= start <= |s| && (forall i :: pos <= i < start ==> s[i] in WHITE) && (start < |s| ==> s[start] !in WHITE)
    ensures Lex(s, pos) == End <==> start == |s|
    ensures start < |s| ==>
              var text, next := Lex(s, pos).text, Lex(s, pos).next;
              if s[start] in PUNCTUATION + {60, 62} then text == [s[start]] && next == start + 1
              else if s[start] == 39 then
                var end := start + 1 + |text|;
                && end <= |s| && text == s[start + 1..end] && 39 !in text
                && (if end < |s| then s[end] == 39 && next == end + 1 else next == end)
              else
                && start < next <= |s| && text == s[start..next] && (next < |s| ==> s[next] in WHITE + PUNCTUATION)
                && forall i :: start <= i < next ==> s[i] !in WHITE + PUNCTUATION
  {
    start := SkipSpace(s, pos);
    LexAdvances(s, pos);
  }

  function Lower(b: Byte): Byte { if 65 <= b <= 90 then b + 32 else b }

  /** strcasecmp(a, b) == 0 */
  predicate SameWord(a: seq<Byte>, b: seq<Byte>) {
    |a| == |b| && forall i :: 0 <= i < |a| ==> Lower(a[i]) == Lower(b[i])
  }

  /** w spells a word, letter by letter, each in either case. */
  ghost predicate Spells(w: seq<Byte>, lower: string, upper: string) {
    |w| == |lower| == |upper| && forall i :: 0 <= i < |w| ==> w[i] == lower[i] as int || w[i] == upper[i] as int
  }

  lemma SameSpelling(t: seq<Byte>, lower: string, upper: string)
    requires |lower| == |upper|
    requires forall i :: 0 <= i < |lower| ==> 97 <= lower[i] as int <= 122 && upper[i] as int == lower[i] as int - 32
    ensures SameWord(t, Bytes(lower)) <==> Spells(t, lower, upper)
  {
    forall i | 0 <= i < |t| && |t| == |lower|
      ensures Lower(t[i]) == Lower(Bytes(lower)[i]) <==> t[i] == lower[i] as int || t[i] == upper[i] as int
    {
    }
  }

  /** The words of the statements, whatever the case of their letters. */
  lemma Keywords(t: seq<Byte>)
    ensures SameWord(t, Bytes("insert")) <==> Spells(t, "insert", "INSERT")
    ensures SameWord(t, Bytes("into")) <==> Spells(t, "into", "INTO")
    ensures SameWord(t, Bytes("values")) <==> Spells(t, "values", "VALUES")
    ensures SameWord(t, Bytes("create")) <==> Spells(t, "create", "CREATE")
    ensures SameWord(t, Bytes("table")) <==> Spells(t, "table", "TABLE")
    ensures SameWord(t, Bytes("int")) <==> Spells(t, "int", "INT")
  {
    SameSpelling(t, "insert", "INSERT");
    SameSpelling(t, "into", "INTO");
    SameSpelling(t, "values", "VALUES");
    SameSpelling(t, "create", "CREATE");
    SameSpelling(t, "table", "TABLE");
    SameSpelling(t, "int", "INT");
  }

  /** Punctuation has no case. */
  lemma Marks(t: seq<Byte>)
    ensures SameWord(t, [LPAREN]) <==> t == [40]
    ensures SameWord(t, [RPAREN]) <==> t == [41]
    ensures SameWord(t, [COMMA]) <==> t == [44]
  {
    forall b: Byte | b == 40 || b == 41 || b == 44 ensures SameWord(t, [b]) <==> t == [b] {
      if |t| == 1 { assert Lower(t[0]) == b <==> t[0] == b; }
    }
  }

  /** A position in the line and the number of tokens taken so far. */
  datatype At = At(pos: nat, count: nat)

  function Take(s: seq<Byte>, at: At): (r: (Option<seq<Byte>>, At))
    requires at.pos <= |s|
    ensures r.1.pos <= |s| && r.1.count <= at.count + 1
  {
    LexAdvances(s, at.pos);
    match Lex(s, at.pos)
    case End => (None, at)
    case Lexeme(text, next) =>
      if at.count < MAX_TOKENS then (Some(text), At(next, at.count + 1)) else (None, At(next, at.count))
  }

  function TakeWord(s: seq<Byte>, at: At, word: seq<Byte>): (r: (bool, At))
    requires at.pos <= |s|
    ensures r.1.pos <= |s| && r.1.count <= at.count + 1
  {
    var (token, next) := Take(s, at);
    (token.Some? && SameWord(token.value, word), next)
  }

  /** PrepareContext and the moving pointer into the line. */
  class Tokenizer {
    const line: seq<Byte>
    var pos: nat
    var tokens: seq<seq<Byte>>

    ghost predicate Valid()
      reads this
    {
      pos <= |line|
    }

    function Here(): At
      reads this
    {
      At(pos, |tokens|)
    }

    constructor (line: seq<Byte>)
      ensures Valid() && this.line == line && pos == 0 && tokens == []
    {
      this.line, pos, tokens := line, 0, [];
    }

    /** consume_token_ctx: the next token, unless the line is at its end or 128 tokens are taken. */
    method Consume() returns (token: Option<seq<Byte>>)
      requires Valid()
      modifies this
      ensures Valid()
      ensures match Lex(line, old(pos))
              case End => token == None && pos == old(pos) && tokens == old(tokens)
              case Lexeme(text, next) =>
                && pos == next > old(pos)
                && (if |old(tokens)| < MAX_TOKENS then token == Some(text) && tokens == old(tokens) + [text]
                    else token == None && tokens == old(tokens))
      ensures (token, Here()) == Take(line, old(Here()))
    {
      LexAdvances(line, pos);
      var lexeme := Scan();
      if lexeme == End { return None; }
      pos := lexeme.next;
      if |tokens| < MAX_TOKENS {
        tokens := tokens + [lexeme.text];
        token := Some(lexeme.text);
      } else {
        token := None;
      }
    }

    /** The pointer runs over white space and then over one token. */
    method Scan() returns (lexeme: Lexeme)
      requires Valid()
      ensures lexeme == Lex(line, pos)
    {
      var s := pos;
      while s < |line| && IsSpace(line[s])
        invariant pos <= s <= |line| && SkipSpace(line, s) == SkipSpace(line, pos)
      {
        s := s + 1;
      }
      if s == |line| { return End; }
      if IsSingle(line[s]) {
        return Lexeme([line[s]], s + 1);
      }
      if line[s] == QUOTE {
        s := s + 1;
        var start := s;
        while s < |line| && line[s] != QUOTE
          invariant start <= s <= |line| && QuoteEnd(line, s) == QuoteEnd(line, start)
        {
          s := s + 1;
        }
        return Lexeme(line[start..s], if s < |line| then s + 1 else s);
      }
      var start := s;
      while s < |line| && !EndsWord(line[s])
        invariant start <= s <= |line| && WordEnd(line, s) == WordEnd(line, start)
      {
        s := s + 1;
      }
      lexeme := Lexeme(line[start..s], s);
    }

    /** expect_token_ctx compares the next token without regard to case. */
    method Expect(expected: seq<Byte>) returns (ok: bool)
      requires Valid()
      modifies this
      ensures Valid() && (ok, Here()) == TakeWord(line, old(Here()), expected)
    {
      var token := Consume();
      ok := token.Some? && SameWord(token.value, expected);
    }
  }

  function Bytes(s: string): seq<Byte>
    requires forall i :: 0 <= i < |s| ==> s[i] as int < 256
  {
    seq(|s|, i requires 0 <= i < |s| => s[i] as int)
  }

  /** atoi: leading white space, a sign, digits; what follows is ignored. */
  function Digits(s: seq<Byte>, acc: nat): nat
    decreases |s|
  {
    if s != [] && 48 <= s[0] <= 57 then Digits(s[1..], 10 * acc + (s[0] - 48)) else acc
  }

  function Atoi(s: seq<Byte>): int {
    var t := s[SkipSpace(s, 0)..];
    if t != [] && t[0] == 45 then 0 - Digits(t[1..], 0)
    else if t != [] && t[0] == 43 then Digits(t[1..], 0)
    else Digits(t, 0)
  }

  /** The int that atoi returns, stored in a uint32_t. */
  function ToUint32(n: int): Key { n % 0x1_0000_0000 }

  datatype PrepareResult =
    | PrepareSuccess | PrepareSyntaxError | PrepareUnrecognized | PrepareNoTable | PrepareStringTooLong
    | PrepareTableAlreadyExists | PrepareCatalogFull

  /** A prepared INSERT: the table, the column values, and insert_values[0], the key. */
  datatype InsertStatement = InsertStatement(table: nat, vals: seq<Value>, key: Key)

  datatype Prepared = Prepared(result: PrepareResult, statement: InsertStatement)

  const NoStatement := InsertStatement(0, [], 0)

  /** The value of one column, or why it is refused. */
  function ColumnValue(f: Field, token: seq<Byte>): Option<Value> {
    if f.kind == FieldInt then Some(Num(ToUint32(Atoi(token))))
    else if |token| >= f.size then None
    else Some(Text(token))
  }

  datatype Columns = Refused(why: PrepareResult) | Columns(vals: seq<Value>, at: At)

  /** The value list: a token per column, commas between them. */
  function ParseColumns(s: seq<Byte>, at: At, fields: seq<Field>, done: seq<Value>): (r: Columns)
    requires at.pos <= |s| && |done| <= |fields|
    ensures if r.Columns? then r.at.pos <= |s| && |r.vals| == |fields| else r.why != PrepareSuccess
    decreases |fields| - |done|
  {
    var i := |done|;
    if i == |fields| then Columns(done, at)
    else
      var (token, at1) := Take(s, at);
      if token == None then Refused(PrepareSyntaxError)
      else
        var v := ColumnValue(fields[i], token.value);
        if v == None then Refused(PrepareStringTooLong)
        else if i < |fields| - 1 then
          var (comma, at2) := TakeWord(s, at1, [COMMA]);
          if !comma then Refused(PrepareSyntaxError) else ParseColumns(s, at2, fields, done + [v.value])
        else ParseColumns(s, at1, fields, done + [v.value])
  }

  function KeyOf(vals: seq<Value>, unset: Key): Key {
    if vals == [] then unset else KeyOfValue(vals[0])
  }

  /** What prepare_insert makes of a line; `unset` is the key of a statement without columns. */
  function ParseInsert(s: seq<Byte>, tables: seq<TableDef>, unset: Key): Prepared {
    var (insert, at1) := TakeWord(s, At(0, 0), Bytes("insert"));
    if !insert then Prepared(PrepareUnrecognized, NoStatement)
    else
      var (into, at2) := TakeWord(s, at1, Bytes("into"));
      if !into then Prepared(PrepareSyntaxError, NoStatement)
      else
        var (name, at3) := Take(s, at2);
        if name == None then Prepared(PrepareSyntaxError, NoStatement)
        else
          var index := FindFrom(tables, name.value, 0);
          if index == None then Prepared(PrepareNoTable, NoStatement)
          else FindFirst(tables, name.value, 0); ParseValues(s, at3, tables, index.value, unset)
  }

  function ParseValues(s: seq<Byte>, at: At, tables: seq<TableDef>, index: nat, unset: Key): Prepared
    requires at.pos <= |s| && index < |tables|
  {
    var (values, at1) := TakeWord(s, at, Bytes("values"));
    if !values then Prepared(PrepareSyntaxError, NoStatement)
    else
      var (open, at2) := TakeWord(s, at1, [LPAREN]);
      if !open then Prepared(PrepareSyntaxError, NoStatement)
      else
        match ParseColumns(s, at2, tables[index].schema.fields, [])
        case Refused(why) => Prepared(why, NoStatement)
        case Columns(vals, at3) =>
          if TakeWord(s, at3, [RPAREN]).0
          then Prepared(PrepareSuccess, InsertStatement(index, vals, KeyOf(vals, unset)))
          else Prepared(PrepareSyntaxError, NoStatement)
  }

  /** prepare_insert, token by token. */
  method PrepareInsert(line: seq<Byte>, tables: seq<TableDef>, unset: Key) returns (r: Prepared)
    ensures r == ParseInsert(line, tables, unset)
  {
    hide Take, TakeWord, Lex, Bytes, ParseValues;
    var ctx := new Tokenizer(line);
    var ok := ctx.Expect(Bytes("insert"));
    if !ok { return Prepared(PrepareUnrecognized, NoStatement); }
    ok := ctx.Expect(Bytes("into"));
    if !ok { return Prepared(PrepareSyntaxError, NoStatement); }
    var name := ctx.Consume();
    if name == None { return Prepared(PrepareSyntaxError, NoStatement); }
    var index := FindTable(tables, name.value);
    if index == None { return Prepared(PrepareNoTable, NoStatement); }
    FindFirst(tables, name.value, 0);
    r := PrepareValues(ctx, tables, index.value, unset);
  }

  method PrepareValues(ctx: Tokenizer, tables: seq<TableDef>, index: nat, unset: Key) returns (r: Prepared)
    requires ctx.Valid() && index < |tables|
    modifies ctx
    ensures r == ParseValues(ctx.line, old(ctx.Here()), tables, index, unset)
  {
    hide Take, TakeWord, Lex, Bytes, ParseColumns;
    var ok := ctx.Expect(Bytes("values"));
    if !ok { return Prepared(PrepareSyntaxError, NoStatement); }
    ok := ctx.Expect([LPAREN]);
    if !ok { return Prepared(PrepareSyntaxError, NoStatement); }
    var columns := PrepareColumns(ctx, tables[index].schema.fields);
    if columns.Refused? { return Prepared(columns.why, NoStatement); }
    ok := ctx.Expect([RPAREN]);
    if !ok { return Prepared(PrepareSyntaxError, NoStatement); }
    var vals := columns.vals;
    var key := unset;
    if |vals| > 0 {
      match vals[0] {
        case Num(n) => key := n;
        case Text(s) => key := HashString(s);
      }
    }
    r := Prepared(PrepareSuccess, InsertStatement(index, vals, key));
  }

  /** The loop over the columns. */
  method PrepareColumns(ctx: Tokenizer, fields: seq<Field>) returns (r: Columns)
    requires ctx.Valid()
    modifies ctx
    ensures ctx.Valid()
    ensures r == ParseColumns(ctx.line, old(ctx.Here()), fields, [])
    ensures r.Columns? ==> r.at == ctx.Here()
  {
    hide Take, TakeWord, Lex, Atoi;
    ghost var at0 := ctx.Here();
    var vals: seq<Value> := [];
    while |vals| < |fields|
      invariant ctx.Valid() && |vals| <= |fields|
      invariant ParseColumns(ctx.line, ctx.Here(), fields, vals) == ParseColumns(ctx.line, at0, fields, [])
      decreases |fields| - |vals|
    {
      var i := |vals|;
      var token := ctx.Consume();
      if token == None { return Refused(PrepareSyntaxError); }
      var v: Value;
      if fields[i].kind == FieldInt {
        v := Num(ToUint32(Atoi(token.value)));
      } else {
        if |token.value| >= fields[i].size { return Refused(PrepareStringTooLong); }
        v := Text(token.value);
      }
      if i < |fields| - 1 {
        var comma := ctx.Expect([COMMA]);
        if !comma { return Refused(PrepareSyntaxError); }
      }
      vals := vals + [v];
    }
    r := Columns(vals, ctx.Here());
  }

  /** A prepared CREATE: the name as the catalog keeps it, and the schema. */
  datatype Created = Created(result: PrepareResult, name: seq<Byte>, schema: Schema)

  const NoSchema := Schema([], 0)

  /** The column list: name and type, then a comma or the closing parenthesis. A line that ends
      where a name is expected is accepted as well. */
  function ParseFields(s: seq<Byte>, at: At, name: seq<Byte>, schema: Schema): Created
    requires at.pos <= |s| && |schema.fields| <= MAX_FIELDS
    decreases MAX_FIELDS - |schema.fields|
  {
    var (field, at1) := Take(s, at);
    if field == None || field.value == [RPAREN] then Created(PrepareSuccess, name, schema)
    else if |schema.fields| >= MAX_FIELDS || |field.value| >= FIELD_NAME_MAX then Created(PrepareSyntaxError, name, schema)
    else
      var (kind, at2) := Take(s, at1);
      if kind == None then Created(PrepareSyntaxError, name, schema)
      else
        var more := AddField(schema, field.value, if SameWord(kind.value, Bytes("int")) then FieldInt else FieldText);
        var (next, at3) := Take(s, at2);
        if next == Some([RPAREN]) then Created(PrepareSuccess, name, more)
        else if next == Some([COMMA]) then ParseFields(s, at3, name, more)
        else Created(PrepareSyntaxError, name, more)
  }

  /** What prepare_create makes of a line. */
  function ParseCreate(s: seq<Byte>, tables: seq<TableDef>): Created {
    var (create, at1) := TakeWord(s, At(0, 0), Bytes("create"));
    if !create then Created(PrepareUnrecognized, [], NoSchema)
    else
      var (table, at2) := TakeWord(s, at1, Bytes("table"));
      if !table then Created(PrepareSyntaxError, [], NoSchema)
      else
        var (name, at3) := Take(s, at2);
        if name == None then Created(PrepareSyntaxError, [], NoSchema)
        else if FindFrom(tables, name.value, 0) != None then Created(PrepareTableAlreadyExists, [], NoSchema)
        else if |tables| >= MAX_TABLES then Created(PrepareCatalogFull, [], NoSchema)
        else
          var (open, at4) := TakeWord(s, at3, [LPAREN]);
          if !open then Created(PrepareSyntaxError, StoredName(name.value), NoSchema)
          else ParseFields(s, at4, StoredName(name.value), NoSchema)
  }

  /** Every schema that the parser accepts is packed, and the statement may be executed. */
  lemma CreateIsValid(s: seq<Byte>, tables: seq<TableDef>)
    requires ParseCreate(s, tables).result == PrepareSuccess
    ensures var r := ParseCreate(s, tables);
            NamedSchema(r.schema) && |r.name| < TABLE_NAME_MAX && |tables| < MAX_TABLES
  {
    hide Take, TakeWord, Bytes, FindFrom, ParseFields;
    var (create, at1) := TakeWord(s, At(0, 0), Bytes("create"));
    var (table, at2) := TakeWord(s, at1, Bytes("table"));
    var (name, at3) := Take(s, at2);
    var (open, at4) := TakeWord(s, at3, [LPAREN]);
    FieldsAreValid(s, at4, StoredName(name.value), NoSchema);
  }

  /** A packed schema whose column names fit their slots. */
  ghost predicate NamedSchema(schema: Schema) {
    ValidSchema(schema) && forall i :: 0 <= i < |schema.fields| ==> |schema.fields[i].name| < FIELD_NAME_MAX
  }

  lemma AddNamedField(schema: Schema, name: seq<Byte>, kind: FieldType)
    requires NamedSchema(schema) && |schema.fields| < MAX_FIELDS && |name| < FIELD_NAME_MAX
    ensures NamedSchema(AddField(schema, name, kind))
  {
    AddFieldValid(schema, name, kind);
  }

  lemma {:induction false} FieldsAreValid(s: seq<Byte>, at: At, name: seq<Byte>, schema: Schema)
    requires at.pos <= |s| && NamedSchema(schema) && |schema.fields| <= MAX_FIELDS
    ensures NamedSchema(ParseFields(s, at, name, schema).schema) && ParseFields(s, at, name, schema).name == name
    decreases MAX_FIELDS - |schema.fields|
  {
    var added, rest, field, kind, next := FieldsUnfold(s, at, name, schema);
    hide ParseFields, NamedSchema;
    if added {
      AddNamedField(schema, field, kind);
      if rest { FieldsAreValid(s, next, name, AddField(schema, field, kind)); }
    }
  }

  /** One turn of the column list: it may add a column, and go on behind it. */
  lemma FieldsUnfold(s: seq<Byte>, at: At, name: seq<Byte>, schema: Schema)
    returns (added: bool, rest: bool, field: seq<Byte>, kind: FieldType, next: At)
    requires at.pos <= |s| && |schema.fields| <= MAX_FIELDS
    ensures var r := ParseFields(s, at, name, schema);
            if !added then r.schema == schema && r.name == name
            else
              && |schema.fields| < MAX_FIELDS && |field| < FIELD_NAME_MAX && next.pos <= |s|
              && (if rest then r == ParseFields(s, next, name, AddField(schema, field, kind))
                  else r.schema == AddField(schema, field, kind) && r.name == name)
  {
    hide Take, Bytes, SameWord;
    var token, at1 := Take(s, at).0, Take(s, at).1;
    added := token.Some? && token.value != [RPAREN] && |schema.fields| < MAX_FIELDS && |token.value| < FIELD_NAME_MAX
             && Take(s, at1).0.Some?;
    rest, field, kind, next := false, [], FieldInt, at;
    if added {
      field, kind := token.value, if SameWord(Take(s, at1).0.value, Bytes("int")) then FieldInt else FieldText;
      next := Take(s, Take(s, at1).1).1;
      rest := Take(s, Take(s, at1).1).0 == Some([COMMA]);
    }
  }

  /** prepare_create, token by token. */
  method PrepareCreate(line: seq<Byte>, tables: seq<TableDef>) returns (r: Created)
    ensures r == ParseCreate(line, tables)
  {
    hide Take, TakeWord, Lex, Bytes, ParseFields;
    var ctx := new Tokenizer(line);
    var ok := ctx.Expect(Bytes("create"));
    if !ok { return Created(PrepareUnrecognized, [], NoSchema); }
    ok := ctx.Expect(Bytes("table"));
    if !ok { return Created(PrepareSyntaxError, [], NoSchema); }
    var name := ctx.Consume();
    if name == None { return Created(PrepareSyntaxError, [], NoSchema); }
    var index := FindTable(tables, name.value);
    if index != None { return Created(PrepareTableAlreadyExists, [], NoSchema); }
    if |tables| >= MAX_TABLES { return Created(PrepareCatalogFull, [], NoSchema); }
    ok := ctx.Expect([LPAREN]);
    if !ok { return Created(PrepareSyntaxError, StoredName(name.value), NoSchema); }
    r := PrepareFields(ctx, StoredName(name.value));
  }

  /** The loop over the columns of a CREATE. */
  method PrepareFields(ctx: Tokenizer, name: seq<Byte>) returns (r: Created)
    requires ctx.Valid()
    modifies ctx
    ensures r == ParseFields(ctx.line, old(ctx.Here()), name, NoSchema)
  {
    hide Take, TakeWord, Lex, Bytes;
    ghost var at0 := ctx.Here();
    var schema := NoSchema;
    while true
      invariant ctx.Valid() && |schema.fields| <= MAX_FIELDS
      invariant ParseFields(ctx.line, ctx.Here(), name, schema) == ParseFields(ctx.line, at0, name, NoSchema)
      decreases MAX_FIELDS - |schema.fields|
    {
      var field := ctx.Consume();
      if field == None || field.value == [RPAREN] { break; }
      if |schema.fields| >= MAX_FIELDS { return Created(PrepareSyntaxError, name, schema); }
      if |field.value| >= FIELD_NAME_MAX { return Created(PrepareSyntaxError, name, schema); }
      var kind := ctx.Consume();
      if kind == None { return Created(PrepareSyntaxError, name, schema); }
      schema := AddField(schema, field.value, if SameWord(kind.value, Bytes("int")) then FieldInt else FieldText);
      var next := ctx.Consume();
      if next == None { return Created(PrepareSyntaxError, name, schema); }
      if next.value == [RPAREN] { break; }
      if next.value != [COMMA] { return Created(PrepareSyntaxError, name, schema); }
    }
    r := Created(PrepareSuccess, name, schema);
  }

  // Rendering an INSERT and reading it back

  function Decimal(n: nat): seq<Byte> {
    if n < 10 then [48 + n] else Decimal(n / 10) + [48 + n % 10]
  }

  ghost predicate AllDigits(s: seq<Byte>) { forall i :: 0 <= i < |s| ==> 48 <= s[i] <= 57 }

  lemma {:induction false} DigitsAppend(s: seq<Byte>, acc: nat, d: nat)
    requires AllDigits(s) && d < 10
    ensures Digits(s + [48 + d], acc) == 10 * Digits(s, acc) + d
    decreases |s|
  {
    var t := s + [48 + d];
    if s == [] {
      assert t[1..] == [] && Digits(t[1..], 10 * acc + d) == 10 * acc + d;
    } else {
      assert t[1..] == s[1..] + [48 + d] && t[0] == s[0];
      assert AllDigits(s[1..]) by { forall i | 0 <= i < |s[1..]| ensures 48 <= s[1..][i] <= 57 { assert s[1..][i] == s[i + 1]; } }
      DigitsAppend(s[1..], 10 * acc + (s[0] - 48), d);
    }
  }

  lemma {:induction false} DecimalDigits(n: nat)
    ensures |Decimal(n)| > 0 && AllDigits(Decimal(n)) && Digits(Decimal(n), 0) == n
  {
    if n < 10 {
      assert Digits([48 + n][1..], n) == n;
    } else {
      DecimalDigits(n / 10);
      DigitsAppend(Decimal(n / 10), 0, n % 10);
    }
  }

  /** Printing a number and reading it with atoi gives it back. */
  lemma DecimalRoundTrip(n: Key)
    ensures ToUint32(Atoi(Decimal(n))) == n
  {
    DecimalDigits(n);
    var s := Decimal(n);
    assert !IsSpace(s[0]);
    assert s[0..] == s;
  }

  /** A text that can be written between quotes, a number that an int can hold. */
  ghost predicate Writable(f: Field, v: Value) {
    if f.kind == FieldInt then v.Num? && v.n < 0x8000_0000
    else v.Text? && |v.s| < f.size && QUOTE !in v.s && CString(v.s)
  }

  function RenderValue(v: Value): seq<Byte> {
    if v.Num? then Decimal(v.n) else [QUOTE] + v.s + [QUOTE]
  }

  function RenderValues(vals: seq<Value>): seq<Byte> {
    if |vals| == 0 then []
    else if |vals| == 1 then RenderValue(vals[0])
    else RenderValue(vals[0]) + [COMMA, SPACE] + RenderValues(vals[1..])
  }

  /** An INSERT with its keywords as they are given, and whatever follows the closing parenthesis. */
  function RenderInsert(insert: seq<Byte>, into: seq<Byte>, name: seq<Byte>, values: seq<Byte>, vals: seq<Value>, tail: seq<Byte>): seq<Byte> {
    (insert + [SPACE] + into + [SPACE]) + name + ([SPACE] + values + [SPACE, LPAREN]) + RenderValues(vals) + ([RPAREN] + tail)
  }

  /** A bare word: one token when written without quotes. */
  ghost predicate PlainWord(w: seq<Byte>) {
    |w| > 0 && !IsSingle(w[0]) && w[0] != QUOTE && forall i :: 0 <= i < |w| ==> !EndsWord(w[i])
  }

  ghost predicate AllSpace(s: seq<Byte>, from: nat, to: nat)
    requires from <= to <= |s|
  {
    forall i :: from <= i < to ==> IsSpace(s[i])
  }

  lemma LexWordAt(s: seq<Byte>, pos: nat, start: nat, end: nat)
    requires pos <= start < end <= |s| && AllSpace(s, pos, start) && PlainWord(s[start..end])
    requires end < |s| ==> EndsWord(s[end])
    ensures Lex(s, pos) == Lexeme(s[start..end], end)
  {
    var w := s[start..end];
    assert forall i :: start <= i < end ==> s[i] == w[i - start];
    assert SkipSpace(s, pos) == start by { assert !EndsWord(w[0]); }
    assert WordEnd(s, start) == end;
  }

  lemma LexSingleAt(s: seq<Byte>, pos: nat, start: nat)
    requires pos <= start < |s| && AllSpace(s, pos, start) && IsSingle(s[start])
    ensures Lex(s, pos) == Lexeme([s[start]], start + 1)
  {
    assert SkipSpace(s, pos) == start;
  }

  lemma LexQuotedAt(s: seq<Byte>, pos: nat, start: nat, end: nat)
    requires pos <= start && start + 1 <= end < |s| && AllSpace(s, pos, start)
    requires s[start] == QUOTE && s[end] == QUOTE && QUOTE !in s[start + 1..end]
    ensures Lex(s, pos) == Lexeme(s[start + 1..end], end + 1)
  {
    assert SkipSpace(s, pos) == start;
    assert forall i :: start + 1 <= i < end ==> s[i] == s[start + 1..end][i - start - 1];
    assert QuoteEnd(s, start + 1) == end;
  }

  /** An expected word is found. */
  lemma TakeWordAt(s: seq<Byte>, at: At, start: nat, end: nat, word: seq<Byte>)
    requires at.pos <= start < end <= |s| && AllSpace(s, at.pos, start) && s[start..end] == word && PlainWord(word)
    requires end < |s| ==> EndsWord(s[end])
    requires at.count < MAX_TOKENS
    ensures TakeWord(s, at, word) == (true, At(end, at.count + 1))
    ensures Take(s, at) == (Some(word), At(end, at.count + 1))
  {
    LexWordAt(s, at.pos, start, end);
  }

  /** An expected word is found in whatever case it is written. */
  lemma TakeSpelled(s: seq<Byte>, at: At, start: nat, end: nat, word: seq<Byte>)
    requires at.pos <= start < end <= |s| && AllSpace(s, at.pos, start) && SameWord(s[start..end], word) && PlainWord(s[start..end])
    requires end < |s| ==> EndsWord(s[end])
    requires at.count < MAX_TOKENS
    ensures TakeWord(s, at, word) == (true, At(end, at.count + 1))
  {
    LexWordAt(s, at.pos, start, end);
  }

  lemma SpelledPlain(w: seq<Byte>, lower: string, upper: string)
    requires Spells(w, lower, upper) && |w| > 0
    requires forall i :: 0 <= i < |lower| ==> 97 <= lower[i] as int <= 122 && 65 <= upper[i] as int <= 90
    ensures PlainWord(w)
  {
    forall i | 0 <= i < |w| ensures !EndsWord(w[i]) && !IsSingle(w[i]) && w[i] != QUOTE { }
  }

  lemma TakeSingleAt(s: seq<Byte>, at: At, start: nat, b: Byte)
    requires at.pos <= start < |s| && AllSpace(s, at.pos, start) && s[start] == b && IsSingle(b)
    requires at.count < MAX_TOKENS
    ensures TakeWord(s, at, [b]) == (true, At(start + 1, at.count + 1))
  {
    LexSingleAt(s, at.pos, start);
  }

  lemma {:induction false} DecimalPlain(n: nat)
    ensures PlainWord(Decimal(n))
  {
    DecimalDigits(n);
  }

  lemma SliceOfSlice(s: seq<Byte>, a: nat, b: nat, c: nat, d: nat)
    requires a <= b <= |s| && c <= d <= b - a
    ensures s[a..b][c..d] == s[a + c..a + d]
  {
    var t, u := s[a..b][c..d], s[a + c..a + d];
    forall i | 0 <= i < |t| ensures t[i] == u[i] {
      assert t[i] == s[a..b][c + i] == s[a + c + i];
    }
  }

  /** The token at `at` gives v in column f, and ends at `at1`. */
  ghost predicate Reads(s: seq<Byte>, at: At, f: Field, v: Value, at1: At) {
    && at.pos <= |s| && at1.pos <= |s|
    && var (token, next) := Take(s, at);
       token.Some? && next == at1 && ColumnValue(f, token.value) == Some(v)
  }

  /** The token of a rendered value, followed by a comma or the closing parenthesis. */
  lemma LexValueAt(s: seq<Byte>, at: At, start: nat, end: nat, f: Field, v: Value)
    requires at.pos <= start <= end < |s| && AllSpace(s, at.pos, start) && s[start..end] == RenderValue(v)
    requires EndsWord(s[end]) && Writable(f, v) && f.size == SizeOf(f.kind) && at.count < MAX_TOKENS
    ensures Reads(s, at, f, v, At(end, at.count + 1))
  {
    var r := s[start..end];
    if v.Num? {
      DecimalPlain(v.n);
      LexWordAt(s, at.pos, start, end);
      DecimalRoundTrip(v.n);
    } else {
      assert r == [QUOTE] + v.s + [QUOTE] && r[0] == s[start] && r[|r| - 1] == s[end - 1];
      assert r[1..|r| - 1] == v.s;
      SliceOfSlice(s, start, end, 1, |r| - 1);
      LexQuotedAt(s, at.pos, start, end - 1);
    }
  }

  /** A window of s that holds x + y + z holds each of them in its place. */
  lemma WindowParts(s: seq<Byte>, start: nat, end: nat, x: seq<Byte>, y: seq<Byte>, z: seq<Byte>)
    requires start <= end <= |s| && s[start..end] == x + y + z
    ensures end == start + |x| + |y| + |z|
    ensures s[start..start + |x|] == x && s[start + |x|..start + |x| + |y|] == y && s[start + |x| + |y|..end] == z
  {
    var w := s[start..end];
    assert |w| == end - start;
    SliceOfSlice(s, start, end, 0, |x|);
    SliceOfSlice(s, start, end, |x|, |x| + |y|);
    SliceOfSlice(s, start, end, |x| + |y|, |w|);
    assert w[0..|x|] == x && w[|x|..|x| + |y|] == y && w[|x| + |y|..|w|] == z;
  }

  /** The first value of a list, its comma, and the rest. */
  lemma ValuesSplit(s: seq<Byte>, start: nat, end: nat, vals: seq<Value>)
    requires start <= end < |s| && |vals| > 1 && s[start..end] == RenderValues(vals)
    ensures var mid := start + |RenderValue(vals[0])|;
            && mid + 2 <= end && s[start..mid] == RenderValue(vals[0]) && s[mid] == COMMA && s[mid + 1] == SPACE
            && s[mid + 2..end] == RenderValues(vals[1..])
  {
    var text, tail := RenderValue(vals[0]), RenderValues(vals[1..]);
    hide RenderValue;
    assert s[start..end] == text + [COMMA, SPACE] + tail;
    hide RenderValues;
    WindowParts(s, start, end, text, [COMMA, SPACE], tail);
    var mid := start + |text|;
    assert s[mid] == s[mid..mid + 2][0] && s[mid + 1] == s[mid..mid + 2][1];
  }

  lemma ColumnsLast(s: seq<Byte>, at: At, fields: seq<Field>, done: seq<Value>, v: Value, at1: At)
    requires |done| + 1 == |fields| && Reads(s, at, fields[|done|], v, at1)
    ensures ParseColumns(s, at, fields, done) == Columns(done + [v], at1)
  {
    hide Take, ColumnValue;
    assert ParseColumns(s, at1, fields, done + [v]) == Columns(done + [v], at1);
  }

  lemma ColumnsNext(s: seq<Byte>, at: At, fields: seq<Field>, done: seq<Value>, v: Value, at1: At, at2: At)
    requires |done| + 1 < |fields| && Reads(s, at, fields[|done|], v, at1)
    requires TakeWord(s, at1, [COMMA]) == (true, at2)
    ensures at2.pos <= |s| && ParseColumns(s, at, fields, done) == ParseColumns(s, at2, fields, done + [v])
  {
    hide Take, ColumnValue;
  }

  ghost predicate WritableFrom(fields: seq<Field>, done: nat, rest: seq<Value>) {
    && done + |rest| == |fields|
    && forall j :: 0 <= j < |rest| ==> Writable(fields[done + j], rest[j])
  }

  /** The columns `rest` of a rendered row stand between start and end, before the closing
      parenthesis; |done| columns came before them. */
  ghost predicate ColumnsAt(s: seq<Byte>, at: At, start: nat, end: nat, fields: seq<Field>, done: nat, rest: seq<Value>) {
    && WritableFrom(fields, done, rest) && Sized(fields)
    && at.pos <= start <= end < |s| && AllSpace(s, at.pos, start) && s[start..end] == RenderValues(rest)
    && s[end] == RPAREN && at.count + 2 * |rest| <= MAX_TOKENS
  }

  /** The parser has read all columns and stands before the closing parenthesis. */
  ghost predicate ColumnsRead(s: seq<Byte>, r: Columns, end: nat, vals: seq<Value>, count: nat)
    requires end < |s|
  {
    r.Columns? && r.vals == vals && r.at.pos <= end && AllSpace(s, r.at.pos, end) && r.at.count <= count
  }

  /** The first of the columns that stand at `at` is read. */
  lemma FirstColumn(s: seq<Byte>, at: At, start: nat, end: nat, fields: seq<Field>, done: nat, rest: seq<Value>, mid: nat)
    requires ColumnsAt(s, at, start, end, fields, done, rest) && rest != []
    requires start <= mid <= end && s[start..mid] == RenderValue(rest[0]) && (s[mid] == COMMA || s[mid] == RPAREN)
    ensures Reads(s, at, fields[done], rest[0], At(mid, at.count + 1))
  {
    assert Writable(fields[done + 0], rest[0]);
    assert fields[done].size == SizeOf(fields[done].kind);
    hide RenderValues, RenderValue, Writable, Reads;
    LexValueAt(s, at, start, mid, fields[done], rest[0]);
  }

  lemma LastColumn(s: seq<Byte>, at: At, start: nat, end: nat, fields: seq<Field>, done: seq<Value>, rest: seq<Value>)
    requires ColumnsAt(s, at, start, end, fields, |done|, rest) && |rest| == 1
    ensures ColumnsRead(s, ParseColumns(s, at, fields, done), end, done + rest, at.count + 2)
  {
    FirstColumn(s, at, start, end, fields, |done|, rest, end);
    hide Reads, RenderValue, RenderValues, ParseColumns, Sized;
    ColumnsLast(s, at, fields, done, rest[0], At(end, at.count + 1));
    assert done + [rest[0]] == done + rest;
  }

  /** Behind the first column and its comma, the others follow. */
  lemma NextColumnPlace(s: seq<Byte>, at: At, start: nat, end: nat, fields: seq<Field>, done: nat, rest: seq<Value>)
    returns (mid: nat)
    requires ColumnsAt(s, at, start, end, fields, done, rest) && |rest| > 1
    ensures mid + 2 <= end && start <= mid && s[start..mid] == RenderValue(rest[0]) && s[mid] == COMMA
    ensures ColumnsAt(s, At(mid + 1, at.count + 2), mid + 2, end, fields, done + 1, rest[1..])
  {
    hide RenderValues, RenderValue, WritableFrom, Sized;
    mid := start + |RenderValue(rest[0])|;
    assert |rest| > 1 && start <= end < |s| && s[start..end] == RenderValues(rest);
    ValuesSplit(s, start, end, rest);
    WritableRest(fields, done, rest);
    assert AllSpace(s, mid + 1, mid + 2);
  }

  lemma WritableRest(fields: seq<Field>, done: nat, rest: seq<Value>)
    requires WritableFrom(fields, done, rest) && |rest| > 0
    ensures WritableFrom(fields, done + 1, rest[1..])
  {
    hide Writable;
    var tail := rest[1..];
    forall j | 0 <= j < |tail| ensures Writable(fields[done + 1 + j], tail[j]) {
      assert tail[j] == rest[j + 1] && Writable(fields[done + (j + 1)], rest[j + 1]);
    }
  }

  lemma ColumnsRoom(s: seq<Byte>, at: At, start: nat, end: nat, fields: seq<Field>, done: nat, rest: seq<Value>)
    requires ColumnsAt(s, at, start, end, fields, done, rest)
    ensures end < |s| && done + |rest| == |fields| && at.pos <= start && at.count + 2 * |rest| <= MAX_TOKENS
  {
    hide RenderValues, Sized, Writable;
  }

  lemma CommaAt(s: seq<Byte>, at: At, mid: nat)
    requires at.pos == mid < |s| && s[mid] == COMMA && at.count < MAX_TOKENS
    ensures TakeWord(s, at, [COMMA]) == (true, At(mid + 1, at.count + 1))
  {
    hide TakeWord;
    TakeSingleAt(s, at, mid, COMMA);
  }

  lemma NextColumn(s: seq<Byte>, at: At, start: nat, end: nat, fields: seq<Field>, done: seq<Value>, rest: seq<Value>)
    returns (at': At, start': nat)
    requires ColumnsAt(s, at, start, end, fields, |done|, rest) && |rest| > 1
    ensures ColumnsAt(s, at', start', end, fields, |done| + 1, rest[1..]) && at'.count == at.count + 2
    ensures ParseColumns(s, at, fields, done) == ParseColumns(s, at', fields, done + [rest[0]])
  {
    hide *;
    ColumnsRoom(s, at, start, end, fields, |done|, rest);
    var mid := NextColumnPlace(s, at, start, end, fields, |done|, rest);
    at', start' := At(mid + 1, at.count + 2), mid + 2;
    FirstColumn(s, at, start, end, fields, |done|, rest, mid);
    CommaAt(s, At(mid, at.count + 1), mid);
    ColumnsNext(s, at, fields, done, rest[0], At(mid, at.count + 1), at');
  }

  lemma NoColumns(s: seq<Byte>, at: At, start: nat, end: nat, fields: seq<Field>, done: seq<Value>, rest: seq<Value>)
    requires ColumnsAt(s, at, start, end, fields, |done|, rest) && |rest| == 0
    ensures ColumnsRead(s, ParseColumns(s, at, fields, done), end, done + rest, at.count)
  {
    assert done + rest == done;
  }

  lemma MoveOne<T>(done: seq<T>, rest: seq<T>)
    requires |rest| > 0
    ensures done + [rest[0]] + rest[1..] == done + rest
  {
  }

  /** The value list is read back. */
  lemma {:induction false} ColumnsRoundTrip(s: seq<Byte>, at: At, start: nat, end: nat, fields: seq<Field>, done: seq<Value>,
                                            rest: seq<Value>)
    requires end < |s| && at.pos <= |s|
    requires ColumnsAt(s, at, start, end, fields, |done|, rest)
    ensures ColumnsRead(s, ParseColumns(s, at, fields, done), end, done + rest, at.count + 2 * |rest|)
    decreases |rest|
  {
    assert |done| + |rest| == |fields|;
    if |rest| == 0 {
      NoColumns(s, at, start, end, fields, done, rest);
    } else if |rest| == 1 {
      hide *;
      LastColumn(s, at, start, end, fields, done, rest);
    } else {
      hide *;
      MoveOne(done, rest);
      var at', start' := NextColumn(s, at, start, end, fields, done, rest);
      ColumnsRoundTrip(s, at', start', end, fields, done + [rest[0]], rest[1..]);
    }
  }

  /** Where the pieces of a rendered INSERT lie. */
  ghost predicate HeadAt(s: seq<Byte>, insert: seq<Byte>, into: seq<Byte>, name: seq<Byte>) {
    && |s| > 12 + |name|
    && s[0..6] == insert && s[6] == SPACE && s[7..11] == into && s[11] == SPACE
    && s[12..12 + |name|] == name && s[12 + |name|] == SPACE
  }

  ghost predicate TailAt(s: seq<Byte>, m: nat, values: seq<Byte>, vals: seq<Value>) {
    var end := m + 9 + |RenderValues(vals)|;
    && |s| > end && s[m] == SPACE
    && s[m + 1..m + 7] == values && s[m + 7] == SPACE && s[m + 8] == LPAREN
    && s[m + 9..end] == RenderValues(vals) && s[end] == RPAREN
  }

  /** The five pieces of a concatenation. */
  lemma FivePieces(s: seq<Byte>, a: seq<Byte>, b: seq<Byte>, c: seq<Byte>, d: seq<Byte>, e: seq<Byte>)
    requires s == a + b + c + d + e
    ensures var i, j, k, l := |a|, |a| + |b|, |a| + |b| + |c|, |a| + |b| + |c| + |d|;
            |s| == l + |e| && s[..i] == a && s[i..j] == b && s[j..k] == c && s[k..l] == d && s[l..] == e
  {
  }

  lemma RenderedInsert(insert: seq<Byte>, into: seq<Byte>, name: seq<Byte>, values: seq<Byte>, vals: seq<Value>, tail: seq<Byte>)
    requires |insert| == 6 && |into| == 4 && |values| == 6
    ensures var s := RenderInsert(insert, into, name, values, vals, tail);
            HeadAt(s, insert, into, name) && TailAt(s, 12 + |name|, values, vals)
  {
    hide RenderValues;
    var s := RenderInsert(insert, into, name, values, vals, tail);
    var head, mid, end := insert + [SPACE] + into + [SPACE], [SPACE] + values + [SPACE, LPAREN], [RPAREN] + tail;
    FivePieces(s, head, name, mid, RenderValues(vals), end);
    HeadPieces(s, head, insert, into);
    MidPieces(s, 12 + |name|, mid, values);
    EndPiece(s, 21 + |name| + |RenderValues(vals)|, end, tail);
  }

  lemma HeadPieces(s: seq<Byte>, head: seq<Byte>, insert: seq<Byte>, into: seq<Byte>)
    requires |insert| == 6 && |into| == 4 && head == insert + [SPACE] + into + [SPACE] && |s| >= 12 && s[..12] == head
    ensures s[0..6] == insert && s[6] == SPACE && s[7..11] == into && s[11] == SPACE
  {
    assert s[0..6] == head[0..6] && s[7..11] == head[7..11] && s[6] == head[6] && s[11] == head[11];
  }

  lemma MidPieces(s: seq<Byte>, m: nat, mid: seq<Byte>, values: seq<Byte>)
    requires |values| == 6 && mid == [SPACE] + values + [SPACE, LPAREN] && |s| >= m + 9 && s[m..m + 9] == mid
    ensures s[m] == SPACE && s[m + 1..m + 7] == values && s[m + 7] == SPACE && s[m + 8] == LPAREN
  {
    SliceOfSlice(s, m, m + 9, 1, 7);
    assert mid[1..7] == values;
    assert s[m] == s[m..m + 9][0] && s[m + 7] == s[m..m + 9][7] && s[m + 8] == s[m..m + 9][8];
  }

  lemma EndPiece(s: seq<Byte>, l: nat, end: seq<Byte>, tail: seq<Byte>)
    requires l <= |s| && s[l..] == end && end == [RPAREN] + tail
    ensures l < |s| && s[l] == RPAREN
  {
    assert s[l] == s[l..][0];
  }

  /** The keywords of an INSERT, each letter in either case. */
  ghost predicate InsertWords(insert: seq<Byte>, into: seq<Byte>, values: seq<Byte>) {
    Spells(insert, "insert", "INSERT") && Spells(into, "into", "INTO") && Spells(values, "values", "VALUES")
  }

  lemma InsertWordsPlain(insert: seq<Byte>, into: seq<Byte>, values: seq<Byte>)
    requires InsertWords(insert, into, values)
    ensures |insert| == 6 && |into| == 4 && |values| == 6 && PlainWord(insert) && PlainWord(into) && PlainWord(values)
    ensures SameWord(insert, Bytes("insert")) && SameWord(into, Bytes("into")) && SameWord(values, Bytes("values"))
  {
    Keywords(insert);
    Keywords(into);
    Keywords(values);
    hide SameWord, PlainWord, Bytes;
    SpelledPlain(insert, "insert", "INSERT");
    SpelledPlain(into, "into", "INTO");
    SpelledPlain(values, "values", "VALUES");
  }

  /** The words up to the table name. */
  lemma HeadRoundTrip(s: seq<Byte>, insert: seq<Byte>, into: seq<Byte>, values: seq<Byte>, name: seq<Byte>)
    requires PlainWord(name) && HeadAt(s, insert, into, name) && InsertWords(insert, into, values)
    ensures TakeWord(s, At(0, 0), Bytes("insert")) == (true, At(6, 1))
    ensures TakeWord(s, At(6, 1), Bytes("into")) == (true, At(11, 2))
    ensures Take(s, At(11, 2)) == (Some(name), At(12 + |name|, 3))
  {
    InsertWordsPlain(insert, into, values);
    var n := |name|;
    assert n > 0;
    assert AllSpace(s, 0, 0) && AllSpace(s, 6, 7) && AllSpace(s, 11, 12) && EndsWord(SPACE);
    hide Take, TakeWord, Lex, PlainWord, Bytes, AllSpace, EndsWord, SameWord, InsertWords;
    TakeSpelled(s, At(0, 0), 0, 6, Bytes("insert"));
    TakeSpelled(s, At(6, 1), 7, 11, Bytes("into"));
    TakeWordAt(s, At(11, 2), 12, 12 + n, name);
  }

  lemma TailPlaces(s: seq<Byte>, m: nat, values: seq<Byte>, vals: seq<Value>)
    requires TailAt(s, m, values, vals)
    ensures |s| >= m + 10 && s[m + 1..m + 7] == values && EndsWord(s[m + 7]) && s[m + 8] == LPAREN && IsSingle(LPAREN)
    ensures AllSpace(s, m, m + 1) && AllSpace(s, m + 7, m + 8) && 5 <= MAX_TOKENS
  {
    hide RenderValues;
  }

  /** The words from VALUES to the opening parenthesis. */
  lemma ValuesRoundTrip(s: seq<Byte>, m: nat, insert: seq<Byte>, into: seq<Byte>, values: seq<Byte>, vals: seq<Value>)
    requires TailAt(s, m, values, vals) && InsertWords(insert, into, values)
    ensures TakeWord(s, At(m, 3), Bytes("values")) == (true, At(m + 7, 4))
    ensures TakeWord(s, At(m + 7, 4), [LPAREN]) == (true, At(m + 9, 5))
  {
    hide *;
    InsertWordsPlain(insert, into, values);
    TailPlaces(s, m, values, vals);
    TakeSpelled(s, At(m, 3), m + 1, m + 7, Bytes("values"));
    TakeSingleAt(s, At(m + 7, 4), m + 8, LPAREN);
  }

  lemma EmptyPlus<T>(s: seq<T>)
    ensures [] + s == s
  {
  }

  lemma TailColumns(s: seq<Byte>, m: nat, values: seq<Byte>, fields: seq<Field>, vals: seq<Value>)
    requires TailAt(s, m, values, vals) && Sized(fields) && |fields| <= MAX_FIELDS && WritableFrom(fields, 0, vals)
    ensures var end := m + 9 + |RenderValues(vals)|;
            && end < |s| && ColumnsAt(s, At(m + 9, 5), m + 9, end, fields, 0, vals)
            && s[end] == RPAREN && |vals| == |fields| && 5 + 2 * |vals| < MAX_TOKENS
  {
    assert |vals| == |fields|;
    hide RenderValues, Sized, WritableFrom, Bytes;
  }

  /** The value list and the closing parenthesis. */
  lemma TailRoundTrip(s: seq<Byte>, m: nat, values: seq<Byte>, fields: seq<Field>, vals: seq<Value>)
    requires TailAt(s, m, values, vals) && Sized(fields) && |fields| <= MAX_FIELDS && WritableFrom(fields, 0, vals)
    ensures m + 9 <= |s|
    ensures var r := ParseColumns(s, At(m + 9, 5), fields, []);
            r.Columns? && r.vals == vals && TakeWord(s, r.at, [RPAREN]).0
  {
    hide *;
    var at, end := At(m + 9, 5), m + 9 + |RenderValues(vals)|;
    TailColumns(s, m, values, fields, vals);
    EmptyPlus(vals);
    ColumnsRoundTrip(s, at, m + 9, end, fields, [], vals);
    CloseRead(s, ParseColumns(s, at, fields, []), end, vals, 5 + 2 * |vals|);
  }

  /** Behind the last column the closing parenthesis is found. */
  lemma CloseRead(s: seq<Byte>, r: Columns, end: nat, vals: seq<Value>, count: nat)
    requires end < |s| && ColumnsRead(s, r, end, vals, count) && s[end] == RPAREN && count < MAX_TOKENS
    ensures r.Columns? && r.vals == vals && r.at.pos <= |s| && TakeWord(s, r.at, [RPAREN]).0
  {
    hide TakeWord;
    TakeSingleAt(s, r.at, end, RPAREN);
  }

  /** The outcome of the parser when every piece of the line is as expected. */
  lemma ParseOutcome(s: seq<Byte>, tables: seq<TableDef>, index: nat, vals: seq<Value>, unset: Key,
                     at1: At, at2: At, at3: At, at4: At, at5: At)
    requires index < |tables| && FindFrom(tables, tables[index].name, 0) == Some(index)
    requires at1.pos <= |s| && at2.pos <= |s| && at3.pos <= |s| && at4.pos <= |s| && at5.pos <= |s|
    requires TakeWord(s, At(0, 0), Bytes("insert")) == (true, at1) && TakeWord(s, at1, Bytes("into")) == (true, at2)
    requires Take(s, at2) == (Some(tables[index].name), at3)
    requires TakeWord(s, at3, Bytes("values")) == (true, at4) && TakeWord(s, at4, [LPAREN]) == (true, at5)
    requires var r := ParseColumns(s, at5, tables[index].schema.fields, []);
             r.Columns? && r.vals == vals && TakeWord(s, r.at, [RPAREN]).0
    ensures ParseInsert(s, tables, unset) == Prepared(PrepareSuccess, InsertStatement(index, vals, KeyOf(vals, unset)))
  {
    hide Take, TakeWord, ParseColumns, Bytes, FindFrom, KeyOf;
  }

  /** Rendering an INSERT into an existing table and parsing it gives back its values, whatever the case of
      the keywords and whatever follows the line. A number in the first column is the key; a text there is
      hashed. */
  lemma InsertRoundTrip(insert: seq<Byte>, into: seq<Byte>, values: seq<Byte>, tail: seq<Byte>,
                        tables: seq<TableDef>, index: nat, vals: seq<Value>, unset: Key)
    requires InsertWords(insert, into, values)
    requires index < |tables| && FindFrom(tables, tables[index].name, 0) == Some(index)
    requires PlainWord(tables[index].name) && ValidSchema(tables[index].schema)
    requires |vals| == |tables[index].schema.fields|
    requires forall j :: 0 <= j < |vals| ==> Writable(tables[index].schema.fields[j], vals[j])
    ensures var r := ParseInsert(RenderInsert(insert, into, tables[index].name, values, vals, tail), tables, unset);
            && r.result == PrepareSuccess && r.statement.table == index && r.statement.vals == vals
            && (if vals == [] then r.statement.key == unset else IsKeyOf(r.statement.key, vals[0]))
            && (vals != [] && vals[0].Num? ==> r.statement.key == vals[0].n)
  {
    var name := tables[index].name;
    var fields := tables[index].schema.fields;
    var s := RenderInsert(insert, into, name, values, vals, tail);
    var m := 12 + |name|;
    InsertWordsPlain(insert, into, values);
    RenderedInsert(insert, into, name, values, vals, tail);
    if vals != [] { KeyIs(vals[0]); }
    assert vals != [] && vals[0].Num? ==> KeyOfValue(vals[0]) == vals[0].n;
    assert WritableFrom(fields, 0, vals);
    hide WritableFrom, RenderInsert, ParseInsert, TailAt, PlainWord, FindFrom, Writable, Packed, Sized, SameWord, InsertWords, IsKeyOf;
    assert |s| > 12 + |name|;
    hide HeadAt;
    HeadRoundTrip(s, insert, into, values, name);
    ValuesRoundTrip(s, m, insert, into, values, vals);
    TailRoundTrip(s, m, values, fields, vals);
    var key := KeyOf(vals, unset);
    assert if vals == [] then key == unset else key == KeyOfValue(vals[0]);
    hide *;
    ParseOutcome(s, tables, index, vals, unset, At(6, 1), At(11, 2), At(m, 3), At(m + 7, 4), At(m + 9, 5));
  }
}
