/** What prepare_insert makes of a line, told by its tokens, and what atoi makes of a token. */
module InsertTokens {
  import opened Layout
  import opened Rows
  import opened Catalog
  import opened Parser
  import opened CreateTokens

  // Numbers

  ghost function Power10(n: nat): nat { if n == 0 then 1 else 10 * Power10(n - 1) }

  /** Every digit times the power of ten that belongs to its place. */
  ghost function ValueOf(d: seq<Byte>): int { if d == [] then 0 else (d[0] - 48) * Power10(|d| - 1) + ValueOf(d[1..]) }

  ghost predicate NoDigit(rest: seq<Byte>) { rest != [] ==> rest[0] < 48 || rest[0] > 57 }

  lemma Distributed(acc: int, c: int, p: int)
    ensures (10 * acc + c) * p == acc * (10 * p) + c * p
  {
  }

  lemma {:induction false} DigitsValue(d: seq<Byte>, rest: seq<Byte>, acc: nat)
    requires AllDigits(d) && NoDigit(rest)
    ensures Digits(d + rest, acc) == acc * Power10(|d|) + ValueOf(d)
    decreases |d|
  {
    if d == [] {
      assert d + rest == rest;
    } else {
      var t := d + rest;
      assert t[1..] == d[1..] + rest && t[0] == d[0];
      assert AllDigits(d[1..]) by { forall i | 0 <= i < |d[1..]| ensures 48 <= d[1..][i] <= 57 { assert d[1..][i] == d[i + 1]; } }
      DigitsValue(d[1..], rest, 10 * acc + (d[0] - 48));
      Distributed(acc, d[0] - 48, Power10(|d| - 1));
      assert Power10(|d|) == 10 * Power10(|d| - 1);
    }
  }

  lemma {:induction false} SkipSpaceAt(space: seq<Byte>, rest: seq<Byte>, k: nat)
    requires k <= |space| && (forall i :: 0 <= i < |space| ==> space[i] in WHITE) && (rest != [] ==> rest[0] !in WHITE)
    ensures SkipSpace(space + rest, k) == |space|
    decreases |space| - k
  {
    if k < |space| { SkipSpaceAt(space, rest, k + 1); }
  }

  /** atoi: white space is passed over, then a sign and digits are read in decimal; what follows does not count. */
  lemma AtoiMeans(space: seq<Byte>, sign: seq<Byte>, d: seq<Byte>, rest: seq<Byte>)
    requires (forall i :: 0 <= i < |space| ==> space[i] in WHITE) && (sign == [] || sign == [43] || sign == [45])
    requires AllDigits(d) && NoDigit(rest)
    requires sign == d == [] && rest != [] ==> rest[0] !in WHITE && rest[0] != 43 && rest[0] != 45
    ensures Atoi(space + sign + d + rest) == if sign == [45] then 0 - ValueOf(d) else ValueOf(d)
  {
    var t := sign + (d + rest);
    var s := space + sign + d + rest;
    assert s == space + t;
    assert t != [] ==> t[0] !in WHITE;
    SkipSpaceAt(space, t, 0);
    assert s[|space|..] == t;
    DigitsValue(d, rest, 0);
    if sign == [] { assert t == d + rest; } else { assert t[1..] == d + rest; }
  }

  /** A negative int in a uint32_t. */
  lemma NegativeKey(n: int)
    requires -0x1_0000_0000 <= n < 0x1_0000_0000
    ensures ToUint32(n) == if n < 0 then n + 0x1_0000_0000 else n
  {
  }

  // The columns

  /** There is a token for column j, and it is not too long. */
  ghost predicate ValueFine(cs: seq<seq<Byte>>, fields: seq<Field>, j: nat)
    requires j < |fields|
  {
    2 * j < |cs| && (fields[j].kind == FieldText ==> |cs[2 * j]| < fields[j].size)
  }

  /** A comma stands before the next column, if there is one. */
  ghost predicate CommaFine(cs: seq<seq<Byte>>, n: nat, j: nat) { j + 1 < n ==> 2 * j + 1 < |cs| && cs[2 * j + 1] == [44] }

  ghost predicate ColumnsFine(cs: seq<seq<Byte>>, fields: seq<Field>, i: nat)
    requires i <= |fields|
  {
    forall j {:trigger ValueFine(cs, fields, j)} :: 0 <= j < i ==> ValueFine(cs, fields, j) && CommaFine(cs, |fields|, j)
  }

  /** Column i is the first that is not as it should be, and it is a text that does not fit. */
  ghost predicate TooLongAt(cs: seq<seq<Byte>>, fields: seq<Field>, i: nat) {
    i < |fields| && ColumnsFine(cs, fields, i) && 2 * i < |cs| && fields[i].kind == FieldText && |cs[2 * i]| >= fields[i].size
  }

  ghost predicate SomeTooLong(cs: seq<seq<Byte>>, fields: seq<Field>) { exists i: nat :: TooLongAt(cs, fields, i) }

  /** How many tokens n columns and the commas between them take. */
  ghost function Used(n: nat): nat { if n == 0 then 0 else 2 * n - 1 }

  /** The value that a token gives: what atoi reads, as a uint32_t, or the text itself. */
  ghost predicate Gives(f: Field, token: seq<Byte>, v: Value) {
    if f.kind == FieldInt then v == Num(ToUint32(Atoi(token))) else v == Text(token)
  }

  /** The columns behind the first one. */
  lemma FineRest(cs: seq<seq<Byte>>, fields: seq<Field>, i: nat)
    requires 0 < i <= |fields| && 2 <= |cs|
    ensures ColumnsFine(cs, fields, i) <==> ValueFine(cs, fields, 0) && CommaFine(cs, |fields|, 0) && ColumnsFine(cs[2..], fields[1..], i - 1)
  {
    var ds, rest := cs[2..], fields[1..];
    forall j: nat | j < |rest|
      ensures ValueFine(ds, rest, j) <==> ValueFine(cs, fields, j + 1)
      ensures CommaFine(ds, |rest|, j) <==> CommaFine(cs, |fields|, j + 1)
    {
    }
    if ColumnsFine(cs, fields, i) {
      forall j | 0 <= j < i - 1 ensures ValueFine(ds, rest, j) && CommaFine(ds, |rest|, j) { assert ValueFine(cs, fields, j + 1); }
    }
    if ValueFine(cs, fields, 0) && CommaFine(cs, |fields|, 0) && ColumnsFine(ds, rest, i - 1) {
      forall j | 0 <= j < i ensures ValueFine(cs, fields, j) && CommaFine(cs, |fields|, j) {
        if j > 0 { assert ValueFine(ds, rest, j - 1); }
      }
    }
  }

  /** One turn of the loop over the columns, told by its tokens. */
  lemma ColumnsTurn(s: seq<Byte>, at: At, fields: seq<Field>, done: seq<Value>) returns (at': At, v: Value)
    requires at.pos <= |s| && |done| < |fields|
    ensures at'.pos <= |s|
    ensures var cs, f, r := Tokens(s, at), fields[|done|], ParseColumns(s, at, fields, done);
            if cs == [] then r == Refused(PrepareSyntaxError)
            else if f.kind == FieldText && |cs[0]| >= f.size then r == Refused(PrepareStringTooLong)
            else
              && Gives(f, cs[0], v)
              && if |done| + 1 == |fields| then Tokens(s, at') == cs[1..] && r == Columns(done + [v], at')
                 else if |cs| < 2 || cs[1] != [44] then r == Refused(PrepareSyntaxError)
                 else Tokens(s, at') == cs[2..] && r == ParseColumns(s, at', fields, done + [v])
  {
    hide Take, Tokens, SameWord, Atoi, ToUint32;
    var cs, f := Tokens(s, at), fields[|done|];
    TakeTokens(s, at);
    var at1 := Take(s, at).1;
    TakeTokens(s, at1);
    v := Num(0);
    at' := at;
    if cs != [] && !(f.kind == FieldText && |cs[0]| >= f.size) {
      v := ColumnValue(f, cs[0]).value;
      assert Gives(f, cs[0], v);
      if |done| + 1 == |fields| {
        at' := at1;
        assert ParseColumns(s, at1, fields, done + [v]) == Columns(done + [v], at1);
      } else {
        at' := Take(s, at1).1;
        if |cs| >= 2 {
          assert cs[1..][0] == cs[1] && cs[1..][1..] == cs[2..];
          Marks(cs[1]);
        }
      }
    }
  }

  ghost predicate AllGiven(fields: seq<Field>, cs: seq<seq<Byte>>, vals: seq<Value>) {
    |vals| == |fields| && forall j {:trigger vals[j]} :: 0 <= j < |fields| ==> 2 * j < |cs| && Gives(fields[j], cs[2 * j], vals[j])
  }

  /** The outcome of the loop over the columns. */
  ghost predicate ColumnsVerdict(cs: seq<seq<Byte>>, fields: seq<Field>, r: Columns, s: seq<Byte>, vals: seq<Value>) {
    if ColumnsFine(cs, fields, |fields|) then
      r.Columns? && r.at.pos <= |s| && Used(|fields|) <= |cs| && Tokens(s, r.at) == cs[Used(|fields|)..] && AllGiven(fields, cs, vals)
    else r == Refused(if SomeTooLong(cs, fields) then PrepareStringTooLong else PrepareSyntaxError)
  }

  /** The same turn, with the columns that are left. It ends the loop, or goes on to the next column. */
  lemma RestTurn(s: seq<Byte>, at: At, fields: seq<Field>, done: seq<Value>) returns (at': At, v: Value, more: bool)
    requires at.pos <= |s| && |done| < |fields|
    ensures at'.pos <= |s|
    ensures var cs, rest, r := Tokens(s, at), fields[|done|..], ParseColumns(s, at, fields, done);
            if more then
              && |rest| > 1 && |cs| >= 2 && ValueFine(cs, rest, 0) && CommaFine(cs, |rest|, 0) && Gives(rest[0], cs[0], v)
              && Tokens(s, at') == cs[2..] && r == ParseColumns(s, at', fields, done + [v])
            else
              && ColumnsVerdict(cs, rest, r, s, if ValueFine(cs, rest, 0) && |rest| == 1 then [v] else [])
              && (r.Columns? ==> r.vals == done + if ValueFine(cs, rest, 0) && |rest| == 1 then [v] else [])
  {
    var cs, rest := Tokens(s, at), fields[|done|..];
    at', v := ColumnsTurn(s, at, fields, done);
    assert rest[0] == fields[|done|];
    hide Tokens, ParseColumns, Gives;
    more := |rest| > 1 && ValueFine(cs, rest, 0) && CommaFine(cs, |rest|, 0);
    if !more { StopVerdict(cs, rest, ParseColumns(s, at, fields, done), s, at', v); }
  }

  lemma NoneLeft(s: seq<Byte>, at: At, fields: seq<Field>, done: seq<Value>)
    requires at.pos <= |s| && |done| == |fields|
    ensures var r := ParseColumns(s, at, fields, done); r == Columns(done, at) && ColumnsVerdict(Tokens(s, at), [], r, s, [])
  {
    assert Tokens(s, at)[0..] == Tokens(s, at);
  }

  lemma DropOne<T>(all: seq<T>, k: nat)
    requires k < |all|
    ensures all[k..][1..] == all[k + 1..] && |all[k..]| == |all| - k
  {
  }

  /** The loop over the columns: accepted if every column has a value that fits and a comma before the next;
      otherwise the first fault decides. */
  lemma {:induction false} ColumnsOutcome(s: seq<Byte>, at: At, fields: seq<Field>, done: seq<Value>) returns (vals: seq<Value>)
    requires at.pos <= |s| && |done| <= |fields|
    ensures var r := ParseColumns(s, at, fields, done);
            ColumnsVerdict(Tokens(s, at), fields[|done|..], r, s, vals) && (r.Columns? ==> r.vals == done + vals)
    decreases |fields| - |done|
  {
    hide *;
    vals := [];
    if |done| == |fields| {
      NoneLeft(s, at, fields, done);
      assert fields[|done|..] == [] && done + [] == done;
    } else {
      var cs, rest := Tokens(s, at), fields[|done|..];
      DropOne(fields, |done|);
      var at', v, more := RestTurn(s, at, fields, done);
      if more {
        var others := ColumnsOutcome(s, at', fields, done + [v]);
        VerdictRest(cs, rest, ParseColumns(s, at, fields, done), s, v, others);
        vals := [v] + others;
        assert done + [v] + others == done + vals;
      } else {
        vals := if ValueFine(cs, rest, 0) && |rest| == 1 then [v] else [];
      }
    }
  }

  /** The loop ends with this column. */
  lemma StopVerdict(cs: seq<seq<Byte>>, fields: seq<Field>, r: Columns, s: seq<Byte>, at': At, v: Value)
    requires fields != [] && at'.pos <= |s|
    requires if cs == [] then r == Refused(PrepareSyntaxError)
             else if !ValueFine(cs, fields, 0) then r == Refused(PrepareStringTooLong)
             else if |fields| == 1 then Gives(fields[0], cs[0], v) && Tokens(s, at') == cs[1..] && r.Columns? && r.at == at'
             else !CommaFine(cs, |fields|, 0) && r == Refused(PrepareSyntaxError)
    ensures ColumnsVerdict(cs, fields, r, s, if ValueFine(cs, fields, 0) && |fields| == 1 then [v] else [])
  {
    FirstVerdict(cs, fields);
    hide Gives, Tokens, ColumnsFine, SomeTooLong;
  }

  /** A fault in the first column, or behind it. */
  lemma FirstVerdict(cs: seq<seq<Byte>>, fields: seq<Field>)
    requires fields != []
    ensures !ValueFine(cs, fields, 0) ==> !ColumnsFine(cs, fields, |fields|)
    ensures !ValueFine(cs, fields, 0) ==> (SomeTooLong(cs, fields) <==> cs != [])
    ensures ValueFine(cs, fields, 0) && !CommaFine(cs, |fields|, 0) ==> !ColumnsFine(cs, fields, |fields|) && !SomeTooLong(cs, fields)
    ensures |fields| == 1 && ValueFine(cs, fields, 0) ==> ColumnsFine(cs, fields, 1)
  {
    if cs != [] && !ValueFine(cs, fields, 0) { assert TooLongAt(cs, fields, 0); }
    forall i: nat | TooLongAt(cs, fields, i)
      ensures i > 0 ==> ValueFine(cs, fields, 0) && CommaFine(cs, |fields|, 0)
      ensures i == 0 ==> !ValueFine(cs, fields, 0) && cs != []
    {
      assert i > 0 ==> ValueFine(cs, fields, 0) && CommaFine(cs, |fields|, 0);
    }
  }

  lemma VerdictRest(cs: seq<seq<Byte>>, fields: seq<Field>, r: Columns, s: seq<Byte>, v: Value, more: seq<Value>)
    requires |fields| > 1 && |cs| >= 2 && ValueFine(cs, fields, 0) && CommaFine(cs, |fields|, 0) && Gives(fields[0], cs[0], v)
    requires ColumnsVerdict(cs[2..], fields[1..], r, s, more)
    ensures ColumnsVerdict(cs, fields, r, s, [v] + more)
  {
    hide Gives, Tokens;
    FineRest(cs, fields, |fields|);
    forall i: nat | true ensures TooLongAt(cs, fields, i + 1) <==> TooLongAt(cs[2..], fields[1..], i) {
      if i + 1 < |fields| { FineRest(cs, fields, i + 1); }
    }
    if SomeTooLong(cs, fields) {
      var i: nat :| TooLongAt(cs, fields, i);
      assert i > 0;
      assert TooLongAt(cs[2..], fields[1..], i - 1);
    }
    if ColumnsFine(cs, fields, |fields|) {
      assert cs[2..][Used(|fields| - 1)..] == cs[Used(|fields|)..];
      var vals := [v] + more;
      forall j | 0 <= j < |fields| ensures 2 * j < |cs| && Gives(fields[j], cs[2 * j], vals[j]) {
        if j > 0 { assert vals[j] == more[j - 1]; }
      }
    }
  }

  // The whole line

  /** The first table of that name. */
  ghost predicate FirstNamed(tables: seq<TableDef>, name: seq<Byte>, index: nat) {
    index < |tables| && tables[index].name == name && forall i :: 0 <= i < index ==> tables[i].name != name
  }

  /** What comes of the tokens behind the table name. */
  ghost predicate ValuesVerdict(ts: seq<seq<Byte>>, fields: seq<Field>, index: nat, unset: Key, r: Prepared) {
    if |ts| < 2 || !Spells(ts[0], "values", "VALUES") || ts[1] != [40] then r.result == PrepareSyntaxError
    else ListVerdict(ts[2..], fields, index, unset, r)
  }

  ghost predicate ListVerdict(cs: seq<seq<Byte>>, fields: seq<Field>, index: nat, unset: Key, r: Prepared) {
    var used := Used(|fields|);
    if SomeTooLong(cs, fields) then r.result == PrepareStringTooLong
    else if ColumnsFine(cs, fields, |fields|) && used < |cs| && cs[used] == [41] then
      && r.result == PrepareSuccess && r.statement.table == index && AllGiven(fields, cs, r.statement.vals)
      && (if r.statement.vals == [] then r.statement.key == unset else IsKeyOf(r.statement.key, r.statement.vals[0]))
    else r.result == PrepareSyntaxError
  }

  lemma TooLongOrFine(cs: seq<seq<Byte>>, fields: seq<Field>)
    ensures !(SomeTooLong(cs, fields) && ColumnsFine(cs, fields, |fields|))
  {
    if i: nat :| TooLongAt(cs, fields, i) { assert !ValueFine(cs, fields, i); }
  }

  lemma ValuesOutcome(s: seq<Byte>, at: At, tables: seq<TableDef>, index: nat, unset: Key)
    requires at.pos <= |s| && index < |tables|
    ensures ValuesVerdict(Tokens(s, at), tables[index].schema.fields, index, unset, ParseValues(s, at, tables, index, unset))
  {
    var ts, fields := Tokens(s, at), tables[index].schema.fields;
    TakeTokens(s, at);
    var at1 := Take(s, at).1;
    TakeTokens(s, at1);
    var at2 := Take(s, at1).1;
    assert |ts| >= 2 ==> ts[1..][0] == ts[1] && Tokens(s, at2) == ts[1..][1..] == ts[2..];
    if |ts| >= 1 { Keywords(ts[0]); }
    if |ts| >= 2 { Marks(ts[1]); }
    hide Take, Tokens, SameWord, Bytes, Spells, ParseColumns, ListVerdict;
    ListOutcome(s, at2, fields, index, unset);
  }

  lemma ListOutcome(s: seq<Byte>, at: At, fields: seq<Field>, index: nat, unset: Key)
    requires at.pos <= |s|
    ensures ListVerdict(Tokens(s, at), fields, index, unset,
              match ParseColumns(s, at, fields, [])
              case Refused(why) => Prepared(why, NoStatement)
              case Columns(vals, at') =>
                if TakeWord(s, at', [RPAREN]).0 then Prepared(PrepareSuccess, InsertStatement(index, vals, KeyOf(vals, unset)))
                else Prepared(PrepareSyntaxError, NoStatement))
  {
    var cs := Tokens(s, at);
    var vals := ColumnsOutcome(s, at, fields, []);
    assert fields[0..] == fields && [] + vals == vals;
    TooLongOrFine(cs, fields);
    var r := ParseColumns(s, at, fields, []);
    if r.Columns? {
      TakeTokens(s, r.at);
      if Tokens(s, r.at) != [] { Marks(Tokens(s, r.at)[0]); }
      if vals != [] { KeyIs(vals[0]); }
    }
    hide Take, Tokens, SameWord, ParseColumns, ColumnsFine, SomeTooLong, AllGiven, IsKeyOf;
  }

  /** Every outcome of an INSERT, told by the tokens of the line: the first word that is not as it should be, the
      name of a table that is not there, a text that is too long, or a value list that is not as it should be;
      otherwise the values and the key are those of the tokens. */
  lemma InsertOutcome(s: seq<Byte>, tables: seq<TableDef>, unset: Key) returns (index: nat)
    ensures var ts := Tokens(s, At(0, 0)); var r := ParseInsert(s, tables, unset);
            if ts == [] || !Spells(ts[0], "insert", "INSERT") then r.result == PrepareUnrecognized
            else if |ts| < 3 || !Spells(ts[1], "into", "INTO") then r.result == PrepareSyntaxError
            else if Unnamed(tables, ts[2]) then r.result == PrepareNoTable
            else FirstNamed(tables, ts[2], index) && ValuesVerdict(ts[3..], tables[index].schema.fields, index, unset, r)
  {
    var ts, at0 := Tokens(s, At(0, 0)), At(0, 0);
    TakeTokens(s, at0);
    var at1 := Take(s, at0).1;
    TakeTokens(s, at1);
    var at2 := Take(s, at1).1;
    TakeTokens(s, at2);
    var at3 := Take(s, at2).1;
    assert |ts| >= 2 ==> ts[1..][0] == ts[1];
    assert |ts| >= 3 ==> ts[1..][1..][0] == ts[2] && Tokens(s, at3) == ts[1..][1..][1..] == ts[3..];
    if |ts| >= 1 { Keywords(ts[0]); }
    if |ts| >= 2 { Keywords(ts[1]); }
    index := 0;
    hide Take, Tokens, SameWord, Bytes, Spells, FindFrom, ParseValues, ValuesVerdict;
    if |ts| >= 3 {
      FindFirst(tables, ts[2], 0);
      var found := FindFrom(tables, ts[2], 0);
      if found.Some? {
        index := found.value;
        ValuesOutcome(s, at3, tables, index, unset);
      }
    }
  }
}
