/** Row packing (src/schema.c): the fields of a row in a byte buffer, and the hash of text keys. */
module Rows {
  import opened Layout

  const MAX_FIELDS: nat := 16
  const FIELD_NAME_MAX: nat := 32
  const INT_SIZE: nat := 4
  const TEXT_SIZE: nat := 32

  datatype FieldType = FieldInt | FieldText

  datatype Field = Field(name: seq<Byte>, kind: FieldType, size: nat, offset: nat)

  datatype Schema = Schema(fields: seq<Field>, rowSize: nat)

  /** A column value of a statement: a uint32_t or a C string. */
  datatype Value = Num(n: Key) | Text(s: seq<Byte>)

  function SizeOf(kind: FieldType): nat {
    if kind == FieldInt then INT_SIZE else TEXT_SIZE
  }

  /** The schemas CREATE builds: sizes by type, every offset the sum of the sizes before it. */
  ghost predicate Packed(fields: seq<Field>, rowSize: nat) {
    if fields == [] then rowSize == 0
    else
      var f := fields[|fields| - 1];
      && f.size == SizeOf(f.kind) && f.offset + f.size == rowSize
      && Packed(fields[..|fields| - 1], f.offset)
  }

  ghost predicate Sized(fields: seq<Field>) {
    forall i :: 0 <= i < |fields| ==> fields[i].size == SizeOf(fields[i].kind)
  }

  ghost predicate ValidSchema(s: Schema) {
    Packed(s.fields, s.rowSize) && Sized(s.fields) && |s.fields| <= MAX_FIELDS
  }

  predicate CString(s: seq<Byte>) {
    forall i :: 0 <= i < |s| ==> s[i] != 0
  }

  predicate Fits(f: Field, v: Value) {
    if f.kind == FieldInt then v.Num? else v.Text? && CString(v.s)
  }

  ghost predicate Typed(fields: seq<Field>, vals: seq<Value>) {
    |vals| == |fields| && forall i :: 0 <= i < |fields| ==> Fits(fields[i], vals[i])
  }

  function Min(a: nat, b: nat): nat { if a < b then a else b }

  function LittleEndian(n: Key): seq<Byte> {
    [n % 256, n / 256 % 256, n / 65536 % 256, n / 16777216]
  }

  function FromLittleEndian(b: seq<Byte>): Key
    requires |b| == INT_SIZE
  {
    var b0: int, b1: int, b2: int, b3: int := b[0], b[1], b[2], b[3];
    b0 + 256 * b1 + 65536 * b2 + 16777216 * b3
  }

  lemma LittleEndianRoundTrip(n: Key)
    ensures FromLittleEndian(LittleEndian(n)) == n
  {
    assert n / 65536 == n / 256 / 256 && n / 16777216 == n / 65536 / 256;
  }

  /** The bytes of one field: four little-endian bytes, or the text cut to 31 bytes and padded
      with zero bytes. */
  function FieldBytes(f: Field, v: Value): (b: seq<Byte>)
    requires Fits(f, v) && f.size == SizeOf(f.kind)
    ensures |b| == f.size
  {
    if f.kind == FieldInt then LittleEndian(v.n)
    else
      var len := Min(|v.s|, TEXT_SIZE - 1);
      v.s[..len] + seq(TEXT_SIZE - len, _ => 0)
  }

  /** A number's bytes are its digits to the base 256, the lowest first; a text's are the text and zero bytes. */
  lemma FieldBytesAre(f: Field, v: Value)
    requires Fits(f, v) && f.size == SizeOf(f.kind)
    ensures v.Num? ==> |FieldBytes(f, v)| == 4
    ensures v.Num? ==> FieldBytes(f, v)[0] as int + 256 * FieldBytes(f, v)[1] as int
                       + 65536 * FieldBytes(f, v)[2] as int + 16777216 * FieldBytes(f, v)[3] as int == v.n
    ensures v.Text? ==> |FieldBytes(f, v)| == 32
    ensures v.Text? ==> forall k :: 0 <= k < 32 ==> FieldBytes(f, v)[k] == if k < |v.s| && k < 31 then v.s[k] else 0
  {
    if v.Num? { LittleEndianRoundTrip(v.n); }
  }

  /** The string a C program reads from a buffer: everything before the first zero byte. */
  function ReadString(b: seq<Byte>): seq<Byte> {
    if b == [] || b[0] == 0 then [] else [b[0]] + ReadString(b[1..])
  }

  lemma {:induction false} ReadPadded(s: seq<Byte>, pad: seq<Byte>)
    requires CString(s) && |pad| > 0 && pad[0] == 0
    ensures ReadString(s + pad) == s
  {
    if s == [] {
      assert s + pad == pad;
    } else {
      assert CString(s[1..]) by {
        forall i | 0 <= i < |s[1..]| ensures s[1..][i] != 0 { assert s[1..][i] == s[i + 1]; }
      }
      ReadPadded(s[1..], pad);
      assert (s + pad)[1..] == s[1..] + pad;
    }
  }

  /** Decoding a field of a row. */
  function FieldValue(f: Field, row: seq<Byte>): Value
    requires f.size == SizeOf(f.kind) && f.offset + f.size <= |row|
  {
    var b := row[f.offset..f.offset + f.size];
    if f.kind == FieldInt then Num(FromLittleEndian(b)) else Text(ReadString(b))
  }

  /** What survives the trip through a field: numbers and short texts whole, long texts cut. */
  function Stored(v: Value): Value {
    if v.Num? then v else Text(v.s[..Min(|v.s|, TEXT_SIZE - 1)])
  }

  lemma FieldRoundTrip(f: Field, v: Value, before: seq<Byte>, after: seq<Byte>)
    requires Fits(f, v) && f.size == SizeOf(f.kind) && f.offset == |before|
    ensures FieldValue(f, before + FieldBytes(f, v) + after) == Stored(v)
    ensures Stored(v) == if v.Text? && |v.s| > 31 then Text(v.s[..31]) else v
  {
    var row := before + FieldBytes(f, v) + after;
    assert row[f.offset..f.offset + f.size] == FieldBytes(f, v);
    if f.kind == FieldInt {
      LittleEndianRoundTrip(v.n);
    } else {
      var len := Min(|v.s|, TEXT_SIZE - 1);
      ReadPadded(v.s[..len], seq(TEXT_SIZE - len, _ => 0));
    }
  }

  /** serialize_field: exactly the field's bytes of the buffer change. */
  method SerializeField(f: Field, v: Value, dest: array<Byte>)
    requires Fits(f, v) && f.size == SizeOf(f.kind) && f.offset + f.size <= dest.Length
    modifies dest
    ensures dest[..] == old(dest[..f.offset]) + FieldBytes(f, v) + old(dest[f.offset + f.size..])
  {
    ghost var was := dest[..];
    var src: seq<Byte>;
    if f.kind == FieldText {
      forall i | 0 <= i < f.size { dest[f.offset + i] := 0; }
      src := v.s[..Min(|v.s|, f.size - 1)];
    } else {
      src := LittleEndian(v.n);
    }
    ghost var mid := dest[..];
    assert |src| <= f.size && forall k :: 0 <= k < |src| ==> src[k] == FieldBytes(f, v)[k];
    var i := 0;
    while i < |src|
      invariant i <= |src|
      invariant forall k :: 0 <= k < dest.Length ==>
                  dest[k] == if f.offset <= k < f.offset + i then src[k - f.offset] else mid[k]
      modifies dest
    {
      dest[f.offset + i] := src[i];
      i := i + 1;
    }
    ghost var want := was[..f.offset] + FieldBytes(f, v) + was[f.offset + f.size..];
    forall k | 0 <= k < dest.Length ensures dest[k] == want[k] {}
    assert dest[..] == want;
  }

  /** deserialize_field copies the field's bytes out of the row. */
  method DeserializeField(f: Field, src: seq<Byte>) returns (v: Value)
    requires f.size == SizeOf(f.kind) && f.offset + f.size <= |src|
    ensures v == FieldValue(f, src)
  {
    var dest := src[f.offset..f.offset + f.size];
    if f.kind == FieldInt { v := Num(FromLittleEndian(dest)); } else { v := Text(ReadString(dest)); }
  }

  lemma {:induction false} PackedPrefix(fields: seq<Field>, rowSize: nat, k: nat)
    requires Packed(fields, rowSize) && k <= |fields|
    ensures Packed(fields[..k], if k < |fields| then fields[k].offset else rowSize)
    ensures Sized(fields) && forall i :: 0 <= i < |fields| ==> fields[i].offset + fields[i].size <= rowSize
    ensures forall i :: 0 <= i < |fields| - 1 ==> fields[i].offset + fields[i].size == fields[i + 1].offset
    ensures |fields| > 0 ==> fields[0].offset == 0
    decreases |fields|
  {
    if fields == [] {
    } else {
      var n := |fields| - 1;
      var rest := fields[..n];
      PackedPrefix(rest, fields[n].offset, if k <= n then k else n);
      if k <= n { assert rest[..k] == fields[..k]; } else { assert fields[..k] == fields; }
      if n > 0 { assert Packed(rest, fields[n].offset); }
    }
  }

  /** The bytes of a whole row. */
  function RowBytes(fields: seq<Field>, vals: seq<Value>): seq<Byte>
    requires Typed(fields, vals) && Sized(fields)
  {
    if fields == [] then []
    else RowBytes(fields[..|fields| - 1], vals[..|vals| - 1]) + FieldBytes(fields[|fields| - 1], vals[|vals| - 1])
  }

  lemma {:induction false} RowBytesLength(fields: seq<Field>, rowSize: nat, vals: seq<Value>)
    requires Packed(fields, rowSize) && Typed(fields, vals)
    requires Sized(fields)
    ensures |RowBytes(fields, vals)| == rowSize
  {
    if fields != [] {
      RowBytesLength(fields[..|fields| - 1], fields[|fields| - 1].offset, vals[..|vals| - 1]);
    }
  }

  /** Where field i starts; the end of the row for i beyond the last field. */
  function StartOf(s: Schema, i: nat): nat {
    if i < |s.fields| then s.fields[i].offset else s.rowSize
  }

  lemma RowBytesStep(s: Schema, vals: seq<Value>, i: nat)
    requires ValidSchema(s) && Typed(s.fields, vals) && i < |s.fields|
    ensures StartOf(s, 0) == 0 && s.fields[i].offset + s.fields[i].size == StartOf(s, i + 1) <= s.rowSize
    ensures RowBytes(s.fields[..i + 1], vals[..i + 1])
         == RowBytes(s.fields[..i], vals[..i]) + FieldBytes(s.fields[i], vals[i])
  {
    PackedPrefix(s.fields, s.rowSize, 0);
    hide Packed, FieldBytes;
    var fs, vs := s.fields[..i + 1], vals[..i + 1];
    assert fs[..|fs| - 1] == s.fields[..i] && vs[..|vs| - 1] == vals[..i];
  }

  lemma TakeTwo<T>(a: seq<T>, b: seq<T>, c: seq<T>)
    ensures (a + b + c)[..|a| + |b|] == a + b
  {
  }

  /** serialize_row: whatever the buffer held, it ends up as the row's bytes. */
  method SerializeRow(s: Schema, vals: seq<Value>, dest: array<Byte>)
    requires ValidSchema(s) && Typed(s.fields, vals) && dest.Length == s.rowSize
    modifies dest
    ensures dest[..] == RowBytes(s.fields, vals)
  {
    var i := 0;
    if |s.fields| > 0 { RowBytesStep(s, vals, 0); }
    assert s.fields[..0] == [] && vals[..0] == [];
    assert StartOf(s, 0) == 0 && RowBytes(s.fields[..0], vals[..0]) == [];
    hide Packed, RowBytes, FieldBytes;
    while i < |s.fields|
      invariant i <= |s.fields| && StartOf(s, i) <= dest.Length
      invariant dest[..StartOf(s, i)] == RowBytes(s.fields[..i], vals[..i])
      modifies dest
    {
      RowBytesStep(s, vals, i);
      hide Packed, RowBytes, FieldBytes;
      var f := s.fields[i];
      ghost var was := dest[..];
      SerializeField(f, vals[i], dest);
      TakeTwo(was[..f.offset], FieldBytes(f, vals[i]), was[f.offset + f.size..]);
      i := i + 1;
    }
    assert s.fields[..i] == s.fields && vals[..i] == vals;
  }

  lemma Regroup<T>(a: seq<T>, b: seq<T>, c: seq<T>, d: seq<T>)
    ensures a + b + c + d == a + b + (c + d)
  {
  }

  /** The bytes before, of and behind field i of a row. */
  lemma {:induction false} RowSplit(fields: seq<Field>, rowSize: nat, vals: seq<Value>, i: nat)
    returns (before: seq<Byte>, after: seq<Byte>)
    requires Packed(fields, rowSize) && Typed(fields, vals) && i < |fields|
    requires Sized(fields)
    ensures RowBytes(fields, vals) == before + FieldBytes(fields[i], vals[i]) + after
    ensures |before| == fields[i].offset
    decreases |fields|
  {
    var n := |fields| - 1;
    var head := RowBytes(fields[..n], vals[..n]);
    var last := FieldBytes(fields[n], vals[n]);
    assert RowBytes(fields, vals) == head + last && Packed(fields[..n], fields[n].offset);
    hide RowBytes, FieldBytes, Packed;
    if i == n {
      RowBytesLength(fields[..n], fields[n].offset, vals[..n]);
      before, after := head, [];
      assert head + last == head + last + [];
    } else {
      var rest;
      before, rest := RowSplit(fields[..n], fields[n].offset, vals[..n], i);
      after := rest + last;
      Regroup(before, FieldBytes(fields[i], vals[i]), rest, last);
    }
  }

  /** Packing a row and reading a field back gives the value: every number, and every text
      shorter than 32 bytes; longer texts come back cut to 31 bytes. */
  lemma RowRoundTrip(s: Schema, vals: seq<Value>, i: nat)
    requires ValidSchema(s) && Typed(s.fields, vals) && i < |s.fields|
    ensures forall j :: 0 <= j < |s.fields| ==>
              s.fields[j].size == SizeOf(s.fields[j].kind) && s.fields[j].offset + s.fields[j].size <= s.rowSize
    ensures |RowBytes(s.fields, vals)| == s.rowSize
    ensures FieldValue(s.fields[i], RowBytes(s.fields, vals)) == Stored(vals[i])
    ensures vals[i].Num? || |vals[i].s| < TEXT_SIZE ==> Stored(vals[i]) == vals[i]
  {
    PackedPrefix(s.fields, s.rowSize, 0);
    RowBytesLength(s.fields, s.rowSize, vals);
    var before, after := RowSplit(s.fields, s.rowSize, vals, i);
    FieldRoundTrip(s.fields[i], vals[i], before, after);
  }

  /** hash_string over the bytes of a C string; char is signed. */
  function SignedChar(b: Byte): int { if b < 128 then b else b - 256 }

  function HashFrom(hash: Key, s: seq<Byte>): Key
    decreases |s|
  {
    if s == [] then hash else HashFrom((hash * 33 + SignedChar(s[0])) % 0x1_0000_0000, s[1..])
  }

  function Hash(s: seq<Byte>): Key { HashFrom(5381, s) }

  /** The same polynomial without any wrap-around. */
  function Polynomial(h: int, s: seq<Byte>): int
    decreases |s|
  {
    if s == [] then h else Polynomial(h * 33 + SignedChar(s[0]), s[1..])
  }

  /** Wrapping at every step gives the value of the polynomial modulo 2^32. */
  lemma {:induction false} HashWraps(h: int, s: seq<Byte>)
    ensures HashFrom(h % 0x1_0000_0000, s) == Polynomial(h, s) % 0x1_0000_0000
    decreases |s|
  {
    if s != [] {
      var c := SignedChar(s[0]);
      var q, m := h / 0x1_0000_0000, h % 0x1_0000_0000;
      ModShift(m * 33 + c, 33 * q);
      assert h * 33 + c == m * 33 + c + 33 * q * 0x1_0000_0000;
      HashWraps(h * 33 + c, s[1..]);
    }
  }

  lemma ModShift(a: int, q: int)
    ensures (a + q * 0x1_0000_0000) % 0x1_0000_0000 == a % 0x1_0000_0000
  {
  }

  lemma ModAdd(a: int, b: int)
    ensures (a % 0x1_0000_0000 + b) % 0x1_0000_0000 == (a + b) % 0x1_0000_0000
  {
    var q := a / 0x1_0000_0000;
    assert a + b == a % 0x1_0000_0000 + b + q * 0x1_0000_0000;
  }

  ghost function Power33(n: nat): nat { if n == 0 then 1 else 33 * Power33(n - 1) }

  /** Every byte, read as a signed one, times the power of 33 that belongs to its place; the last has power 0. */
  ghost function Terms(s: seq<Byte>): int {
    if s == [] then 0 else ((s[0] + 128) % 256 - 128) * Power33(|s| - 1) + Terms(s[1..])
  }

  lemma {:induction false} PolynomialTerms(h: int, s: seq<Byte>)
    ensures Polynomial(h, s) == h * Power33(|s|) + Terms(s)
    decreases |s|
  {
    if s != [] {
      var c, p := SignedChar(s[0]), Power33(|s| - 1);
      PolynomialTerms(h * 33 + c, s[1..]);
      Distribute(h, c, p);
      assert Power33(|s|) == 33 * p && Terms(s) == c * p + Terms(s[1..]);
    }
  }

  lemma Distribute(h: int, c: int, p: int)
    ensures (h * 33 + c) * p == h * (33 * p) + c * p
  {
  }

  /** The hash in closed form. */
  lemma HashClosed(s: seq<Byte>)
    ensures Hash(s) == (5381 * Power33(|s|) + Terms(s)) % 0x1_0000_0000
  {
    HashWraps(5381, s);
    PolynomialTerms(5381, s);
  }

  /** The loop of hash_string: shift and add in 32-bit arithmetic. */
  method HashString(s: seq<Byte>) returns (hash: Key)
    ensures hash == Hash(s) && hash == (5381 * Power33(|s|) + Terms(s)) % 0x1_0000_0000
  {
    HashClosed(s);
    hash := 5381;
    var i := 0;
    while i < |s|
      invariant i <= |s| && HashFrom(hash, s[i..]) == Hash(s)
    {
      assert s[i..][1..] == s[i + 1..];
      ModAdd(hash * 32, hash + SignedChar(s[i]));
      hash := ((hash * 32) % 0x1_0000_0000 + hash + SignedChar(s[i])) % 0x1_0000_0000;
      i := i + 1;
    }
  }

  /** The key under which a row is stored: column 0, hashed when it is text. */
  function KeyOfValue(v: Value): Key {
    if v.Num? then v.n else Hash(v.s)
  }

  /** A number is its own key; the key of a text is its hash. */
  ghost predicate IsKeyOf(key: Key, v: Value) {
    match v
    case Num(n) => key == n
    case Text(s) => key == (5381 * Power33(|s|) + Terms(s)) % 0x1_0000_0000
  }

  lemma KeyIs(v: Value)
    ensures IsKeyOf(KeyOfValue(v), v)
  {
    if v.Text? { HashClosed(v.s); }
  }

  /** All fields lie within the first n bytes. */
  ghost predicate FieldsFit(fields: seq<Field>, n: nat) {
    forall i :: 0 <= i < |fields| ==> fields[i].size == SizeOf(fields[i].kind) && fields[i].offset + fields[i].size <= n
  }

  /** The stored key agrees with the row's own column 0. */
  ghost predicate KeyMatches(s: Schema, c: Cell) {
    && |c.row| == s.rowSize && FieldsFit(s.fields, s.rowSize)
    && (|s.fields| > 0 ==> c.key == KeyOfValue(FieldValue(s.fields[0], c.row)))
  }

  /** A row as the INSERT path builds it carries the key of its column 0. */
  lemma InsertKeyMatches(s: Schema, vals: seq<Value>, key: Key)
    requires ValidSchema(s) && Typed(s.fields, vals)
    requires forall i :: 0 <= i < |vals| && vals[i].Text? ==> |vals[i].s| < TEXT_SIZE
    requires |vals| > 0 ==> key == KeyOfValue(vals[0])
    ensures KeyMatches(s, Cell(key, RowBytes(s.fields, vals)))
    ensures |vals| > 0 ==> IsKeyOf(key, vals[0]) && FieldValue(s.fields[0], RowBytes(s.fields, vals)) == vals[0]
  {
    if |vals| > 0 { KeyIs(vals[0]); }
    PackedPrefix(s.fields, s.rowSize, 0);
    RowBytesLength(s.fields, s.rowSize, vals);
    if |s.fields| > 0 { RowRoundTrip(s, vals, 0); }
  }

  /** Later fields start behind earlier ones. */
  lemma {:induction false} FieldsDisjoint(s: Schema, i: nat, j: nat)
    requires ValidSchema(s) && i < j < |s.fields|
    ensures s.fields[i].offset + s.fields[i].size <= s.fields[j].offset
    ensures s.fields[j].offset + s.fields[j].size <= s.rowSize
    decreases j - i
  {
    PackedPrefix(s.fields, s.rowSize, 0);
    if i + 1 < j { FieldsDisjoint(s, i + 1, j); }
  }

  /** Writing field i leaves field j as it was. */
  lemma OtherFieldKept(s: Schema, row: seq<Byte>, row': seq<Byte>, i: nat, j: nat, bytes: seq<Byte>)
    requires ValidSchema(s) && i < |s.fields| && j < |s.fields| && i != j && |row| == s.rowSize
    requires |bytes| == s.fields[i].size && s.fields[i].offset + s.fields[i].size <= s.rowSize
    requires s.fields[j].offset + s.fields[j].size <= s.rowSize
    requires row' == row[..s.fields[i].offset] + bytes + row[s.fields[i].offset + s.fields[i].size..]
    ensures |row'| == |row| && FieldValue(s.fields[j], row') == FieldValue(s.fields[j], row)
  {
    if i < j { FieldsDisjoint(s, i, j); } else { FieldsDisjoint(s, j, i); }
    var a, b := s.fields[j].offset, s.fields[j].offset + s.fields[j].size;
    assert row'[a..b] == row[a..b];
  }

  /** What field j holds after the masked fields were written. */
  ghost function UpdatedValue(s: Schema, row: seq<Byte>, mask: seq<bool>, vals: seq<Value>, j: nat): Value
    requires ValidSchema(s) && j < |s.fields| == |mask| == |vals|
    requires s.fields[j].offset + s.fields[j].size <= |row|
  {
    if mask[j] then Stored(vals[j]) else FieldValue(s.fields[j], row)
  }

  /** Row after the masked ones among the first i columns were written over. */
  function UpdatedRow(s: Schema, row: seq<Byte>, mask: seq<bool>, vals: seq<Value>, i: nat): (r: seq<Byte>)
    requires i <= |s.fields| == |mask| == |vals| && |row| == s.rowSize
    requires forall j :: 0 <= j < |mask| ==>
               s.fields[j].offset + s.fields[j].size <= s.rowSize && s.fields[j].size == SizeOf(s.fields[j].kind)
    requires forall j :: 0 <= j < |mask| && mask[j] ==> Fits(s.fields[j], vals[j])
    ensures |r| == s.rowSize
  {
    if i == 0 then row
    else
      var r, f := UpdatedRow(s, row, mask, vals, i - 1), s.fields[i - 1];
      if mask[i - 1] then r[..f.offset] + FieldBytes(f, vals[i - 1]) + r[f.offset + f.size..] else r
  }

  /** The loop of execute_update over the columns of one row: masked fields take their new values,
      all others keep theirs, and the key follows column 0. */
  method UpdateRow(s: Schema, vals: seq<Value>, mask: seq<bool>, row: array<Byte>, key: Key) returns (newKey: Key)
    requires ValidSchema(s) && |vals| == |mask| == |s.fields| && row.Length == s.rowSize
    requires forall i :: 0 <= i < |mask| && mask[i] ==> Fits(s.fields[i], vals[i])
    modifies row
    ensures forall j :: 0 <= j < |s.fields| ==>
              s.fields[j].offset + s.fields[j].size <= s.rowSize && s.fields[j].size == SizeOf(s.fields[j].kind)
    ensures row[..] == UpdatedRow(s, old(row[..]), mask, vals, |mask|)
    ensures forall j :: 0 <= j < |s.fields| ==>
              FieldValue(s.fields[j], row[..]) == UpdatedValue(s, old(row[..]), mask, vals, j)
    ensures newKey == if |mask| > 0 && mask[0] then KeyOfValue(vals[0]) else key
    ensures if |mask| > 0 && mask[0] then IsKeyOf(newKey, vals[0]) else newKey == key
  {
    if |mask| > 0 { KeyIs(vals[0]); }
    ghost var was := row[..];
    PackedPrefix(s.fields, s.rowSize, 0);
    hide Packed, FieldBytes, FieldValue, Stored, IsKeyOf;
    newKey := key;
    var i := 0;
    while i < |s.fields|
      invariant i <= |s.fields|
      invariant row[..] == UpdatedRow(s, was, mask, vals, i)
      invariant newKey == if i > 0 && mask[0] then KeyOfValue(vals[0]) else key
      modifies row
    {
      if mask[i] {
        SerializeField(s.fields[i], vals[i], row);
        if i == 0 {
          if s.fields[0].kind == FieldInt { newKey := vals[0].n; }
          else { newKey := HashString(vals[0].s); }
        }
      }
      i := i + 1;
    }
    UpdatedRowValues(s, was, mask, vals, |mask|);
  }

  /** The fields of an updated row. */
  lemma {:induction false} UpdatedRowValues(s: Schema, row: seq<Byte>, mask: seq<bool>, vals: seq<Value>, i: nat)
    requires ValidSchema(s) && i <= |s.fields| == |mask| == |vals| && |row| == s.rowSize
    requires forall j :: 0 <= j < |mask| ==>
               s.fields[j].offset + s.fields[j].size <= s.rowSize && s.fields[j].size == SizeOf(s.fields[j].kind)
    requires forall j :: 0 <= j < |mask| && mask[j] ==> Fits(s.fields[j], vals[j])
    ensures forall j :: 0 <= j < |s.fields| ==>
              FieldValue(s.fields[j], UpdatedRow(s, row, mask, vals, i)) ==
                if j < i then UpdatedValue(s, row, mask, vals, j) else FieldValue(s.fields[j], row)
  {
    if i > 0 {
      var was, now := UpdatedRow(s, row, mask, vals, i - 1), UpdatedRow(s, row, mask, vals, i);
      assert mask[i - 1] ==> now == was[..s.fields[i - 1].offset] + FieldBytes(s.fields[i - 1], vals[i - 1])
                                    + was[s.fields[i - 1].offset + s.fields[i - 1].size..];
      assert !mask[i - 1] ==> now == was;
      hide Packed, FieldBytes, FieldValue, Stored, UpdatedRow;
      UpdatedRowValues(s, row, mask, vals, i - 1);
      if mask[i - 1] {
        UpdateStep(s, was, now, i - 1, vals[i - 1]);
      }
    }
  }

  lemma UpdateStep(s: Schema, row: seq<Byte>, row': seq<Byte>, i: nat, v: Value)
    requires ValidSchema(s) && i < |s.fields| && Fits(s.fields[i], v) && |row| == s.rowSize
    requires forall j :: 0 <= j < |s.fields| ==> s.fields[j].offset + s.fields[j].size <= s.rowSize
    requires row' == row[..s.fields[i].offset] + FieldBytes(s.fields[i], v) + row[s.fields[i].offset + s.fields[i].size..]
    ensures |row'| == |row|
    ensures forall j :: 0 <= j < |s.fields| ==>
              FieldValue(s.fields[j], row') == if j == i then Stored(v) else FieldValue(s.fields[j], row)
  {
    forall j | 0 <= j < |s.fields|
      ensures FieldValue(s.fields[j], row') == if j == i then Stored(v) else FieldValue(s.fields[j], row)
    {
      if j == i {
        FieldRoundTrip(s.fields[i], v, row[..s.fields[i].offset], row[s.fields[i].offset + s.fields[i].size..]);
      } else {
        OtherFieldKept(s, row, row', i, j, FieldBytes(s.fields[i], v));
      }
    }
  }

  /** An update keeps key and column 0 together. */
  lemma UpdateKeyMatches(s: Schema, c: Cell, row': Row, newKey: Key, mask: seq<bool>, vals: seq<Value>)
    requires ValidSchema(s) && |vals| == |mask| == |s.fields| && KeyMatches(s, c) && |row'| == s.rowSize
    requires forall i :: 0 <= i < |mask| && mask[i] ==> Fits(s.fields[i], vals[i])
    requires forall i :: 0 <= i < |mask| && mask[i] && vals[i].Text? ==> |vals[i].s| < TEXT_SIZE
    requires forall j :: 0 <= j < |s.fields| ==> FieldValue(s.fields[j], row') == UpdatedValue(s, c.row, mask, vals, j)
    requires newKey == if |mask| > 0 && mask[0] then KeyOfValue(vals[0]) else c.key
    ensures KeyMatches(s, Cell(newKey, row'))
    ensures |s.fields| > 0 ==> IsKeyOf(newKey, FieldValue(s.fields[0], row'))
  {
    if |s.fields| > 0 { KeyIs(FieldValue(s.fields[0], row')); }
    if |mask| > 0 && mask[0] && vals[0].Text? { assert vals[0].s[..|vals[0].s|] == vals[0].s; }
  }

  /** One more column, as CREATE adds it. */
  function AddField(s: Schema, name: seq<Byte>, kind: FieldType): Schema {
    Schema(s.fields + [Field(name, kind, SizeOf(kind), s.rowSize)], s.rowSize + SizeOf(kind))
  }

  lemma AddFieldValid(s: Schema, name: seq<Byte>, kind: FieldType)
    requires ValidSchema(s) && |s.fields| < MAX_FIELDS
    ensures ValidSchema(AddField(s, name, kind))
  {
    var fs := AddField(s, name, kind).fields;
    assert fs[..|fs| - 1] == s.fields;
  }

  lemma {:induction false} RowSizeBound(fields: seq<Field>, rowSize: nat)
    requires Packed(fields, rowSize)
    ensures rowSize <= TEXT_SIZE * |fields|
  {
    if fields != [] { RowSizeBound(fields[..|fields| - 1], fields[|fields| - 1].offset); }
  }

  /** For every schema CREATE can build, a leaf split leaves at least four cells in each half, and
      each half fits a page. */
  lemma HalvesFit(s: Schema)
    requires ValidSchema(s)
    ensures var cap := LeafNodeMaxCells(s.rowSize); var cell := LeafNodeCellSize(s.rowSize);
            && cap >= 7 && (cap + 1) / 2 >= 4 && cap + 1 - (cap + 1) / 2 >= 4
            && LEAF_NODE_HEADER_SIZE + ((cap + 1) / 2) * cell <= PAGE_SIZE
            && LEAF_NODE_HEADER_SIZE + (cap + 1 - (cap + 1) / 2) * cell <= PAGE_SIZE
  {
    RowSizeBound(s.fields, s.rowSize);
    var cell := LeafNodeCellSize(s.rowSize);
    var cap := LeafNodeMaxCells(s.rowSize);
    assert cell <= 516;
    CapAtLeast(cell);
    CapFits(cell, cap, (cap + 1) / 2);
    CapFits(cell, cap, cap + 1 - (cap + 1) / 2);
  }

  lemma CapAtLeast(cell: nat)
    requires 0 < cell <= 516
    ensures (PAGE_SIZE - LEAF_NODE_HEADER_SIZE) / cell >= 7
  {
    var q := (PAGE_SIZE - LEAF_NODE_HEADER_SIZE) / cell;
    assert (q + 1) * cell > PAGE_SIZE - LEAF_NODE_HEADER_SIZE;
    if q < 7 { TimesAtMost(q + 1, 7, cell); }
  }

  lemma TimesAtMost(a: nat, b: nat, m: nat)
    requires a <= b
    ensures a * m <= b * m
  {
  }

  lemma CapFits(cell: nat, cap: nat, k: nat)
    requires cell > 0 && cap == (PAGE_SIZE - LEAF_NODE_HEADER_SIZE) / cell && k <= cap
    ensures LEAF_NODE_HEADER_SIZE + k * cell <= PAGE_SIZE
  {
    TimesAtMost(k, cap, cell);
  }

  /** The buffer of a leaf split is one page long and receives max_cells + 1 cells: they fit
      exactly when the space a full leaf leaves unused is short of a cell by at most the header. */
  lemma SplitBufferFits(rowSize: nat)
    ensures var cell := LeafNodeCellSize(rowSize); var cap := LeafNodeMaxCells(rowSize);
            (cap + 1) * cell <= PAGE_SIZE <==>
            cell - (PAGE_SIZE - LEAF_NODE_HEADER_SIZE) % cell <= LEAF_NODE_HEADER_SIZE
    ensures var cap := LeafNodeMaxCells(rowSize); 14 + cap * (rowSize + 4) <= 4096 < 14 + (cap + 1) * (rowSize + 4)
  {
    var cell := LeafNodeCellSize(rowSize);
    var cap := LeafNodeMaxCells(rowSize);
    var space := PAGE_SIZE - LEAF_NODE_HEADER_SIZE;
    assert space == cap * cell + space % cell;
    assert (cap + 1) * cell == cap * cell + cell;
  }

  /** It is large enough for a table of one number, too small for a number and a text. */
  lemma SplitBufferExamples()
    ensures (LeafNodeMaxCells(4) + 1) * LeafNodeCellSize(4) == 4088
    ensures (LeafNodeMaxCells(36) + 1) * LeafNodeCellSize(36) == 4120 > PAGE_SIZE
  {
  }
}
