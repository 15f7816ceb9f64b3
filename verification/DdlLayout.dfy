/** The wire form of the statements as one flat list of fields: numbers of 4 and 8 bytes, least significant
    byte first, and strings behind their length (dbcon/ddlpackage/serialize.cpp, dbcon/ddlpackage/ddlpkg.h,
    utils/messageqcpp/bytestream.cpp). */
module DdlLayout {
  import opened MachineInts
  import opened Options
  import opened DdlCodec
  import opened DdlTables
  import opened DdlActions
  import opened DdlStatements

  datatype Field = Quad(n: UInt32) | Oct(o: UInt64) | Str(t: Text)

  function QuadBytes(n: int): (s: Bytes)
    requires 0 <= n < 0x1_0000_0000
  {
    [n % 256, n / 256 % 256, n / 65536 % 256, n / 16777216]
  }

  function Written(fields: seq<Field>): (s: Bytes) {
    if fields == [] then []
    else
      (match fields[0]
       case Quad(n) => QuadBytes(n)
       case Oct(o) => QuadBytes(o % 0x1_0000_0000) + QuadBytes(o / 0x1_0000_0000)
       case Str(t) => QuadBytes(|t|) + t)
      + Written(fields[1..])
  }

  function Flat<T>(f: T -> seq<Field>, v: seq<T>): (r: seq<Field>) {
    if v == [] then [] else f(v[0]) + Flat(f, v[1..])
  }

  // ---------- the fields of every record, in order ----------

  function Bit(b: bool): (n: UInt32) {
    if b then 1 else 0
  }

  function NameFields(q: QualifiedName): (r: seq<Field>) {
    [Str(q.catalog), Str(q.schema), Str(q.name)]
  }

  function TypeFields(t: ColumnType): (r: seq<Field>) {
    [Quad(t.ddlType % 0x1_0000_0000), Quad(t.length % 0x1_0000_0000), Quad(t.precision % 0x1_0000_0000),
     Quad(t.scale % 0x1_0000_0000), Quad(Bit(t.withTimezone)), Quad(t.compressionType % 0x1_0000_0000),
     Str(t.autoincrement), Oct(t.nextValue)]
  }

  function ConstraintFields(c: ColumnConstraint): (r: seq<Field>) {
    [Str(c.name), Quad(Bit(c.deferrable)), Quad(c.checkTime), Quad(c.constraintType), Str(c.check)]
  }

  function DefaultFields(d: Option<DefaultValue>): (r: seq<Field>) {
    match d
    case None => [Quad(31)]
    case Some(v) => [Quad(20), Quad(Bit(v.isNull)), Str(v.value)]
  }

  function ColumnFields(c: ColumnDef): (r: seq<Field>) {
    [Str(c.name)] + TypeFields(c.colType) + [Quad(|c.constraints|)] + Flat(ConstraintFields, c.constraints)
    + DefaultFields(c.default)
  }

  function TextFields(v: Vec<Text>): (r: seq<Field>) {
    [Quad(|v|)] + Flat((t: Text) => [Str(t)], v)
  }

  function RefFields(a: Option<ReferentialAction>): (r: seq<Field>) {
    match a
    case None => [Quad(31)]
    case Some(v) => [Quad(23), Quad(v.onUpdate), Quad(v.onDelete)]
  }

  function TableConstraintFields(c: TableConstraint): (r: seq<Field>) {
    match c
    case Unique(name, columns) => [Quad(21), Str(name)] + TextFields(columns)
    case PrimaryKey(name, columns) => [Quad(22), Str(name)] + TextFields(columns)
    case References(name, columns, table, foreignColumns, matchType, action) =>
      [Quad(24), Str(name)] + TextFields(columns) + NameFields(table) + TextFields(foreignColumns)
      + [Quad(matchType)] + RefFields(action)
    case Check(name, check) => [Quad(25), Str(name), Str(check)]
  }

  function PairFields(p: (Text, Text)): (r: seq<Field>) {
    [Str(p.0), Str(p.1)]
  }

  function TableFields(t: TableDef): (r: seq<Field>) {
    NameFields(t.name) + [Quad(|t.columns|)] + Flat(ColumnFields, t.columns)
    + [Quad(|t.constraints|)] + Flat(TableConstraintFields, t.constraints)
    + [Quad(|t.options|)] + Flat(PairFields, t.options)
  }

  function TrailerFields(t: Trailer): (r: seq<Field>) {
    [Quad(t.sessionId), Str(t.sql), Str(t.owner), Quad(t.withAutoincrement)]
  }

  function ActionFields(a: Action): (r: seq<Field>) {
    match a
    case AddColumn(c) => [Quad(8)] + ColumnFields(c)
    case AddColumns(cs) => [Quad(9)] + [Quad(|cs|)] + Flat(ColumnFields, cs)
    case DropColumn(name, behavior) => [Quad(10), Str(name), Quad(behavior)]
    case AddTableConstraint(c) => [Quad(11)] + TableConstraintFields(c)
    case SetColumnDefault(name, v) => [Quad(12), Str(name), Quad(Bit(v.isNull)), Str(v.value)]
    case DropColumnDefault(name) => [Quad(13), Str(name)]
    case DropTableConstraint(name, behavior) => [Quad(14), Str(name), Quad(behavior)]
    case RenameTable(table) => [Quad(15)] + NameFields(table)
    case RenameColumn(name, newName, newType, constraints, default) =>
      [Quad(16), Str(name), Str(newName)] + TypeFields(newType)
      + [Quad(|constraints|)] + Flat(ConstraintFields, constraints) + DefaultFields(default)
    case ModifyColumnType(colType, name) => [Quad(17)] + TypeFields(colType) + [Str(name)]
    case TableComment(comment) => [Quad(18), Str(comment)]
    case DropColumns(names) => [Quad(30)] + TextFields(names)
    case AddNothing(code) => [Quad(11), Quad(code)]
  }

  function CreateFields(c: CreateTable): (r: seq<Field>) {
    [Quad(5)] + TableFields(c.table) + TrailerFields(c.trailer)
  }

  function AlterFields(a: AlterTable): (r: seq<Field>) {
    [Quad(7)] + NameFields(a.table) + [Oct(a.timeZone % 0x1_0000_0000_0000_0000), Quad(|a.actions|)]
    + Flat(ActionFields, a.actions) + TrailerFields(a.trailer)
  }

  // ---------- what is written is these fields ----------

  lemma {:induction false} WrittenAppend(a: seq<Field>, b: seq<Field>)
    ensures Written(a + b) == Written(a) + Written(b)
  {
    if a == [] {
      assert a + b == b;
    } else {
      assert (a + b)[1..] == a[1..] + b;
      WrittenAppend(a[1..], b);
    }
  }

  lemma WrittenQuad(n: UInt32)
    ensures Written([Quad(n)]) == PutQuad(n)
  {
    assert [Quad(n)][1..] == [];
  }

  lemma WrittenOct(o: UInt64)
    ensures Written([Oct(o)]) == PutOct(o)
  {
    assert [Oct(o)][1..] == [];
  }

  lemma WrittenStr(t: Text)
    ensures Written([Str(t)]) == PutText(t)
  {
    assert [Str(t)][1..] == [];
  }

  lemma {:induction false} AllWritten<T>(put: T -> Bytes, f: T -> seq<Field>, v: seq<T>)
    requires forall x :: x in v ==> put(x) == Written(f(x))
    ensures PutAll(put, v) == Written(Flat(f, v))
  {
    if v != [] {
      AllWritten(put, f, v[1..]);
      WrittenAppend(f(v[0]), Flat(f, v[1..]));
    }
  }

  lemma VecWritten<T>(put: T -> Bytes, f: T -> seq<Field>, v: Vec<T>)
    requires forall x :: x in v ==> put(x) == Written(f(x))
    ensures PutVec(put, v) == Written([Quad(|v|)] + Flat(f, v))
  {
    AllWritten(put, f, v);
    WrittenAppend([Quad(|v|)], Flat(f, v));
    WrittenQuad(|v|);
  }

  // A field, or fields, and what follows.
  lemma QuadOn(n: UInt32, rest: seq<Field>)
    ensures Written([Quad(n)] + rest) == PutQuad(n) + Written(rest)
  {
    WrittenAppend([Quad(n)], rest);
    WrittenQuad(n);
  }

  lemma OctOn(o: UInt64, rest: seq<Field>)
    ensures Written([Oct(o)] + rest) == PutOct(o) + Written(rest)
  {
    WrittenAppend([Oct(o)], rest);
    WrittenOct(o);
  }

  lemma StrOn(t: Text, rest: seq<Field>)
    ensures Written([Str(t)] + rest) == PutText(t) + Written(rest)
  {
    WrittenAppend([Str(t)], rest);
    WrittenStr(t);
  }

  lemma NameWritten(q: QualifiedName)
    ensures PutName(q) == Written(NameFields(q))
  {
    var c := [Str(q.name)];
    var b := [Str(q.schema)] + c;
    assert NameFields(q) == [Str(q.catalog)] + b;
    StrOn(q.catalog, b);
    StrOn(q.schema, c);
    WrittenStr(q.name);
  }

  lemma Unsigned32(x: SInt32)
    ensures AsQuad(x) == x % 0x1_0000_0000
  {
  }

  lemma TypeWritten(t: ColumnType)
    ensures PutColumnType(t) == Written(TypeFields(t))
  {
    var w, tail := WordsOf(t), [Str(t.autoincrement), Oct(t.nextValue)];
    Unsigned32(t.ddlType);
    Unsigned32(t.precision);
    Unsigned32(t.scale);
    Unsigned32(t.compressionType);
    WordsWritten(w);
    WrittenAppend(WordFields(w), tail);
    assert tail == [Str(t.autoincrement)] + [Oct(t.nextValue)];
    StrOn(t.autoincrement, [Oct(t.nextValue)]);
    WrittenOct(t.nextValue);
    assert TypeFields(t) == WordFields(w) + tail;
  }

  function WordFields(w: TypeWords): (r: seq<Field>) {
    [Quad(w.ddlType), Quad(w.length), Quad(w.precision), Quad(w.scale), Quad(w.withTimezone), Quad(w.compressionType)]
  }

  lemma WordsWritten(w: TypeWords)
    ensures PutWords(w) == Written(WordFields(w))
  {
    var r5 := [Quad(w.compressionType)];
    var r4 := [Quad(w.withTimezone)] + r5;
    var r3 := [Quad(w.scale)] + r4;
    var r2 := [Quad(w.precision)] + r3;
    var r1 := [Quad(w.length)] + r2;
    WrittenQuad(w.compressionType);
    QuadOn(w.withTimezone, r5);
    QuadOn(w.scale, r4);
    QuadOn(w.precision, r3);
    QuadOn(w.length, r2);
    QuadOn(w.ddlType, r1);
    assert WordFields(w) == [Quad(w.ddlType)] + r1;
  }

  lemma ConstraintWritten(c: ColumnConstraint)
    ensures PutColumnConstraint(c) == Written(ConstraintFields(c))
  {
    var r4 := [Str(c.check)];
    var r3 := [Quad(c.constraintType)] + r4;
    var r2 := [Quad(c.checkTime)] + r3;
    var r1 := [Quad(Bit(c.deferrable))] + r2;
    WrittenStr(c.check);
    QuadOn(c.constraintType, r4);
    QuadOn(c.checkTime, r3);
    QuadOn(Bit(c.deferrable), r2);
    StrOn(c.name, r1);
    assert ConstraintFields(c) == [Str(c.name)] + r1;
  }

  lemma ConstraintsWritten(v: Vec<ColumnConstraint>)
    ensures PutColumnConstraints(v) == Written([Quad(|v|)] + Flat(ConstraintFields, v))
  {
    forall c | c in v
      ensures PutColumnConstraint(c) == Written(ConstraintFields(c))
    {
      ConstraintWritten(c);
    }
    VecWritten(PutColumnConstraint, ConstraintFields, v);
  }

  lemma ValueWritten(v: DefaultValue)
    ensures PutDefaultValue(v) == Written([Quad(Bit(v.isNull)), Str(v.value)])
  {
    QuadOn(Bit(v.isNull), [Str(v.value)]);
    WrittenStr(v.value);
    assert [Quad(Bit(v.isNull))] + [Str(v.value)] == [Quad(Bit(v.isNull)), Str(v.value)];
  }

  lemma DefaultWritten(d: Option<DefaultValue>)
    ensures PutDefault(d) == Written(DefaultFields(d))
  {
    match d
    case None => WrittenQuad(31);
    case Some(v) =>
      var rest := [Quad(Bit(v.isNull)), Str(v.value)];
      ValueWritten(v);
      QuadOn(20, rest);
      assert DefaultFields(d) == [Quad(20)] + rest;
  }

  // Type, constraints and default.
  lemma KindWritten(t: ColumnType, constraints: Vec<ColumnConstraint>, d: Option<DefaultValue>)
    ensures Written(TypeFields(t) + [Quad(|constraints|)] + Flat(ConstraintFields, constraints) + DefaultFields(d))
         == PutColumnType(t) + (PutColumnConstraints(constraints) + PutDefault(d))
  {
    TypeWritten(t);
    ConstraintsWritten(constraints);
    DefaultWritten(d);
    Three(TypeFields(t), [Quad(|constraints|)], Flat(ConstraintFields, constraints), DefaultFields(d));
  }

  // Three parts, of which the middle one is a count and what is counted.
  lemma Three(a: seq<Field>, n: seq<Field>, v: seq<Field>, d: seq<Field>)
    ensures Written(a + n + v + d) == Written(a) + (Written(n + v) + Written(d))
  {
    assert a + n + v + d == a + ((n + v) + d);
    WrittenAppend(a, (n + v) + d);
    WrittenAppend(n + v, d);
  }

  lemma ColumnWritten(c: ColumnDef)
    ensures PutColumnDef(c) == Written(ColumnFields(c))
  {
    var t, n, v, d := TypeFields(c.colType), [Quad(|c.constraints|)], Flat(ConstraintFields, c.constraints),
                      DefaultFields(c.default);
    KindWritten(c.colType, c.constraints, c.default);
    StrOn(c.name, t + n + v + d);
    Behind([Str(c.name)], t, n, v, d);
  }

  lemma Behind(x: seq<Field>, t: seq<Field>, n: seq<Field>, v: seq<Field>, d: seq<Field>)
    ensures x + t + n + v + d == x + (t + n + v + d)
  {
  }

  lemma ColumnsWritten(v: Vec<ColumnDef>)
    ensures PutColumnDefs(v) == Written([Quad(|v|)] + Flat(ColumnFields, v))
  {
    forall c | c in v
      ensures PutColumnDef(c) == Written(ColumnFields(c))
    {
      ColumnWritten(c);
    }
    VecWritten(PutColumnDef, ColumnFields, v);
  }

  lemma TextsWritten(v: Vec<Text>)
    ensures PutNames(v) == Written(TextFields(v))
  {
    forall t | t in v
      ensures PutText(t) == Written([Str(t)])
    {
      WrittenStr(t);
    }
    VecWritten(PutText, (t: Text) => [Str(t)], v);
  }

  lemma KeyWritten(name: Text, columns: Vec<Text>)
    ensures PutKey(name, columns) == Written([Str(name)] + TextFields(columns))
  {
    StrOn(name, TextFields(columns));
    TextsWritten(columns);
  }

  lemma UniqueWritten(code: UInt32, name: Text, columns: Vec<Text>)
    ensures Written([Quad(code), Str(name)] + TextFields(columns)) == PutQuad(code) + PutKey(name, columns)
  {
    KeyWritten(name, columns);
    QuadOn(code, [Str(name)] + TextFields(columns));
    assert [Quad(code), Str(name)] + TextFields(columns) == [Quad(code)] + ([Str(name)] + TextFields(columns));
  }

  lemma RefWritten(a: Option<ReferentialAction>)
    ensures PutRefAction(a) == Written(RefFields(a))
  {
    match a
    case None => WrittenQuad(31);
    case Some(v) =>
      QuadOn(23, [Quad(v.onUpdate)] + [Quad(v.onDelete)]);
      QuadOn(v.onUpdate, [Quad(v.onDelete)]);
      WrittenQuad(v.onDelete);
      assert RefFields(a) == [Quad(23)] + ([Quad(v.onUpdate)] + [Quad(v.onDelete)]);
  }

  lemma ForeignWritten(f: Foreign)
    ensures PutForeign(f)
         == Written(NameFields(f.table) + TextFields(f.columns) + [Quad(f.matchType)] + RefFields(f.action))
  {
    NameWritten(f.table);
    TextsWritten(f.columns);
    RefWritten(f.action);
    QuadOn(f.matchType, RefFields(f.action));
    Four(NameFields(f.table), TextFields(f.columns), [Quad(f.matchType)], RefFields(f.action));
  }

  lemma Four(a: seq<Field>, b: seq<Field>, c: seq<Field>, d: seq<Field>)
    ensures Written(a + b + c + d) == Written(a) + (Written(b) + Written(c + d))
  {
    assert a + b + c + d == a + (b + (c + d));
    WrittenAppend(a, b + (c + d));
    WrittenAppend(b, c + d);
  }

  lemma ReferencesWritten(name: Text, columns: Vec<Text>, f: Foreign)
    ensures PutQuad(24) + PutReferences(name, columns, f)
         == Written([Quad(24), Str(name)] + TextFields(columns) + NameFields(f.table) + TextFields(f.columns)
                    + [Quad(f.matchType)] + RefFields(f.action))
  {
    var k, g := [Quad(24), Str(name)] + TextFields(columns),
                NameFields(f.table) + TextFields(f.columns) + [Quad(f.matchType)] + RefFields(f.action);
    UniqueWritten(24, name, columns);
    ForeignWritten(f);
    WrittenAppend(k, g);
    Behind(k, NameFields(f.table), TextFields(f.columns), [Quad(f.matchType)], RefFields(f.action));
    Cat(PutQuad(24), PutKey(name, columns), PutForeign(f));
  }

  lemma CheckWritten(name: Text, check: Text)
    ensures PutQuad(25) + PutCheck(name, check) == Written([Quad(25), Str(name), Str(check)])
  {
    QuadOn(25, [Str(name)] + [Str(check)]);
    StrOn(name, [Str(check)]);
    WrittenStr(check);
    assert [Quad(25), Str(name), Str(check)] == [Quad(25)] + ([Str(name)] + [Str(check)]);
  }

  lemma TableConstraintWritten(c: TableConstraint)
    ensures PutConstraint(c) == Written(TableConstraintFields(c))
  {
    match c
    case Unique(name, columns) => UniqueWritten(21, name, columns);
    case PrimaryKey(name, columns) => UniqueWritten(22, name, columns);
    case References(name, columns, table, foreignColumns, matchType, action) =>
      ReferencesWritten(name, columns, Foreign(table, foreignColumns, matchType, action));
    case Check(name, check) => CheckWritten(name, check);
  }

  lemma TableConstraintsWritten(v: Vec<TableConstraint>)
    ensures PutVec(PutConstraint, v) == Written([Quad(|v|)] + Flat(TableConstraintFields, v))
  {
    forall c | c in v
      ensures PutConstraint(c) == Written(TableConstraintFields(c))
    {
      TableConstraintWritten(c);
    }
    VecWritten(PutConstraint, TableConstraintFields, v);
  }

  lemma PairWritten(p: (Text, Text))
    ensures PutPair(p) == Written([Str(p.0), Str(p.1)])
  {
    StrOn(p.0, [Str(p.1)]);
    WrittenStr(p.1);
    assert [Str(p.0), Str(p.1)] == [Str(p.0)] + [Str(p.1)];
  }

  lemma OptionsWritten(v: Vec<(Text, Text)>)
    ensures PutOptions(v) == Written([Quad(|v|)] + Flat(PairFields, v))
  {
    forall p | p in v
      ensures PutPair(p) == Written(PairFields(p))
    {
      PairWritten(p);
    }
    VecWritten(PutPair, PairFields, v);
  }

  lemma TableWritten(t: TableDef)
    ensures PutTableDef(t) == Written(TableFields(t))
  {
    NameWritten(t.name);
    ColumnsWritten(t.columns);
    TableConstraintsWritten(t.constraints);
    OptionsWritten(t.options);
    Counted(NameFields(t.name), [Quad(|t.columns|)], Flat(ColumnFields, t.columns),
            [Quad(|t.constraints|)], Flat(TableConstraintFields, t.constraints),
            [Quad(|t.options|)], Flat(PairFields, t.options));
  }

  lemma Counted(a: seq<Field>, n: seq<Field>, u: seq<Field>, m: seq<Field>, v: seq<Field>, k: seq<Field>,
                w: seq<Field>)
    ensures Written(a + n + u + m + v + k + w) == Written(a) + (Written(n + u) + (Written(m + v) + Written(k + w)))
  {
    assert a + n + u + m + v + k + w == a + ((n + u) + ((m + v) + (k + w)));
    WrittenAppend(a, (n + u) + ((m + v) + (k + w)));
    WrittenAppend(n + u, (m + v) + (k + w));
    WrittenAppend(m + v, k + w);
  }

  lemma TrailerWritten(t: Trailer)
    ensures PutTrailer(t) == Written(TrailerFields(t))
  {
    var r3 := [Quad(t.withAutoincrement)];
    var r2 := [Str(t.owner)] + r3;
    var r1 := [Str(t.sql)] + r2;
    WrittenQuad(t.withAutoincrement);
    StrOn(t.owner, r3);
    StrOn(t.sql, r2);
    QuadOn(t.sessionId, r1);
    assert TrailerFields(t) == [Quad(t.sessionId)] + r1;
  }

  // CREATE TABLE, byte for byte.
  lemma CreateTableLayout(c: CreateTable)
    ensures PutCreateTable(c) == Written(CreateFields(c))
  {
    var t, r := TableFields(c.table), TrailerFields(c.trailer);
    TableWritten(c.table);
    TrailerWritten(c.trailer);
    WrittenAppend(t, r);
    QuadOn(5, t + r);
    Plus([Quad(5)], t, r);
  }

  lemma Plus(a: seq<Field>, b: seq<Field>, c: seq<Field>)
    ensures a + b + c == a + (b + c)
  {
  }

  // ---------- ALTER TABLE ----------

  lemma NamedQuad(code: UInt32, name: Text, q: UInt32)
    ensures PutQuad(code) + PutNameAndQuad(name, q) == Written([Quad(code), Str(name), Quad(q)])
  {
    QuadOn(code, [Str(name)] + [Quad(q)]);
    StrOn(name, [Quad(q)]);
    WrittenQuad(q);
    assert [Quad(code), Str(name), Quad(q)] == [Quad(code)] + ([Str(name)] + [Quad(q)]);
  }

  lemma CodeAndText(code: UInt32, t: Text)
    ensures PutQuad(code) + PutText(t) == Written([Quad(code), Str(t)])
  {
    QuadOn(code, [Str(t)]);
    WrittenStr(t);
    assert [Quad(code), Str(t)] == [Quad(code)] + [Str(t)];
  }

  lemma SetDefaultWritten(name: Text, v: DefaultValue)
    ensures PutQuad(12) + (PutText(name) + PutDefaultValue(v))
         == Written([Quad(12), Str(name), Quad(Bit(v.isNull)), Str(v.value)])
  {
    var rest := [Quad(Bit(v.isNull)), Str(v.value)];
    ValueWritten(v);
    StrOn(name, rest);
    QuadOn(12, [Str(name)] + rest);
    assert [Quad(12), Str(name), Quad(Bit(v.isNull)), Str(v.value)] == [Quad(12)] + ([Str(name)] + rest);
  }

  lemma AddColumnsWritten(cs: Vec<ColumnDef>)
    ensures PutQuad(9) + PutColumnDefs(cs) == Written([Quad(9)] + [Quad(|cs|)] + Flat(ColumnFields, cs))
  {
    ColumnsWritten(cs);
    QuadOn(9, [Quad(|cs|)] + Flat(ColumnFields, cs));
    Plus([Quad(9)], [Quad(|cs|)], Flat(ColumnFields, cs));
  }

  lemma ModifyWritten(t: ColumnType, name: Text)
    ensures PutQuad(17) + (PutColumnType(t) + PutText(name)) == Written([Quad(17)] + TypeFields(t) + [Str(name)])
  {
    TypeWritten(t);
    WrittenStr(name);
    WrittenAppend(TypeFields(t), [Str(name)]);
    QuadOn(17, TypeFields(t) + [Str(name)]);
    Plus([Quad(17)], TypeFields(t), [Str(name)]);
  }

  lemma RenameWritten(name: Text, newName: Text, t: ColumnType, cs: Vec<ColumnConstraint>, d: Option<DefaultValue>)
    ensures PutQuad(16) + (PutText(name) + (PutText(newName) + PutRename(t, cs, d)))
         == Written([Quad(16), Str(name), Str(newName)] + TypeFields(t)
                    + [Quad(|cs|)] + Flat(ConstraintFields, cs) + DefaultFields(d))
  {
    var a, n, v, e := TypeFields(t), [Quad(|cs|)], Flat(ConstraintFields, cs), DefaultFields(d);
    KindWritten(t, cs, d);
    Heads(16, name, newName, a + n + v + e);
    Behind([Quad(16), Str(name), Str(newName)], a, n, v, e);
  }

  lemma Heads(code: UInt32, name: Text, newName: Text, rest: seq<Field>)
    ensures Written([Quad(code), Str(name), Str(newName)] + rest)
         == PutQuad(code) + (PutText(name) + (PutText(newName) + Written(rest)))
  {
    StrOn(newName, rest);
    StrOn(name, [Str(newName)] + rest);
    QuadOn(code, [Str(name)] + ([Str(newName)] + rest));
    assert [Quad(code), Str(name), Str(newName)] + rest == [Quad(code)] + ([Str(name)] + ([Str(newName)] + rest));
  }

  lemma ColumnActionWritten(a: Action)
    requires a.AddColumn? || a.AddColumns? || a.RenameColumn? || a.ModifyColumnType?
    ensures PutAction(a) == Written(ActionFields(a))
  {
    match a
    case AddColumn(c) =>
      ColumnWritten(c);
      QuadOn(8, ColumnFields(c));
    case AddColumns(cs) => AddColumnsWritten(cs);
    case RenameColumn(name, newName, t, cs, d) => RenameWritten(name, newName, t, cs, d);
    case ModifyColumnType(t, name) => ModifyWritten(t, name);
  }

  lemma NamedActionWritten(a: Action)
    requires a.DropColumn? || a.SetColumnDefault? || a.DropColumnDefault? || a.DropTableConstraint? || a.TableComment?
    ensures PutAction(a) == Written(ActionFields(a))
  {
    match a
    case DropColumn(name, behavior) => NamedQuad(10, name, behavior);
    case SetColumnDefault(name, v) => SetDefaultWritten(name, v);
    case DropColumnDefault(name) => CodeAndText(13, name);
    case DropTableConstraint(name, behavior) => NamedQuad(14, name, behavior);
    case TableComment(comment) => CodeAndText(18, comment);
  }

  lemma OtherActionWritten(a: Action)
    requires a.AddTableConstraint? || a.RenameTable? || a.DropColumns? || a.AddNothing?
    ensures PutAction(a) == Written(ActionFields(a))
  {
    match a
    case AddTableConstraint(c) =>
      TableConstraintWritten(c);
      QuadOn(11, TableConstraintFields(c));
    case RenameTable(table) =>
      NameWritten(table);
      QuadOn(15, NameFields(table));
    case DropColumns(names) =>
      TextsWritten(names);
      QuadOn(30, TextFields(names));
    case AddNothing(code) =>
      QuadOn(11, [Quad(code)]);
      WrittenQuad(code);
      assert [Quad(11), Quad(code)] == [Quad(11)] + [Quad(code)];
  }

  lemma ActionWritten(a: Action)
    ensures PutAction(a) == Written(ActionFields(a))
  {
    if a.AddColumn? || a.AddColumns? || a.RenameColumn? || a.ModifyColumnType? {
      ColumnActionWritten(a);
    } else if a.AddTableConstraint? || a.RenameTable? || a.DropColumns? || a.AddNothing? {
      OtherActionWritten(a);
    } else {
      NamedActionWritten(a);
    }
  }

  lemma Unsigned64(x: SInt64)
    ensures AsOct(x) == x % 0x1_0000_0000_0000_0000
  {
  }

  lemma HeadWritten(h: Head)
    ensures PutHead(h) == Written(NameFields(h.table) + [Oct(h.timeZone), Quad(h.count)])
  {
    NameWritten(h.table);
    OctOn(h.timeZone, [Quad(h.count)]);
    WrittenQuad(h.count);
    assert [Oct(h.timeZone), Quad(h.count)] == [Oct(h.timeZone)] + [Quad(h.count)];
    WrittenAppend(NameFields(h.table), [Oct(h.timeZone), Quad(h.count)]);
  }

  lemma ActionsWritten(v: seq<Action>)
    ensures PutAll(PutAction, v) == Written(Flat(ActionFields, v))
  {
    forall a | a in v
      ensures PutAction(a) == Written(ActionFields(a))
    {
      ActionWritten(a);
    }
    AllWritten(PutAction, ActionFields, v);
  }

  // ALTER TABLE, byte for byte.
  lemma AlterTableLayout(a: AlterTable)
    ensures PutAlterTable(a) == Written(AlterFields(a))
  {
    var o := a.timeZone % 0x1_0000_0000_0000_0000;
    var n, h, v, t := NameFields(a.table), [Oct(o), Quad(|a.actions|)], Flat(ActionFields, a.actions),
                      TrailerFields(a.trailer);
    Unsigned64(a.timeZone);
    HeadWritten(Head(a.table, o, |a.actions|));
    ActionsWritten(a.actions);
    TrailerWritten(a.trailer);
    Parts([Quad(7)], n, h, v, t);
    WrittenQuad(7);
  }

  lemma Parts(q: seq<Field>, n: seq<Field>, h: seq<Field>, v: seq<Field>, t: seq<Field>)
    ensures Written(q + n + h + v + t) == Written(q) + (Written(n + h) + (Written(v) + Written(t)))
  {
    assert q + n + h + v + t == q + ((n + h) + (v + t));
    WrittenAppend(q, (n + h) + (v + t));
    WrittenAppend(n + h, v + t);
    WrittenAppend(v, t);
  }
}
