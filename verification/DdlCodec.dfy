/**
 * The wire form of the CREATE TABLE and ALTER TABLE statements: what every serialize writes and
 * every unserialize reads, byte for byte on a little-endian host, and the laws between the two.
 */
module DdlCodec {
  import opened MachineInts
  import opened Options

  const TWO31: int := 0x8000_0000

  type Byte = b: int | 0 <= b < 256
  type Bytes = seq<Byte>
  type UInt32 = x: int | 0 <= x < TWO32
  type UInt64 = x: int | 0 <= x < TWO64
  type SInt32 = x: int | -TWO31 <= x < TWO31
  type SInt64 = x: int | -TWO63 <= x < TWO63
  type Text = s: Bytes | |s| < TWO31
  type Vec<T> = v: seq<T> | |v| < TWO32

  // ---------- statements ----------

  datatype QualifiedName = QualifiedName(catalog: Text, schema: Text, name: Text)

  // The length is a 64-bit field that travels in 32 bits.
  datatype ColumnType = ColumnType(ddlType: SInt32, length: SInt64, precision: SInt32, scale: SInt32,
                                   withTimezone: bool, compressionType: SInt32, autoincrement: Text,
                                   nextValue: UInt64) {
    predicate Fits() {
      0 <= length < TWO32
    }
  }

  datatype ColumnConstraint =
    ColumnConstraint(name: Text, deferrable: bool, checkTime: UInt32, constraintType: UInt32, check: Text)

  datatype DefaultValue = DefaultValue(isNull: bool, value: Text)

  datatype ColumnDef = ColumnDef(name: Text, colType: ColumnType, constraints: Vec<ColumnConstraint>,
                                 default: Option<DefaultValue>) {
    predicate Fits() {
      colType.Fits()
    }
  }

  datatype ReferentialAction = ReferentialAction(onUpdate: UInt32, onDelete: UInt32)

  datatype TableConstraint =
    | Unique(name: Text, columns: Vec<Text>)
    | PrimaryKey(name: Text, columns: Vec<Text>)
    | References(name: Text, columns: Vec<Text>, table: QualifiedName, foreignColumns: Vec<Text>,
                 matchType: UInt32, action: Option<ReferentialAction>)
    | Check(name: Text, check: Text)

  // The options are a map; this is its content in the order of the keys.
  datatype TableDef = TableDef(name: QualifiedName, columns: Vec<ColumnDef>, constraints: Vec<TableConstraint>,
                               options: Vec<(Text, Text)>) {
    predicate Fits() {
      forall c :: c in columns ==> c.Fits()
    }
  }

  // Session, statement text, owner and the autoincrement mark end every statement.
  datatype Trailer = Trailer(sessionId: UInt32, sql: Text, owner: Text, withAutoincrement: UInt32)

  datatype CreateTable = CreateTable(table: TableDef, trailer: Trailer)

  // The last form is what reading leaves when the constraint has an unknown type code.
  datatype Action =
    | AddColumn(column: ColumnDef)
    | AddColumns(columns: Vec<ColumnDef>)
    | DropColumn(columnName: Text, behavior: UInt32)
    | DropColumns(names: Vec<Text>)
    | AddTableConstraint(constraint: TableConstraint)
    | SetColumnDefault(columnName: Text, value: DefaultValue)
    | DropColumnDefault(columnName: Text)
    | DropTableConstraint(constraintName: Text, behavior: UInt32)
    | RenameTable(table: QualifiedName)
    | RenameColumn(columnName: Text, newName: Text, newType: ColumnType,
                   constraints: Vec<ColumnConstraint>, default: Option<DefaultValue>)
    | ModifyColumnType(colType: ColumnType, columnName: Text)
    | TableComment(comment: Text)
    | AddNothing(code: UInt32)
  {
    predicate Fits() {
      match this
      case AddColumn(c) => c.Fits()
      case AddColumns(cs) => forall c :: c in cs ==> c.Fits()
      case RenameColumn(_, _, t, _, _) => t.Fits()
      case ModifyColumnType(t, _) => t.Fits()
      case _ => true
    }
  }

  datatype AlterTable = AlterTable(table: QualifiedName, timeZone: SInt64, actions: Vec<Action>, trailer: Trailer)

  datatype Statement = Create(createTable: CreateTable) | Alter(alterTable: AlterTable)

  // Type codes
  const CREATE_TABLE_STATEMENT: UInt32 := 5
  const ALTER_TABLE_STATEMENT: UInt32 := 7
  const ATA_ADD_COLUMN: UInt32 := 8
  const ATA_ADD_COLUMNS: UInt32 := 9
  const ATA_DROP_COLUMN: UInt32 := 10
  const ATA_ADD_TABLE_CONSTRAINT: UInt32 := 11
  const ATA_SET_COLUMN_DEFAULT: UInt32 := 12
  const ATA_DROP_COLUMN_DEFAULT: UInt32 := 13
  const ATA_DROP_TABLE_CONSTRAINT: UInt32 := 14
  const ATA_RENAME_TABLE: UInt32 := 15
  const ATA_RENAME_COLUMN: UInt32 := 16
  const ATA_MODIFY_COLUMN_TYPE: UInt32 := 17
  const ATA_TABLE_COMMENT: UInt32 := 18
  const COLUMN_DEFAULT_VALUE: UInt32 := 20
  const TABLE_UNIQUE_CONSTRAINT_DEF: UInt32 := 21
  const TABLE_PRIMARY_CONSTRAINT_DEF: UInt32 := 22
  const REF_ACTION: UInt32 := 23
  const TABLE_REFERENCES_CONSTRAINT_DEF: UInt32 := 24
  const TABLE_CHECK_CONSTRAINT_DEF: UInt32 := 25
  const ATA_DROP_COLUMNS: UInt32 := 30
  const DDL_NULL: UInt32 := 31

  // ---------- numbers and strings ----------

  // A reader gives an error, or a value and the bytes it has not read.
  datatype Error = Underflow | ExpectedString | BadTypeCode

  datatype Parsed<+T> = Bad(error: Error) | Ok(value: T, rest: Bytes) {
    predicate IsFailure() {
      Bad?
    }

    function PropagateFailure<U>(): Parsed<U>
      requires Bad?
    {
      Bad(error)
    }

    function Extract(): (T, Bytes)
      requires Ok?
    {
      (value, rest)
    }
  }

  function PutQuad(x: UInt32): (s: Bytes)
    ensures |s| == 4
  {
    [x % 256, x / 256 % 256, x / 0x1_0000 % 256, x / 0x100_0000]
  }

  function Word(a: int, b: int, c: int, d: int): (x: UInt32)
    requires 0 <= a < 256 && 0 <= b < 256 && 0 <= c < 256 && 0 <= d < 256
  {
    a + b * 256 + c * 0x1_0000 + d * 0x100_0000
  }

  lemma WordOfBytes(x: UInt32)
    ensures Word(x % 256, x / 256 % 256, x / 0x1_0000 % 256, x / 0x100_0000) == x
  {
    var b, c := x / 256, x / 0x1_0000;
    assert c == b / 256 && x / 0x100_0000 == c / 256;
  }

  function GetQuad(s: Bytes): (r: Parsed<UInt32>)
    ensures r.Ok? <==> |s| >= 4
    ensures r.Ok? ==> |s| == 4 + |r.rest|
  {
    if |s| < 4 then Bad(Underflow)
    else Ok(Word(s[0], s[1], s[2], s[3]), s[4..])
  }

  lemma QuadThen(x: UInt32, rest: Bytes)
    ensures GetQuad(PutQuad(x) + rest) == Ok(x, rest)
  {
    var s := PutQuad(x);
    WordOfBytes(x);
    var t := s + rest;
    assert t[0] == s[0] && t[1] == s[1] && t[2] == s[2] && t[3] == s[3];
    assert t[4..] == rest;
  }

  function PutOct(x: UInt64): (s: Bytes)
    ensures |s| == 8
  {
    PutQuad(x % TWO32) + PutQuad(x / TWO32)
  }

  function GetOct(s: Bytes): (r: Parsed<UInt64>)
    ensures r.Ok? ==> |s| == 8 + |r.rest|
  {
    var (lo, s1) :- GetQuad(s);
    var (hi, s2) :- GetQuad(s1);
    Ok(lo + hi * TWO32, s2)
  }

  lemma OctThen(x: UInt64, rest: Bytes)
    ensures GetOct(PutOct(x) + rest) == Ok(x, rest)
  {
    Cat(PutQuad(x % TWO32), PutQuad(x / TWO32), rest);
    QuadThen(x % TWO32, PutQuad(x / TWO32) + rest);
    QuadThen(x / TWO32, rest);
  }

  lemma Cat(a: Bytes, b: Bytes, c: Bytes)
    ensures a + b + c == a + (b + c)
  {
  }

  function PutText(t: Text): (s: Bytes)
    ensures |s| == 4 + |t|
  {
    PutQuad(|t|) + t
  }

  function GetText(s: Bytes): (r: Parsed<Text>)
    ensures r.Ok? ==> |s| == |PutText(r.value)| + |r.rest|
  {
    var (n, s1) :- GetQuad(s);
    if n >= TWO31 then Bad(ExpectedString)
    else if |s1| < n then Bad(Underflow)
    else Ok(s1[..n], s1[n..])
  }

  lemma TextThen(t: Text, rest: Bytes)
    ensures GetText(PutText(t) + rest) == Ok(t, rest)
  {
    Cat(PutQuad(|t|), t, rest);
    QuadThen(|t|, t + rest);
    assert (t + rest)[..|t|] == t && (t + rest)[|t|..] == rest;
  }

  // Signed fields and truth values travel as unsigned numbers.
  function AsQuad(x: SInt32): (q: UInt32) {
    if x < 0 then x + TWO32 else x
  }

  function FromQuad(q: UInt32): (x: SInt32)
    ensures AsQuad(x) == q
  {
    if q < TWO31 then q else q - TWO32
  }

  function AsOct(x: SInt64): (o: UInt64) {
    if x < 0 then x + TWO64 else x
  }

  function FromOct(o: UInt64): (x: SInt64)
    ensures AsOct(x) == o
  {
    if o < TWO63 then o else o - TWO64
  }

  function Low32(x: SInt64): (q: UInt32)
    ensures 0 <= x < TWO32 ==> q == x
  {
    x % TWO32
  }

  function BoolQuad(b: bool): UInt32 {
    if b then 1 else 0
  }

  // ---------- vectors ----------

  function PutAll<T>(put: T -> Bytes, v: seq<T>): (s: Bytes) {
    if v == [] then [] else put(v[0]) + PutAll(put, v[1..])
  }

  function GetAll<T>(get: Bytes -> Parsed<T>, n: nat, s: Bytes): (r: Parsed<seq<T>>)
    ensures r.Ok? ==> |r.value| == n
  {
    if n == 0 then Ok([], s)
    else
      var (x, s1) :- get(s);
      var (xs, s2) :- GetAll(get, n - 1, s1);
      Ok([x] + xs, s2)
  }

  // write_vec and read_vec
  function PutVec<T>(put: T -> Bytes, v: Vec<T>): (s: Bytes) {
    PutQuad(|v|) + PutAll(put, v)
  }

  function GetVec<T>(get: Bytes -> Parsed<T>, s: Bytes): (r: Parsed<Vec<T>>) {
    var (n, s1) :- GetQuad(s);
    GetAll(get, n, s1)
  }

  lemma {:induction false} AllThen<T>(put: T -> Bytes, get: Bytes -> Parsed<T>, v: seq<T>, rest: Bytes)
    requires forall x, r :: x in v ==> get(put(x) + r) == Ok(x, r)
    ensures GetAll(get, |v|, PutAll(put, v) + rest) == Ok(v, rest)
  {
    if v == [] {
      assert PutAll(put, v) + rest == rest;
    } else {
      assert forall x :: x in v[1..] ==> x in v;
      AllThen(put, get, v[1..], rest);
      Cat(put(v[0]), PutAll(put, v[1..]), rest);
      assert v[0] in v;
      assert [v[0]] + v[1..] == v;
    }
  }

  lemma VecThen<T>(put: T -> Bytes, get: Bytes -> Parsed<T>, v: Vec<T>, rest: Bytes)
    requires forall x, r :: x in v ==> get(put(x) + r) == Ok(x, r)
    ensures GetVec(get, PutVec(put, v) + rest) == Ok(v, rest)
  {
    Cat(PutQuad(|v|), PutAll(put, v), rest);
    QuadThen(|v|, PutAll(put, v) + rest);
    AllThen(put, get, v, rest);
  }

  // A reader that consumes what writing its value produces does so for vectors.
  lemma {:induction false} AllLength<T>(put: T -> Bytes, get: Bytes -> Parsed<T>, n: nat, s: Bytes)
    requires forall t :: get(t).Ok? ==> |t| == |put(get(t).value)| + |get(t).rest|
    requires GetAll(get, n, s).Ok?
    ensures var r := GetAll(get, n, s); |s| == |PutAll(put, r.value)| + |r.rest|
    decreases n
  {
    if n > 0 {
      var x := get(s);
      AllLength(put, get, n - 1, x.rest);
      var xs := GetAll(get, n - 1, x.rest).value;
      assert ([x.value] + xs)[1..] == xs;
    }
  }

  lemma {:induction false} AllHold<T>(get: Bytes -> Parsed<T>, p: T -> bool, n: nat, s: Bytes)
    requires forall t :: get(t).Ok? ==> p(get(t).value)
    requires GetAll(get, n, s).Ok?
    ensures forall x :: x in GetAll(get, n, s).value ==> p(x)
    decreases n
  {
    if n > 0 {
      AllHold(get, p, n - 1, get(s).rest);
    }
  }

  // ---------- names ----------

  function PutName(q: QualifiedName): (s: Bytes) {
    PutText(q.catalog) + (PutText(q.schema) + PutText(q.name))
  }

  function GetName(s: Bytes): (r: Parsed<QualifiedName>)
    ensures r.Ok? ==> |s| == |PutName(r.value)| + |r.rest|
  {
    var (catalog, s1) :- GetText(s);
    var (schema, s2) :- GetText(s1);
    var (name, s3) :- GetText(s2);
    Ok(QualifiedName(catalog, schema, name), s3)
  }

  lemma NameThen(q: QualifiedName, rest: Bytes)
    ensures GetName(PutName(q) + rest) == Ok(q, rest)
  {
    var tail := PutText(q.schema) + PutText(q.name);
    Cat(PutText(q.catalog), tail, rest);
    Cat(PutText(q.schema), PutText(q.name), rest);
    TextThen(q.catalog, tail + rest);
    TextThen(q.schema, PutText(q.name) + rest);
    TextThen(q.name, rest);
  }

  function PutNames(v: Vec<Text>): (s: Bytes) {
    PutVec(PutText, v)
  }

  function GetNames(s: Bytes): (r: Parsed<Vec<Text>>) {
    GetVec(GetText, s)
  }

  lemma NamesThen(v: Vec<Text>, rest: Bytes)
    ensures GetNames(PutNames(v) + rest) == Ok(v, rest)
  {
    forall x, r | x in v
      ensures GetText(PutText(x) + r) == Ok(x, r)
    {
      TextThen(x, r);
    }
    VecThen(PutText, GetText, v, rest);
  }

  lemma NamesLength(s: Bytes)
    requires GetNames(s).Ok?
    ensures |s| == |PutNames(GetNames(s).value)| + |GetNames(s).rest|
  {
    AllLength(PutText, GetText, GetQuad(s).value, GetQuad(s).rest);
  }

  // ---------- columns ----------

  // The numbers that begin a column type, as they travel.
  datatype TypeWords = TypeWords(ddlType: UInt32, length: UInt32, precision: UInt32, scale: UInt32,
                                 withTimezone: UInt32, compressionType: UInt32)

  function WordsOf(t: ColumnType): (w: TypeWords) {
    TypeWords(AsQuad(t.ddlType), Low32(t.length), AsQuad(t.precision), AsQuad(t.scale),
              BoolQuad(t.withTimezone), AsQuad(t.compressionType))
  }

  function PutWords(w: TypeWords): (s: Bytes)
    ensures |s| == 24
  {
    PutQuad(w.ddlType) + (PutQuad(w.length) + (PutQuad(w.precision) +
    (PutQuad(w.scale) + (PutQuad(w.withTimezone) + PutQuad(w.compressionType)))))
  }

  function GetWords(s: Bytes): (r: Parsed<TypeWords>)
    ensures r.Ok? ==> |s| == 24 + |r.rest|
  {
    var (ddlType, s1) :- GetQuad(s);
    var (length, s2) :- GetQuad(s1);
    var (precision, s3) :- GetQuad(s2);
    var (scale, s4) :- GetQuad(s3);
    var (withTimezone, s5) :- GetQuad(s4);
    var (compressionType, s6) :- GetQuad(s5);
    Ok(TypeWords(ddlType, length, precision, scale, withTimezone, compressionType), s6)
  }

  lemma WordsThen(w: TypeWords, rest: Bytes)
    ensures GetWords(PutWords(w) + rest) == Ok(w, rest)
  {
    var r5 := PutQuad(w.withTimezone) + PutQuad(w.compressionType);
    var r4 := PutQuad(w.scale) + r5;
    var r3 := PutQuad(w.precision) + r4;
    var r2 := PutQuad(w.length) + r3;
    QuadPlus(w.ddlType, r2, rest);
    QuadPlus(w.length, r3, rest);
    QuadPlus(w.precision, r4, rest);
    QuadPlus(w.scale, r5, rest);
    QuadPlus(w.withTimezone, PutQuad(w.compressionType), rest);
    QuadThen(w.compressionType, rest);
  }

  function PutColumnType(t: ColumnType): (s: Bytes)
    ensures |s| == 36 + |t.autoincrement|
  {
    PutWords(WordsOf(t)) + (PutText(t.autoincrement) + PutOct(t.nextValue))
  }

  function GetColumnType(s: Bytes): (r: Parsed<ColumnType>)
    ensures r.Ok? ==> r.value.Fits() && |s| == |PutColumnType(r.value)| + |r.rest|
  {
    var (w, s1) :- GetWords(s);
    var (autoincrement, s2) :- GetText(s1);
    var (nextValue, s3) :- GetOct(s2);
    Ok(TypeOf(w, autoincrement, nextValue), s3)
  }

  function TypeOf(w: TypeWords, autoincrement: Text, nextValue: UInt64): (t: ColumnType)
    ensures t.Fits()
  {
    ColumnType(FromQuad(w.ddlType), w.length, FromQuad(w.precision), FromQuad(w.scale), w.withTimezone != 0,
               FromQuad(w.compressionType), autoincrement, nextValue)
  }

  lemma WordsRead(t: ColumnType, rest: Bytes)
    ensures GetColumnType(PutColumnType(t) + rest) == Ok(TypeOf(WordsOf(t), t.autoincrement, t.nextValue), rest)
  {
    var tail := PutText(t.autoincrement) + PutOct(t.nextValue);
    Cat(PutWords(WordsOf(t)), tail, rest);
    WordsThen(WordsOf(t), tail + rest);
    TextPlus(t.autoincrement, PutOct(t.nextValue), rest);
    OctThen(t.nextValue, rest);
  }

  lemma SignedThen(x: SInt32)
    ensures FromQuad(AsQuad(x)) == x
  {
  }

  lemma ColumnTypeThen(t: ColumnType, rest: Bytes)
    ensures GetColumnType(PutColumnType(t) + rest) == Ok(t.(length := Low32(t.length)), rest)
  {
    WordsRead(t, rest);
    SignedThen(t.ddlType);
    SignedThen(t.precision);
    SignedThen(t.scale);
    SignedThen(t.compressionType);
  }

  // A field followed by more of its record.
  lemma QuadPlus(x: UInt32, more: Bytes, rest: Bytes)
    ensures GetQuad(PutQuad(x) + more + rest) == Ok(x, more + rest)
  {
    Cat(PutQuad(x), more, rest);
    QuadThen(x, more + rest);
  }

  lemma TextPlus(t: Text, more: Bytes, rest: Bytes)
    ensures GetText(PutText(t) + more + rest) == Ok(t, more + rest)
  {
    Cat(PutText(t), more, rest);
    TextThen(t, more + rest);
  }

  // A column type survives the trip exactly when its length fits in 32 bits.
  lemma ColumnTypeRoundTrip(t: ColumnType, rest: Bytes)
    ensures GetColumnType(PutColumnType(t) + rest) == Ok(t, rest) <==> t.Fits()
  {
    ColumnTypeThen(t, rest);
  }

  // A length of 2^32 comes back as 0.
  lemma LengthIsLost(t: ColumnType, rest: Bytes)
    requires t.length == TWO32
    ensures GetColumnType(PutColumnType(t) + rest) == Ok(t.(length := 0), rest) && !t.Fits()
  {
    ColumnTypeThen(t, rest);
  }

  function PutColumnConstraint(c: ColumnConstraint): (s: Bytes) {
    PutText(c.name) + (PutQuad(BoolQuad(c.deferrable)) + (PutQuad(c.checkTime) +
    (PutQuad(c.constraintType) + PutText(c.check))))
  }

  function GetColumnConstraint(s: Bytes): (r: Parsed<ColumnConstraint>)
    ensures r.Ok? ==> |s| == |PutColumnConstraint(r.value)| + |r.rest|
  {
    var (name, s1) :- GetText(s);
    var (deferrable, s2) :- GetQuad(s1);
    var (checkTime, s3) :- GetQuad(s2);
    var (constraintType, s4) :- GetQuad(s3);
    var (check, s5) :- GetText(s4);
    Ok(ColumnConstraint(name, deferrable != 0, checkTime, constraintType, check), s5)
  }

  lemma ColumnConstraintThen(c: ColumnConstraint, rest: Bytes)
    ensures GetColumnConstraint(PutColumnConstraint(c) + rest) == Ok(c, rest)
  {
    var r4 := PutQuad(c.constraintType) + PutText(c.check);
    var r3 := PutQuad(c.checkTime) + r4;
    var r2 := PutQuad(BoolQuad(c.deferrable)) + r3;
    TextPlus(c.name, r2, rest);
    QuadPlus(BoolQuad(c.deferrable), r3, rest);
    QuadPlus(c.checkTime, r4, rest);
    QuadPlus(c.constraintType, PutText(c.check), rest);
    TextThen(c.check, rest);
  }

  function PutColumnConstraints(v: Vec<ColumnConstraint>): (s: Bytes) {
    PutVec(PutColumnConstraint, v)
  }

  function GetColumnConstraints(s: Bytes): (r: Parsed<Vec<ColumnConstraint>>) {
    GetVec(GetColumnConstraint, s)
  }

  lemma ColumnConstraintsThen(v: Vec<ColumnConstraint>, rest: Bytes)
    ensures GetColumnConstraints(PutColumnConstraints(v) + rest) == Ok(v, rest)
  {
    forall x, r | x in v
      ensures GetColumnConstraint(PutColumnConstraint(x) + r) == Ok(x, r)
    {
      ColumnConstraintThen(x, r);
    }
    VecThen(PutColumnConstraint, GetColumnConstraint, v, rest);
  }

  lemma ColumnConstraintsLength(s: Bytes)
    requires GetColumnConstraints(s).Ok?
    ensures |s| == |PutColumnConstraints(GetColumnConstraints(s).value)| + |GetColumnConstraints(s).rest|
  {
    AllLength(PutColumnConstraint, GetColumnConstraint, GetQuad(s).value, GetQuad(s).rest);
  }

  function PutDefaultValue(d: DefaultValue): (s: Bytes) {
    PutQuad(BoolQuad(d.isNull)) + PutText(d.value)
  }

  function GetDefaultValue(s: Bytes): (r: Parsed<DefaultValue>)
    ensures r.Ok? ==> |s| == |PutDefaultValue(r.value)| + |r.rest|
  {
    var (isNull, s1) :- GetQuad(s);
    var (value, s2) :- GetText(s1);
    Ok(DefaultValue(isNull != 0, value), s2)
  }

  lemma DefaultValueThen(d: DefaultValue, rest: Bytes)
    ensures GetDefaultValue(PutDefaultValue(d) + rest) == Ok(d, rest)
  {
    QuadPlus(BoolQuad(d.isNull), PutText(d.value), rest);
    TextThen(d.value, rest);
  }

  // A default value that may be absent: any code but the null code announces one.
  function PutDefault(d: Option<DefaultValue>): (s: Bytes) {
    match d
    case None => PutQuad(DDL_NULL)
    case Some(v) => PutQuad(COLUMN_DEFAULT_VALUE) + PutDefaultValue(v)
  }

  function GetDefault(s: Bytes): (r: Parsed<Option<DefaultValue>>)
    ensures r.Ok? ==> |s| == |PutDefault(r.value)| + |r.rest|
  {
    var (code, s1) :- GetQuad(s);
    if code == DDL_NULL then Ok(None, s1)
    else
      var (v, s2) :- GetDefaultValue(s1);
      Ok(Some(v), s2)
  }

  lemma DefaultThen(d: Option<DefaultValue>, rest: Bytes)
    ensures GetDefault(PutDefault(d) + rest) == Ok(d, rest)
  {
    match d
    case None => QuadThen(DDL_NULL, rest);
    case Some(v) =>
      QuadPlus(COLUMN_DEFAULT_VALUE, PutDefaultValue(v), rest);
      DefaultValueThen(v, rest);
  }

  function PutColumnDef(c: ColumnDef): (s: Bytes) {
    PutText(c.name) + (PutColumnType(c.colType) + (PutColumnConstraints(c.constraints) + PutDefault(c.default)))
  }

  function GetColumnDef(s: Bytes): (r: Parsed<ColumnDef>)
    ensures r.Ok? ==> r.value.Fits() && |s| == |PutColumnDef(r.value)| + |r.rest|
  {
    var (name, s1) :- GetText(s);
    var (colType, s2) :- GetColumnType(s1);
    var (constraints, s3) :- GetColumnConstraints(s2);
    var (default, s4) :- GetDefault(s3);
    ColumnConstraintsLength(s2);
    Ok(ColumnDef(name, colType, constraints, default), s4)
  }

  lemma ColumnDefThen(c: ColumnDef, rest: Bytes)
    requires c.Fits()
    ensures GetColumnDef(PutColumnDef(c) + rest) == Ok(c, rest)
  {
    var r3 := PutColumnConstraints(c.constraints) + PutDefault(c.default);
    var r2 := PutColumnType(c.colType) + r3;
    TextPlus(c.name, r2, rest);
    Cat(PutColumnType(c.colType), r3, rest);
    ColumnTypeThen(c.colType, r3 + rest);
    Cat(PutColumnConstraints(c.constraints), PutDefault(c.default), rest);
    ColumnConstraintsThen(c.constraints, PutDefault(c.default) + rest);
    DefaultThen(c.default, rest);
  }

  function PutColumnDefs(v: Vec<ColumnDef>): (s: Bytes) {
    PutVec(PutColumnDef, v)
  }

  function GetColumnDefs(s: Bytes): (r: Parsed<Vec<ColumnDef>>) {
    GetVec(GetColumnDef, s)
  }

  lemma ColumnDefsThen(v: Vec<ColumnDef>, rest: Bytes)
    requires forall c :: c in v ==> c.Fits()
    ensures GetColumnDefs(PutColumnDefs(v) + rest) == Ok(v, rest)
  {
    forall x, r | x in v
      ensures GetColumnDef(PutColumnDef(x) + r) == Ok(x, r)
    {
      ColumnDefThen(x, r);
    }
    VecThen(PutColumnDef, GetColumnDef, v, rest);
  }

  lemma ColumnDefsRead(s: Bytes)
    requires GetColumnDefs(s).Ok?
    ensures |s| == |PutColumnDefs(GetColumnDefs(s).value)| + |GetColumnDefs(s).rest|
    ensures forall c :: c in GetColumnDefs(s).value ==> c.Fits()
  {
    AllLength(PutColumnDef, GetColumnDef, GetQuad(s).value, GetQuad(s).rest);
    AllHold(GetColumnDef, (c: ColumnDef) => c.Fits(), GetQuad(s).value, GetQuad(s).rest);
  }

  // ---------- table constraints ----------

  function PutRefAction(a: Option<ReferentialAction>): (s: Bytes) {
    match a
    case None => PutQuad(DDL_NULL)
    case Some(v) => PutQuad(REF_ACTION) + (PutQuad(v.onUpdate) + PutQuad(v.onDelete))
  }

  function GetRefAction(s: Bytes): (r: Parsed<Option<ReferentialAction>>)
    ensures r.Ok? ==> |s| == |PutRefAction(r.value)| + |r.rest|
  {
    var (code, s1) :- GetQuad(s);
    if code == DDL_NULL then Ok(None, s1)
    else
      var (onUpdate, s2) :- GetQuad(s1);
      var (onDelete, s3) :- GetQuad(s2);
      Ok(Some(ReferentialAction(onUpdate, onDelete)), s3)
  }

  lemma RefActionThen(a: Option<ReferentialAction>, rest: Bytes)
    ensures GetRefAction(PutRefAction(a) + rest) == Ok(a, rest)
  {
    match a
    case None => QuadThen(DDL_NULL, rest);
    case Some(v) =>
      QuadPlus(REF_ACTION, PutQuad(v.onUpdate) + PutQuad(v.onDelete), rest);
      QuadPlus(v.onUpdate, PutQuad(v.onDelete), rest);
      QuadThen(v.onDelete, rest);
  }

  // A unique or primary key constraint.
  function PutKey(name: Text, columns: Vec<Text>): (s: Bytes) {
    PutText(name) + PutNames(columns)
  }

  function GetKey(s: Bytes): (r: Parsed<(Text, Vec<Text>)>)
    ensures r.Ok? ==> |s| == |PutKey(r.value.0, r.value.1)| + |r.rest|
  {
    var (name, s1) :- GetText(s);
    var (columns, s2) :- GetNames(s1);
    NamesLength(s1);
    Ok((name, columns), s2)
  }

  lemma KeyThen(name: Text, columns: Vec<Text>, rest: Bytes)
    ensures GetKey(PutKey(name, columns) + rest) == Ok((name, columns), rest)
  {
    TextPlus(name, PutNames(columns), rest);
    NamesThen(columns, rest);
  }

  // The fields of a references constraint after its name and columns.
  datatype Foreign = Foreign(table: QualifiedName, columns: Vec<Text>, matchType: UInt32,
                             action: Option<ReferentialAction>)

  function PutForeign(f: Foreign): (s: Bytes) {
    PutName(f.table) + (PutNames(f.columns) + (PutQuad(f.matchType) + PutRefAction(f.action)))
  }

  function GetForeign(s: Bytes): (r: Parsed<Foreign>)
    ensures r.Ok? ==> |s| == |PutForeign(r.value)| + |r.rest|
  {
    var (table, s1) :- GetName(s);
    var (columns, s2) :- GetNames(s1);
    var (matchType, s3) :- GetQuad(s2);
    var (action, s4) :- GetRefAction(s3);
    NamesLength(s1);
    Ok(Foreign(table, columns, matchType, action), s4)
  }

  lemma ForeignThen(f: Foreign, rest: Bytes)
    ensures GetForeign(PutForeign(f) + rest) == Ok(f, rest)
  {
    var r3 := PutQuad(f.matchType) + PutRefAction(f.action);
    var r2 := PutNames(f.columns) + r3;
    Cat(PutName(f.table), r2, rest);
    NameThen(f.table, r2 + rest);
    Cat(PutNames(f.columns), r3, rest);
    NamesThen(f.columns, r3 + rest);
    QuadPlus(f.matchType, PutRefAction(f.action), rest);
    RefActionThen(f.action, rest);
  }

  function PutReferences(name: Text, columns: Vec<Text>, f: Foreign): (s: Bytes) {
    PutKey(name, columns) + PutForeign(f)
  }

  function GetReferences(s: Bytes): (r: Parsed<TableConstraint>)
    ensures r.Ok? ==> r.value.References? && |s| == |PutConstraintBody(r.value)| + |r.rest|
  {
    var (key, s1) :- GetKey(s);
    var (f, s2) :- GetForeign(s1);
    Ok(References(key.0, key.1, f.table, f.columns, f.matchType, f.action), s2)
  }

  lemma ReferencesThen(c: TableConstraint, rest: Bytes)
    requires c.References?
    ensures GetReferences(PutConstraintBody(c) + rest) == Ok(c, rest)
  {
    var f := Foreign(c.table, c.foreignColumns, c.matchType, c.action);
    Cat(PutKey(c.name, c.columns), PutForeign(f), rest);
    KeyThen(c.name, c.columns, PutForeign(f) + rest);
    ForeignThen(f, rest);
  }

  function PutCheck(name: Text, check: Text): (s: Bytes) {
    PutText(name) + PutText(check)
  }

  function GetCheck(s: Bytes): (r: Parsed<TableConstraint>)
    ensures r.Ok? ==> r.value.Check? && |s| == |PutCheck(r.value.name, r.value.check)| + |r.rest|
  {
    var (name, s1) :- GetText(s);
    var (check, s2) :- GetText(s1);
    Ok(Check(name, check), s2)
  }

  function ConstraintCode(c: TableConstraint): UInt32 {
    match c
    case Unique(_, _) => TABLE_UNIQUE_CONSTRAINT_DEF
    case PrimaryKey(_, _) => TABLE_PRIMARY_CONSTRAINT_DEF
    case References(_, _, _, _, _, _) => TABLE_REFERENCES_CONSTRAINT_DEF
    case Check(_, _) => TABLE_CHECK_CONSTRAINT_DEF
  }

  predicate IsConstraintCode(code: UInt32) {
    || code == TABLE_UNIQUE_CONSTRAINT_DEF || code == TABLE_PRIMARY_CONSTRAINT_DEF
    || code == TABLE_REFERENCES_CONSTRAINT_DEF || code == TABLE_CHECK_CONSTRAINT_DEF
  }

  function PutConstraintBody(c: TableConstraint): (s: Bytes) {
    match c
    case Unique(name, columns) => PutKey(name, columns)
    case PrimaryKey(name, columns) => PutKey(name, columns)
    case References(name, columns, table, foreignColumns, matchType, action) =>
      PutReferences(name, columns, Foreign(table, foreignColumns, matchType, action))
    case Check(name, check) => PutCheck(name, check)
  }

  function GetConstraintBody(code: UInt32, s: Bytes): (r: Parsed<TableConstraint>)
    requires IsConstraintCode(code)
    ensures r.Ok? ==> ConstraintCode(r.value) == code && |s| == |PutConstraintBody(r.value)| + |r.rest|
  {
    if code == TABLE_UNIQUE_CONSTRAINT_DEF then
      var (key, s1) :- GetKey(s);
      Ok(Unique(key.0, key.1), s1)
    else if code == TABLE_PRIMARY_CONSTRAINT_DEF then
      var (key, s1) :- GetKey(s);
      Ok(PrimaryKey(key.0, key.1), s1)
    else if code == TABLE_REFERENCES_CONSTRAINT_DEF then GetReferences(s)
    else GetCheck(s)
  }

  lemma ConstraintBodyThen(c: TableConstraint, rest: Bytes)
    ensures GetConstraintBody(ConstraintCode(c), PutConstraintBody(c) + rest) == Ok(c, rest)
  {
    match c
    case Unique(name, columns) => KeyThen(name, columns, rest);
    case PrimaryKey(name, columns) => KeyThen(name, columns, rest);
    case References(_, _, _, _, _, _) => ReferencesThen(c, rest);
    case Check(name, check) =>
      TextPlus(name, PutText(check), rest);
      TextThen(check, rest);
  }

  function PutConstraint(c: TableConstraint): (s: Bytes) {
    PutQuad(ConstraintCode(c)) + PutConstraintBody(c)
  }

  // In a table definition an unknown type code is an error.
  function GetConstraint(s: Bytes): (r: Parsed<TableConstraint>) {
    var (code, s1) :- GetQuad(s);
    if IsConstraintCode(code) then GetConstraintBody(code, s1) else Bad(BadTypeCode)
  }

  lemma ConstraintsThen(v: Vec<TableConstraint>, rest: Bytes)
    ensures GetVec(GetConstraint, PutVec(PutConstraint, v) + rest) == Ok(v, rest)
  {
    forall x, r | x in v
      ensures GetConstraint(PutConstraint(x) + r) == Ok(x, r)
    {
      QuadPlus(ConstraintCode(x), PutConstraintBody(x), r);
      ConstraintBodyThen(x, r);
    }
    VecThen(PutConstraint, GetConstraint, v, rest);
  }
}
