/** The wire form of the actions of an ALTER TABLE statement. */
module DdlActions {
  import opened DdlCodec
  import opened Options

  function ActionCode(a: Action): UInt32 {
    match a
    case AddColumn(_) => ATA_ADD_COLUMN
    case AddColumns(_) => ATA_ADD_COLUMNS
    case DropColumn(_, _) => ATA_DROP_COLUMN
    case DropColumns(_) => ATA_DROP_COLUMNS
    case AddTableConstraint(_) => ATA_ADD_TABLE_CONSTRAINT
    case AddNothing(_) => ATA_ADD_TABLE_CONSTRAINT
    case SetColumnDefault(_, _) => ATA_SET_COLUMN_DEFAULT
    case DropColumnDefault(_) => ATA_DROP_COLUMN_DEFAULT
    case DropTableConstraint(_, _) => ATA_DROP_TABLE_CONSTRAINT
    case RenameTable(_) => ATA_RENAME_TABLE
    case RenameColumn(_, _, _, _, _) => ATA_RENAME_COLUMN
    case ModifyColumnType(_, _) => ATA_MODIFY_COLUMN_TYPE
    case TableComment(_) => ATA_TABLE_COMMENT
  }

  function PutNameAndQuad(name: Text, q: UInt32): (s: Bytes) {
    PutText(name) + PutQuad(q)
  }

  function PutRename(newType: ColumnType, constraints: Vec<ColumnConstraint>,
                     default: Option<DefaultValue>): (s: Bytes) {
    PutColumnType(newType) + (PutColumnConstraints(constraints) + PutDefault(default))
  }

  function PutActionBody(a: Action): (s: Bytes) {
    match a
    case AddColumn(c) => PutColumnDef(c)
    case AddColumns(cs) => PutColumnDefs(cs)
    case DropColumn(name, behavior) => PutNameAndQuad(name, behavior)
    case DropColumns(names) => PutNames(names)
    case AddTableConstraint(c) => PutConstraint(c)
    case AddNothing(code) => PutQuad(code)
    case SetColumnDefault(name, value) => PutText(name) + PutDefaultValue(value)
    case DropColumnDefault(name) => PutText(name)
    case DropTableConstraint(name, behavior) => PutNameAndQuad(name, behavior)
    case RenameTable(table) => PutName(table)
    case RenameColumn(name, newName, newType, constraints, default) =>
      PutText(name) + (PutText(newName) + PutRename(newType, constraints, default))
    case ModifyColumnType(t, name) => PutColumnType(t) + PutText(name)
    case TableComment(comment) => PutText(comment)
  }

  function GetAddColumn(s: Bytes): (r: Parsed<Action>)
    ensures r.Ok? ==> r.value.AddColumn?
    ensures r.Ok? ==> r.value.column.Fits() && |s| == |PutColumnDef(r.value.column)| + |r.rest|
  {
    var (c, s1) :- GetColumnDef(s);
    Ok(AddColumn(c), s1)
  }

  function GetAddColumns(s: Bytes): (r: Parsed<Action>)
    ensures r.Ok? ==> r.value.AddColumns?
    ensures r.Ok? ==> forall c :: c in r.value.columns ==> c.Fits()
    ensures r.Ok? ==> |s| == |PutColumnDefs(r.value.columns)| + |r.rest|
  {
    var (cs, s1) :- GetColumnDefs(s);
    ColumnDefsRead(s);
    Ok(AddColumns(cs), s1)
  }

  function GetNameAndQuad(s: Bytes): (r: Parsed<(Text, UInt32)>)
    ensures r.Ok? ==> |s| == |PutNameAndQuad(r.value.0, r.value.1)| + |r.rest|
  {
    var (name, s1) :- GetText(s);
    var (q, s2) :- GetQuad(s1);
    Ok((name, q), s2)
  }

  function GetDropColumn(s: Bytes): (r: Parsed<Action>)
    ensures r.Ok? ==> r.value.DropColumn?
    ensures r.Ok? ==> |s| == |PutNameAndQuad(r.value.columnName, r.value.behavior)| + |r.rest|
  {
    var (p, s1) :- GetNameAndQuad(s);
    Ok(DropColumn(p.0, p.1), s1)
  }

  function GetDropTableConstraint(s: Bytes): (r: Parsed<Action>)
    ensures r.Ok? ==> r.value.DropTableConstraint?
    ensures r.Ok? ==> |s| == |PutNameAndQuad(r.value.constraintName, r.value.behavior)| + |r.rest|
  {
    var (p, s1) :- GetNameAndQuad(s);
    Ok(DropTableConstraint(p.0, p.1), s1)
  }

  function GetDropColumns(s: Bytes): (r: Parsed<Action>)
    ensures r.Ok? ==> r.value.DropColumns?
    ensures r.Ok? ==> |s| == |PutNames(r.value.names)| + |r.rest|
  {
    var (names, s1) :- GetNames(s);
    NamesLength(s);
    Ok(DropColumns(names), s1)
  }

  // Here an unknown type code is passed over.
  function GetAddTableConstraint(s: Bytes): (r: Parsed<Action>)
    ensures r.Ok? ==> r.value.AddTableConstraint? || r.value.AddNothing?
    ensures r.Ok? && r.value.AddTableConstraint? ==> |s| == |PutConstraint(r.value.constraint)| + |r.rest|
    ensures r.Ok? && r.value.AddNothing? ==> |s| == 4 + |r.rest|
    ensures GetQuad(s).Ok? && !IsConstraintCode(GetQuad(s).value) ==>
              r == Ok(AddNothing(GetQuad(s).value), GetQuad(s).rest)
  {
    var (code, s1) :- GetQuad(s);
    if IsConstraintCode(code) then
      var (c, s2) :- GetConstraintBody(code, s1);
      Ok(AddTableConstraint(c), s2)
    else Ok(AddNothing(code), s1)
  }

  function GetSetColumnDefault(s: Bytes): (r: Parsed<Action>)
    ensures r.Ok? ==> r.value.SetColumnDefault?
    ensures r.Ok? ==> |s| == |PutText(r.value.columnName)| + |PutDefaultValue(r.value.value)| + |r.rest|
  {
    var (name, s1) :- GetText(s);
    var (value, s2) :- GetDefaultValue(s1);
    Ok(SetColumnDefault(name, value), s2)
  }

  function GetDropColumnDefault(s: Bytes): (r: Parsed<Action>)
    ensures r.Ok? ==> r.value.DropColumnDefault?
    ensures r.Ok? ==> |s| == |PutText(r.value.columnName)| + |r.rest|
  {
    var (name, s1) :- GetText(s);
    Ok(DropColumnDefault(name), s1)
  }

  function GetRenameTable(s: Bytes): (r: Parsed<Action>)
    ensures r.Ok? ==> r.value.RenameTable?
    ensures r.Ok? ==> |s| == |PutName(r.value.table)| + |r.rest|
  {
    var (table, s1) :- GetName(s);
    Ok(RenameTable(table), s1)
  }

  function GetRenameColumn(s: Bytes): (r: Parsed<Action>)
    ensures r.Ok? ==> r.value.RenameColumn?
    ensures r.Ok? ==> r.value.newType.Fits() && |s| == |PutText(r.value.columnName)| + |PutText(r.value.newName)|
                      + |PutRename(r.value.newType, r.value.constraints, r.value.default)| + |r.rest|
  {
    var (name, s1) :- GetText(s);
    var (newName, s2) :- GetText(s1);
    var (newType, s3) :- GetColumnType(s2);
    var (constraints, s4) :- GetColumnConstraints(s3);
    var (default, s5) :- GetDefault(s4);
    ColumnConstraintsLength(s3);
    Ok(RenameColumn(name, newName, newType, constraints, default), s5)
  }

  function GetModifyColumnType(s: Bytes): (r: Parsed<Action>)
    ensures r.Ok? ==> r.value.ModifyColumnType?
    ensures r.Ok? ==> r.value.colType.Fits()
    ensures r.Ok? ==> |s| == |PutColumnType(r.value.colType)| + |PutText(r.value.columnName)| + |r.rest|
  {
    var (t, s1) :- GetColumnType(s);
    var (name, s2) :- GetText(s1);
    Ok(ModifyColumnType(t, name), s2)
  }

  function GetTableComment(s: Bytes): (r: Parsed<Action>)
    ensures r.Ok? ==> r.value.TableComment?
    ensures r.Ok? ==> |s| == |PutText(r.value.comment)| + |r.rest|
  {
    var (comment, s1) :- GetText(s);
    Ok(TableComment(comment), s1)
  }

  function GetUnknownAction(s: Bytes): (r: Parsed<Action>) {
    Bad(BadTypeCode)
  }

  function ActionReader(code: UInt32): Bytes -> Parsed<Action> {
    if code == ATA_ADD_COLUMN then GetAddColumn
    else if code == ATA_ADD_COLUMNS then GetAddColumns
    else if code == ATA_DROP_COLUMN then GetDropColumn
    else if code == ATA_DROP_COLUMNS then GetDropColumns
    else if code == ATA_ADD_TABLE_CONSTRAINT then GetAddTableConstraint
    else if code == ATA_SET_COLUMN_DEFAULT then GetSetColumnDefault
    else if code == ATA_DROP_COLUMN_DEFAULT then GetDropColumnDefault
    else if code == ATA_DROP_TABLE_CONSTRAINT then GetDropTableConstraint
    else if code == ATA_RENAME_TABLE then GetRenameTable
    else if code == ATA_RENAME_COLUMN then GetRenameColumn
    else if code == ATA_MODIFY_COLUMN_TYPE then GetModifyColumnType
    else if code == ATA_TABLE_COMMENT then GetTableComment
    else GetUnknownAction
  }

  function GetActionBody(code: UInt32, s: Bytes): (r: Parsed<Action>) {
    ActionReader(code)(s)
  }

  lemma ReadersByCode()
    ensures ActionReader(ATA_ADD_COLUMN) == GetAddColumn
    ensures ActionReader(ATA_ADD_COLUMNS) == GetAddColumns
    ensures ActionReader(ATA_DROP_COLUMN) == GetDropColumn
    ensures ActionReader(ATA_DROP_COLUMNS) == GetDropColumns
    ensures ActionReader(ATA_ADD_TABLE_CONSTRAINT) == GetAddTableConstraint
    ensures ActionReader(ATA_SET_COLUMN_DEFAULT) == GetSetColumnDefault
    ensures ActionReader(ATA_DROP_COLUMN_DEFAULT) == GetDropColumnDefault
    ensures ActionReader(ATA_DROP_TABLE_CONSTRAINT) == GetDropTableConstraint
    ensures ActionReader(ATA_RENAME_TABLE) == GetRenameTable
    ensures ActionReader(ATA_RENAME_COLUMN) == GetRenameColumn
    ensures ActionReader(ATA_MODIFY_COLUMN_TYPE) == GetModifyColumnType
    ensures ActionReader(ATA_TABLE_COMMENT) == GetTableComment
  {
  }

  // What reading an action body promises of every input.
  ghost predicate Reads(code: UInt32, s: Bytes, r: Parsed<Action>) {
    r.Ok? ==> && ActionCode(r.value) == code && r.value.Fits()
              && |s| == |PutActionBody(r.value)| + |r.rest|
  }

  lemma ReadsVia(code: UInt32, s: Bytes, read: Bytes -> Parsed<Action>, body: Bytes)
    requires ActionReader(code) == read && read(s).Ok?
    requires PutActionBody(read(s).value) == body && |s| == |body| + |read(s).rest|
    requires ActionCode(read(s).value) == code && read(s).value.Fits()
    ensures Reads(code, s, GetActionBody(code, s))
  {
  }

  lemma ColumnActionReads(code: UInt32, s: Bytes)
    requires code == ATA_ADD_COLUMN
             || code == ATA_ADD_COLUMNS
             || code == ATA_DROP_COLUMN
             || code == ATA_DROP_COLUMNS
    requires GetActionBody(code, s).Ok?
    ensures Reads(code, s, GetActionBody(code, s))
  {
    ReadersByCode();
    var a := GetActionBody(code, s).value;
    if code == ATA_ADD_COLUMN {
      ReadsVia(code, s, GetAddColumn, PutColumnDef(a.column));
    } else if code == ATA_ADD_COLUMNS {
      ReadsVia(code, s, GetAddColumns, PutColumnDefs(a.columns));
    } else if code == ATA_DROP_COLUMN {
      ReadsVia(code, s, GetDropColumn, PutNameAndQuad(a.columnName, a.behavior));
    } else {
      ReadsVia(code, s, GetDropColumns, PutNames(a.names));
    }
  }

  lemma ConstraintActionReads(code: UInt32, s: Bytes)
    requires code == ATA_ADD_TABLE_CONSTRAINT
             || code == ATA_SET_COLUMN_DEFAULT
             || code == ATA_DROP_COLUMN_DEFAULT
             || code == ATA_DROP_TABLE_CONSTRAINT
    requires GetActionBody(code, s).Ok?
    ensures Reads(code, s, GetActionBody(code, s))
  {
    ReadersByCode();
    var a := GetActionBody(code, s).value;
    if code == ATA_ADD_TABLE_CONSTRAINT {
      ReadsVia(code, s, GetAddTableConstraint, if a.AddNothing? then PutQuad(a.code) else PutConstraint(a.constraint));
    } else if code == ATA_SET_COLUMN_DEFAULT {
      ReadsVia(code, s, GetSetColumnDefault, PutText(a.columnName) + PutDefaultValue(a.value));
    } else if code == ATA_DROP_COLUMN_DEFAULT {
      ReadsVia(code, s, GetDropColumnDefault, PutText(a.columnName));
    } else {
      ReadsVia(code, s, GetDropTableConstraint, PutNameAndQuad(a.constraintName, a.behavior));
    }
  }

  lemma OtherActionReads(code: UInt32, s: Bytes)
    requires code == ATA_RENAME_TABLE
             || code == ATA_RENAME_COLUMN
             || code == ATA_MODIFY_COLUMN_TYPE
             || code == ATA_TABLE_COMMENT
    requires GetActionBody(code, s).Ok?
    ensures Reads(code, s, GetActionBody(code, s))
  {
    ReadersByCode();
    var a := GetActionBody(code, s).value;
    if code == ATA_RENAME_TABLE {
      ReadsVia(code, s, GetRenameTable, PutName(a.table));
    } else if code == ATA_RENAME_COLUMN {
      ReadsVia(code, s, GetRenameColumn,
               PutText(a.columnName) + (PutText(a.newName) + PutRename(a.newType, a.constraints, a.default)));
    } else if code == ATA_MODIFY_COLUMN_TYPE {
      ReadsVia(code, s, GetModifyColumnType, PutColumnType(a.colType) + PutText(a.columnName));
    } else {
      ReadsVia(code, s, GetTableComment, PutText(a.comment));
    }
  }

  lemma ActionBodyReads(code: UInt32, s: Bytes)
    ensures Reads(code, s, GetActionBody(code, s))
  {
    if GetActionBody(code, s).Ok? {
      if code == ATA_ADD_COLUMN || code == ATA_ADD_COLUMNS || code == ATA_DROP_COLUMN || code == ATA_DROP_COLUMNS {
        ColumnActionReads(code, s);
      } else if code == ATA_ADD_TABLE_CONSTRAINT || code == ATA_SET_COLUMN_DEFAULT
                || code == ATA_DROP_COLUMN_DEFAULT || code == ATA_DROP_TABLE_CONSTRAINT {
        ConstraintActionReads(code, s);
      } else if ATA_ADD_COLUMN > code || code > ATA_TABLE_COMMENT {
        UnknownCodeIsRefused(code, s);
      } else {
        OtherActionReads(code, s);
      }
    }
  }

  lemma UnknownCodeIsRefused(code: UInt32, s: Bytes)
    requires ATA_ADD_COLUMN > code || code > ATA_TABLE_COMMENT
    requires code != ATA_DROP_COLUMNS
    ensures GetActionBody(code, s) == Bad(BadTypeCode)
  {
  }

  lemma AddColumnThen(c: ColumnDef, rest: Bytes)
    requires c.Fits()
    ensures GetAddColumn(PutColumnDef(c) + rest) == Ok(AddColumn(c), rest)
  {
    ColumnDefThen(c, rest);
  }

  lemma AddColumnsThen(v: Vec<ColumnDef>, rest: Bytes)
    requires forall c :: c in v ==> c.Fits()
    ensures GetAddColumns(PutColumnDefs(v) + rest) == Ok(AddColumns(v), rest)
  {
    ColumnDefsThen(v, rest);
  }

  lemma NameAndQuadThen(name: Text, q: UInt32, rest: Bytes)
    ensures GetNameAndQuad(PutNameAndQuad(name, q) + rest) == Ok((name, q), rest)
  {
    TextPlus(name, PutQuad(q), rest);
    QuadThen(q, rest);
  }

  lemma DropColumnThen(name: Text, behavior: UInt32, rest: Bytes)
    ensures GetDropColumn(PutNameAndQuad(name, behavior) + rest) == Ok(DropColumn(name, behavior), rest)
  {
    NameAndQuadThen(name, behavior, rest);
  }

  lemma DropTableConstraintThen(name: Text, behavior: UInt32, rest: Bytes)
    ensures GetDropTableConstraint(PutNameAndQuad(name, behavior) + rest)
            == Ok(DropTableConstraint(name, behavior), rest)
  {
    NameAndQuadThen(name, behavior, rest);
  }

  lemma DropColumnsThen(names: Vec<Text>, rest: Bytes)
    ensures GetDropColumns(PutNames(names) + rest) == Ok(DropColumns(names), rest)
  {
    NamesThen(names, rest);
  }

  lemma AddTableConstraintThen(c: TableConstraint, rest: Bytes)
    ensures GetAddTableConstraint(PutConstraint(c) + rest) == Ok(AddTableConstraint(c), rest)
  {
    QuadPlus(ConstraintCode(c), PutConstraintBody(c), rest);
    ConstraintBodyThen(c, rest);
  }

  lemma SetColumnDefaultThen(name: Text, value: DefaultValue, rest: Bytes)
    ensures GetSetColumnDefault(PutText(name) + PutDefaultValue(value) + rest)
            == Ok(SetColumnDefault(name, value), rest)
  {
    TextPlus(name, PutDefaultValue(value), rest);
    DefaultValueThen(value, rest);
  }

  lemma DropColumnDefaultThen(name: Text, rest: Bytes)
    ensures GetDropColumnDefault(PutText(name) + rest) == Ok(DropColumnDefault(name), rest)
  {
    TextThen(name, rest);
  }

  lemma TableCommentThen(comment: Text, rest: Bytes)
    ensures GetTableComment(PutText(comment) + rest) == Ok(TableComment(comment), rest)
  {
    TextThen(comment, rest);
  }

  lemma RenameTableThen(table: QualifiedName, rest: Bytes)
    ensures GetRenameTable(PutName(table) + rest) == Ok(RenameTable(table), rest)
  {
    NameThen(table, rest);
  }

  lemma RenameColumnThen(a: Action, rest: Bytes)
    requires a.RenameColumn? && a.Fits()
    ensures GetRenameColumn(PutText(a.columnName)
                            + (PutText(a.newName) + PutRename(a.newType, a.constraints, a.default)) + rest)
            == Ok(a, rest)
  {
    var r3 := PutColumnConstraints(a.constraints) + PutDefault(a.default);
    var r2 := PutRename(a.newType, a.constraints, a.default);
    TextPlus(a.columnName, PutText(a.newName) + r2, rest);
    TextPlus(a.newName, r2, rest);
    Cat(PutColumnType(a.newType), r3, rest);
    ColumnTypeThen(a.newType, r3 + rest);
    Cat(PutColumnConstraints(a.constraints), PutDefault(a.default), rest);
    ColumnConstraintsThen(a.constraints, PutDefault(a.default) + rest);
    DefaultThen(a.default, rest);
  }

  lemma ModifyColumnTypeThen(t: ColumnType, name: Text, rest: Bytes)
    requires t.Fits()
    ensures GetModifyColumnType(PutColumnType(t) + PutText(name) + rest) == Ok(ModifyColumnType(t, name), rest)
  {
    Cat(PutColumnType(t), PutText(name), rest);
    ColumnTypeThen(t, PutText(name) + rest);
    TextThen(name, rest);
  }

  lemma ReadVia(a: Action, read: Bytes -> Parsed<Action>, body: Bytes, rest: Bytes)
    requires ActionReader(ActionCode(a)) == read && PutActionBody(a) == body && read(body + rest) == Ok(a, rest)
    ensures GetActionBody(ActionCode(a), PutActionBody(a) + rest) == Ok(a, rest)
  {
  }

  lemma ColumnActionThen(a: Action, rest: Bytes)
    requires a.Fits() && (a.AddColumn? || a.AddColumns? || a.DropColumn? || a.DropColumns?)
    ensures GetActionBody(ActionCode(a), PutActionBody(a) + rest) == Ok(a, rest)
  {
    ReadersByCode();
    if a.AddColumn? {
      AddColumnThen(a.column, rest);
      ReadVia(a, GetAddColumn, PutColumnDef(a.column), rest);
    } else if a.AddColumns? {
      AddColumnsThen(a.columns, rest);
      ReadVia(a, GetAddColumns, PutColumnDefs(a.columns), rest);
    } else if a.DropColumn? {
      DropColumnThen(a.columnName, a.behavior, rest);
      ReadVia(a, GetDropColumn, PutNameAndQuad(a.columnName, a.behavior), rest);
    } else {
      DropColumnsThen(a.names, rest);
      ReadVia(a, GetDropColumns, PutNames(a.names), rest);
    }
  }

  lemma ConstraintActionThen(a: Action, rest: Bytes)
    requires a.Fits()
    requires a.AddTableConstraint? || a.SetColumnDefault? || a.DropColumnDefault? || a.DropTableConstraint?
    ensures GetActionBody(ActionCode(a), PutActionBody(a) + rest) == Ok(a, rest)
  {
    ReadersByCode();
    if a.AddTableConstraint? {
      AddTableConstraintThen(a.constraint, rest);
      ReadVia(a, GetAddTableConstraint, PutConstraint(a.constraint), rest);
    } else if a.SetColumnDefault? {
      SetColumnDefaultThen(a.columnName, a.value, rest);
      ReadVia(a, GetSetColumnDefault, PutText(a.columnName) + PutDefaultValue(a.value), rest);
    } else if a.DropColumnDefault? {
      DropColumnDefaultThen(a.columnName, rest);
      ReadVia(a, GetDropColumnDefault, PutText(a.columnName), rest);
    } else {
      DropTableConstraintThen(a.constraintName, a.behavior, rest);
      ReadVia(a, GetDropTableConstraint, PutNameAndQuad(a.constraintName, a.behavior), rest);
    }
  }

  lemma OtherActionThen(a: Action, rest: Bytes)
    requires a.Fits() && (a.RenameTable? || a.RenameColumn? || a.ModifyColumnType? || a.TableComment?)
    ensures GetActionBody(ActionCode(a), PutActionBody(a) + rest) == Ok(a, rest)
  {
    ReadersByCode();
    if a.RenameTable? {
      RenameTableThen(a.table, rest);
      ReadVia(a, GetRenameTable, PutName(a.table), rest);
    } else if a.RenameColumn? {
      RenameColumnThen(a, rest);
      ReadVia(a, GetRenameColumn,
              PutText(a.columnName) + (PutText(a.newName) + PutRename(a.newType, a.constraints, a.default)), rest);
    } else if a.ModifyColumnType? {
      ModifyColumnTypeThen(a.colType, a.columnName, rest);
      ReadVia(a, GetModifyColumnType, PutColumnType(a.colType) + PutText(a.columnName), rest);
    } else {
      TableCommentThen(a.comment, rest);
      ReadVia(a, GetTableComment, PutText(a.comment), rest);
    }
  }

  lemma ActionBodyThen(a: Action, rest: Bytes)
    requires a.Fits() && !a.AddNothing?
    ensures GetActionBody(ActionCode(a), PutActionBody(a) + rest) == Ok(a, rest)
  {
    if a.AddColumn? || a.AddColumns? || a.DropColumn? || a.DropColumns? {
      ColumnActionThen(a, rest);
    } else if a.AddTableConstraint? || a.SetColumnDefault? || a.DropColumnDefault? || a.DropTableConstraint? {
      ConstraintActionThen(a, rest);
    } else {
      OtherActionThen(a, rest);
    }
  }

  function PutAction(a: Action): (s: Bytes) {
    PutQuad(ActionCode(a)) + PutActionBody(a)
  }

  // The type code picks the reader.
  function GetAction(s: Bytes): (r: Parsed<Action>) {
    var (code, s1) :- GetQuad(s);
    GetActionBody(code, s1)
  }

  lemma ActionThen(a: Action, rest: Bytes)
    requires a.Fits() && !a.AddNothing?
    ensures GetAction(PutAction(a) + rest) == Ok(a, rest)
  {
    QuadPlus(ActionCode(a), PutActionBody(a), rest);
    ActionBodyThen(a, rest);
  }

  lemma ActionReads(s: Bytes)
    requires GetAction(s).Ok?
    ensures GetAction(s).value.Fits()
    ensures |s| == |PutAction(GetAction(s).value)| + |GetAction(s).rest|
  {
    ActionBodyReads(GetQuad(s).value, GetQuad(s).rest);
  }

  lemma UnknownActionIsRefused(code: UInt32, rest: Bytes)
    requires ATA_ADD_COLUMN > code || code > ATA_TABLE_COMMENT
    requires code != ATA_DROP_COLUMNS
    ensures GetAction(PutQuad(code) + rest) == Bad(BadTypeCode)
  {
    QuadThen(code, rest);
    UnknownCodeIsRefused(code, rest);
  }
}
