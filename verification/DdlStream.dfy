/**
 * The byte stream and the loops over it: vectors of any element, the option map, and the actions of an
 * ALTER TABLE statement with the trailer read inside the loop. Every writer appends exactly the wire
 * form; every reader takes from the front exactly what the wire form's reader takes, or fails as it does.
 */
module DdlStream {
  import opened Options
  import opened DdlCodec
  import opened DdlTables
  import opened DdlActions
  import opened DdlStatements

  // A value, or the exception thrown.
  datatype Outcome<+T> = Fail(error: Error) | Value(value: T) {
    predicate IsFailure() {
      Fail?
    }

    function PropagateFailure<U>(): Outcome<U>
      requires Fail?
    {
      Fail(error)
    }

    function Extract(): T
      requires Value?
    {
      value
    }
  }

  ghost predicate Matches<T>(r: Outcome<T>, p: Parsed<T>, rest: Bytes) {
    match p
    case Bad(error) => r == Fail(error)
    case Ok(value, unread) => r == Value(value) && rest == unread
  }

  // The bytes between the read and the write position.
  class ByteStream {
    var data: Bytes

    constructor ()
      ensures data == []
    {
      data := [];
    }

    method Append(bytes: Bytes)
      modifies this
      ensures data == old(data) + bytes
    {
      data := data + bytes;
    }

    method Take<T>(get: Bytes -> Parsed<T>) returns (r: Outcome<T>)
      modifies this
      ensures Matches(r, get(old(data)), data)
    {
      match get(data)
      case Bad(error) => r := Fail(error);
      case Ok(value, rest) => r := Value(value); data := rest;
    }
  }

  // ---------- vectors ----------

  lemma {:induction false} PutAllSnoc<T>(put: T -> Bytes, v: seq<T>, x: T)
    ensures PutAll(put, v + [x]) == PutAll(put, v) + put(x)
  {
    if v == [] {
      assert [x][1..] == [];
    } else {
      assert (v + [x])[1..] == v[1..] + [x];
      PutAllSnoc(put, v[1..], x);
      Cat(put(v[0]), PutAll(put, v[1..]), put(x));
    }
  }

  // One more element of a vector has been written.
  lemma WroteOne<T>(put: T -> Bytes, v: seq<T>, i: nat, before: Bytes)
    requires i < |v|
    ensures before + PutAll(put, v[..i]) + put(v[i]) == before + PutAll(put, v[..i + 1])
  {
    assert v[..i + 1] == v[..i] + [v[i]];
    PutAllSnoc(put, v[..i], v[i]);
    Cat(before, PutAll(put, v[..i]), put(v[i]));
  }

  method WriteAll<T>(put: T -> Bytes, v: seq<T>, bs: ByteStream)
    modifies bs
    ensures bs.data == old(bs.data) + PutAll(put, v)
  {
    assert v[..|v|] == v;
    for i := 0 to |v|
      invariant bs.data == old(bs.data) + PutAll(put, v[..i])
    {
      WroteOne(put, v, i, old(bs.data));
      bs.Append(put(v[i]));
    }
  }

  // write_vec
  method WriteVec<T>(put: T -> Bytes, v: Vec<T>, bs: ByteStream)
    modifies bs
    ensures bs.data == old(bs.data) + PutVec(put, v)
  {
    bs.Append(PutQuad(|v|));
    WriteAll(put, v, bs);
    Cat(old(bs.data), PutQuad(|v|), PutAll(put, v));
  }

  // What is read when some elements have been read already.
  function Prepend<T>(v: seq<T>, p: Parsed<seq<T>>): (r: Parsed<seq<T>>) {
    match p
    case Bad(error) => Bad(error)
    case Ok(w, rest) => Ok(v + w, rest)
  }

  // Of a vector of total elements at start, v has been read and n elements at s are left.
  ghost predicate Reading<T>(get: Bytes -> Parsed<T>, total: nat, start: Bytes, v: seq<T>, n: nat, s: Bytes) {
    |v| + n == total && GetAll(get, total, start) == Prepend(v, GetAll(get, n, s))
  }

  lemma BeginReading<T>(get: Bytes -> Parsed<T>, total: nat, s: Bytes)
    ensures Reading(get, total, s, [], total, s)
  {
    if GetAll(get, total, s).Ok? {
      assert [] + GetAll(get, total, s).value == GetAll(get, total, s).value;
    }
  }

  lemma ReadNext<T>(get: Bytes -> Parsed<T>, total: nat, start: Bytes, v: seq<T>, n: nat, s: Bytes)
    requires Reading(get, total, start, v, n, s) && n > 0
    ensures get(s).Bad? ==> GetAll(get, total, start) == Bad(get(s).error)
    ensures get(s).Ok? ==> Reading(get, total, start, v + [get(s).value], n - 1, get(s).rest)
  {
    if get(s).Ok? {
      var more := GetAll(get, n - 1, get(s).rest);
      if more.Ok? {
        assert v + ([get(s).value] + more.value) == v + [get(s).value] + more.value;
      }
    }
  }

  lemma EndReading<T>(get: Bytes -> Parsed<T>, total: nat, start: Bytes, v: seq<T>, s: Bytes)
    requires Reading(get, total, start, v, 0, s)
    ensures GetAll(get, total, start) == Ok(v, s)
  {
    assert v + [] == v;
  }

  // read_vec
  method ReadVec<T>(get: Bytes -> Parsed<T>, bs: ByteStream) returns (r: Outcome<Vec<T>>)
    modifies bs
    ensures Matches(r, GetVec(get, old(bs.data)), bs.data)
  {
    var total :- bs.Take(GetQuad);
    ghost var start := bs.data;
    var count, v: seq<T> := total, [];
    BeginReading(get, total, start);
    while count > 0
      invariant 0 <= count <= total && Reading(get, total, start, v, count, bs.data)
    {
      ReadNext(get, total, start, v, count, bs.data);
      var x :- bs.Take(get);
      v := v + [x];
      count := count - 1;
    }
    EndReading(get, total, start, v, bs.data);
    return Value(v);
  }

  // ---------- CREATE TABLE ----------

  lemma {:induction false} InsertAllSnoc(m: seq<(Text, Text)>, pairs: seq<(Text, Text)>, e: (Text, Text))
    ensures InsertAll(m, pairs + [e]) == Insert(InsertAll(m, pairs), e)
    decreases pairs
  {
    if pairs == [] {
      assert [e][1..] == [];
    } else {
      assert (pairs + [e])[1..] == pairs[1..] + [e];
      InsertAllSnoc(Insert(m, pairs[0]), pairs[1..], e);
    }
  }

  method InsertNext(m: seq<(Text, Text)>, x: (Text, Text), ghost v: seq<(Text, Text)>)
    returns (r: seq<(Text, Text)>)
    requires m == InsertAll([], v)
    ensures r == InsertAll([], v + [x])
  {
    r := Insert(m, x);
    InsertAllSnoc([], v, x);
  }

  // Every pair read is inserted into the map.
  method ReadOptions(bs: ByteStream) returns (r: Outcome<Vec<(Text, Text)>>)
    modifies bs
    ensures Matches(r, GetOptions(old(bs.data)), bs.data)
  {
    var count :- bs.Take(GetQuad);
    r := ReadPairs(count, GetPair, bs);
  }

  // The loop, for any reader of pairs.
  method ReadPairs(count: UInt32, get: Bytes -> Parsed<(Text, Text)>, bs: ByteStream)
    returns (r: Outcome<Vec<(Text, Text)>>)
    modifies bs
    ensures Matches(r, Inserted(GetAll(get, count, old(bs.data))), bs.data)
  {
    var i: nat, fOptions: seq<(Text, Text)> := 0, [];
    ghost var v: seq<(Text, Text)> := [];
    BeginReading(get, count, bs.data);
    while i < count
      invariant i <= count && Reading(get, count, old(bs.data), v, count - i, bs.data)
      invariant fOptions == InsertAll([], v)
    {
      ReadNext(get, count, old(bs.data), v, count - i, bs.data);
      var x :- bs.Take(get);
      fOptions := InsertNext(fOptions, x, v);
      v := v + [x];
      i := i + 1;
    }
    EndReading(get, count, old(bs.data), v, bs.data);
    return Value(fOptions);
  }

  function Inserted(p: Parsed<seq<(Text, Text)>>): (r: Parsed<seq<(Text, Text)>>) {
    match p
    case Bad(error) => Bad(error)
    case Ok(pairs, rest) => Ok(InsertAll([], pairs), rest)
  }

  lemma Cat3(o: Bytes, a: Bytes, b: Bytes, c: Bytes)
    ensures o + a + b + c == o + (a + (b + c))
  {
  }

  lemma Cat4(o: Bytes, a: Bytes, b: Bytes, c: Bytes, d: Bytes)
    ensures o + a + b + c + d == o + (a + (b + (c + d)))
  {
    Cat3(o + a, b, c, d);
    Cat(o, a, b + (c + d));
  }

  method SerializeTableDef(t: TableDef, bs: ByteStream)
    modifies bs
    ensures bs.data == old(bs.data) + PutTableDef(t)
  {
    bs.Append(PutName(t.name));
    WriteVec(PutColumnDef, t.columns, bs);
    WriteVec(PutConstraint, t.constraints, bs);
    WriteVec(PutPair, t.options, bs);
    Cat4(old(bs.data), PutName(t.name), PutColumnDefs(t.columns), PutVec(PutConstraint, t.constraints),
         PutOptions(t.options));
  }

  method UnserializeTableDef(bs: ByteStream) returns (r: Outcome<TableDef>)
    modifies bs
    ensures Matches(r, GetTableDef(old(bs.data)), bs.data)
  {
    var name :- bs.Take(GetName);
    var columns :- ReadVec(GetColumnDef, bs);
    var constraints :- ReadVec(GetConstraint, bs);
    var options :- ReadOptions(bs);
    return Value(TableDef(name, columns, constraints, options));
  }

  method SerializeCreateTable(c: CreateTable, bs: ByteStream)
    modifies bs
    ensures bs.data == old(bs.data) + PutCreateTable(c)
  {
    bs.Append(PutQuad(CREATE_TABLE_STATEMENT));
    SerializeTableDef(c.table, bs);
    bs.Append(PutTrailer(c.trailer));
    Cat3(old(bs.data), PutQuad(CREATE_TABLE_STATEMENT), PutTableDef(c.table), PutTrailer(c.trailer));
  }

  method UnserializeCreateTable(bs: ByteStream) returns (r: Outcome<CreateTable>)
    modifies bs
    ensures Matches(r, GetCreateTable(old(bs.data)), bs.data)
  {
    var table :- UnserializeTableDef(bs);
    var trailer :- bs.Take(GetTrailer);
    return Value(CreateTable(table, trailer));
  }

  // ---------- ALTER TABLE ----------

  // What is read of the actions when some have been read already.
  function PrependActions(v: seq<Action>, p: Parsed<(seq<Action>, Trailer)>): (r: Parsed<(seq<Action>, Trailer)>) {
    match p
    case Bad(error) => Bad(error)
    case Ok(w, rest) => Ok((v + w.0, w.1), rest)
  }

  ghost predicate ReadingActions(get: Getter, total: nat, start: Bytes, initial: Trailer,
                                 v: seq<Action>, trailer: Trailer, n: nat, s: Bytes) {
    |v| + n == total && GetActions(get, total, start, initial) == PrependActions(v, GetActions(get, n, s, trailer))
  }

  lemma BeginActions(get: Getter, total: nat, s: Bytes, initial: Trailer)
    ensures ReadingActions(get, total, s, initial, [], initial, total, s)
  {
    var p := GetActions(get, total, s, initial);
    if p.Ok? {
      assert [] + p.value.0 == p.value.0;
    }
  }

  lemma NextAction(get: Getter, total: nat, start: Bytes, initial: Trailer,
                   v: seq<Action>, trailer: Trailer, n: nat, s: Bytes)
    requires ReadingActions(get, total, start, initial, v, trailer, n, s) && n > 0
    ensures get(s).Bad? ==> GetActions(get, total, start, initial) == Bad(get(s).error)
    ensures get(s).Ok? ==>
              ReadingActions(get, total, start, initial, v + [get(s).value.0], get(s).value.1, n - 1, get(s).rest)
  {
    if get(s).Ok? {
      var more := GetActions(get, n - 1, get(s).rest, get(s).value.1);
      if more.Ok? {
        assert v + ([get(s).value.0] + more.value.0) == v + [get(s).value.0] + more.value.0;
      }
    }
  }

  lemma EndActions(get: Getter, total: nat, start: Bytes, initial: Trailer, v: seq<Action>, trailer: Trailer, s: Bytes)
    requires ReadingActions(get, total, start, initial, v, trailer, 0, s)
    ensures GetActions(get, total, start, initial) == Ok((v, trailer), s)
  {
    assert v + [] == v;
  }

  // The loop of AlterTableStatement::unserialize: every round reads an action and a trailer.
  method ReadActions(actionCount: UInt32, initial: Trailer, get: Getter, bs: ByteStream)
    returns (r: Outcome<(seq<Action>, Trailer)>)
    modifies bs
    ensures Matches(r, GetActions(get, actionCount, old(bs.data), initial), bs.data)
  {
    var i: nat, fActions: seq<Action>, trailer := 0, [], initial;
    BeginActions(get, actionCount, bs.data, initial);
    while i < actionCount
      invariant i <= actionCount
      invariant ReadingActions(get, actionCount, old(bs.data), initial, fActions, trailer, actionCount - i, bs.data)
    {
      NextAction(get, actionCount, old(bs.data), initial, fActions, trailer, actionCount - i, bs.data);
      var step :- bs.Take(get);
      fActions, trailer, i := fActions + [step.0], step.1, i + 1;
    }
    EndActions(get, actionCount, old(bs.data), initial, fActions, trailer, bs.data);
    return Value((fActions, trailer));
  }

  method UnserializeAlterTable(initial: Trailer, get: Getter, bs: ByteStream) returns (r: Outcome<AlterTable>)
    modifies bs
    ensures Matches(r, GetAlterBody(get, old(bs.data), initial), bs.data)
  {
    var h :- bs.Take(GetHead);
    var actions :- ReadActions(h.count, initial, get, bs);
    return Value(AlterTable(h.table, FromOct(h.timeZone), actions.0, actions.1));
  }

  // AlterTableStatement::serialize: the trailer follows the vector of actions once.
  method SerializeAlterTable(a: AlterTable, put: Putter, bs: ByteStream)
    modifies bs
    ensures bs.data == old(bs.data) + PutAlterWith(put, a)
  {
    var h := Head(a.table, AsOct(a.timeZone), |a.actions|);
    bs.Append(PutQuad(ALTER_TABLE_STATEMENT));
    bs.Append(PutHead(h));
    WriteAll(put, a.actions, bs);
    bs.Append(PutTrailer(a.trailer));
    Cat4(old(bs.data), PutQuad(ALTER_TABLE_STATEMENT), PutHead(h), PutAll(put, a.actions), PutTrailer(a.trailer));
  }

  // ---------- the receiver ----------

  method UnserializeStatement(initial: Trailer, get: Getter, bs: ByteStream) returns (r: Outcome<Statement>)
    modifies bs
    ensures Matches(r, GetStatementWith(get, old(bs.data), initial), bs.data)
  {
    var code :- bs.Take(GetQuad);
    if code == CREATE_TABLE_STATEMENT {
      var c :- UnserializeCreateTable(bs);
      return Value(Create(c));
    } else if code == ALTER_TABLE_STATEMENT {
      var a :- UnserializeAlterTable(initial, get, bs);
      return Value(Alter(a));
    } else {
      return Fail(BadTypeCode);
    }
  }

  // A statement is written to a stream, anything is written after it, and the receiver reads. It gets
  // the statement and leaves exactly what follows, if and only if all column lengths fit in 32 bits.
  method CreateTableTrip(c: CreateTable, initial: Trailer, rest: Bytes)
    returns (r: Outcome<Statement>, unread: Bytes)
    ensures (r == Value(Create(c)) && unread == rest) <==> c.table.Fits() && Sorted(c.table.options)
  {
    var bs := new ByteStream();
    SerializeCreateTable(c, bs);
    bs.Append(rest);
    assert [] + PutCreateTable(c) == PutCreateTable(c);
    CreateTableRoundTrip(c, initial, rest);
    r := UnserializeStatement(initial, GetActionAndTrailer, bs);
    unread := bs.data;
  }

  // The same for ALTER TABLE: if and only if there is exactly one action and its lengths fit.
  method AlterTableTrip(a: AlterTable, initial: Trailer, rest: Bytes)
    returns (r: Outcome<Statement>, unread: Bytes)
    requires forall x :: x in a.actions ==> !x.AddNothing?
    ensures (r == Value(Alter(a)) && unread == rest) <==> |a.actions| == 1 && a.actions[0].Fits()
  {
    var bs := new ByteStream();
    SerializeAlterTable(a, PutAction, bs);
    bs.Append(rest);
    assert [] + PutAlterTable(a) == PutAlterTable(a);
    AlterTableRoundTrip(a, initial, rest);
    r := UnserializeStatement(initial, GetActionAndTrailer, bs);
    unread := bs.data;
  }
}
