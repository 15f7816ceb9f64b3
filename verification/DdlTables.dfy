/** The wire form of table definitions and of the CREATE TABLE statement. */
module DdlTables {
  import opened DdlCodec

  // ---------- table options ----------

  // The order of the keys of the option map.
  predicate Less(a: Bytes, b: Bytes) {
    if b == [] then false
    else if a == [] then true
    else if a[0] != b[0] then a[0] < b[0]
    else Less(a[1..], b[1..])
  }

  lemma {:induction false} LessIsTotal(a: Bytes, b: Bytes)
    ensures a == b || Less(a, b) || Less(b, a)
    ensures !(Less(a, b) && (a == b || Less(b, a)))
  {
    if a != [] && b != [] {
      LessIsTotal(a[1..], b[1..]);
      if a[0] == b[0] {
        assert a == [a[0]] + a[1..];
        assert b == [b[0]] + b[1..];
      }
    }
  }

  lemma {:induction false} LessIsTransitive(a: Bytes, b: Bytes, c: Bytes)
    requires Less(a, b) && Less(b, c)
    ensures Less(a, c)
  {
    if a != [] && a[0] == b[0] == c[0] {
      LessIsTransitive(a[1..], b[1..], c[1..]);
    }
  }

  // After a common beginning, the end of the string or the smaller byte comes first.
  lemma {:induction false} LessAfterPrefix(a: Bytes, b: Bytes, k: nat)
    requires k <= |a| && k < |b| && (forall i :: 0 <= i < k ==> a[i] == b[i])
    requires k == |a| || a[k] < b[k]
    ensures Less(a, b)
  {
    if k > 0 {
      LessAfterPrefix(a[1..], b[1..], k - 1);
    }
  }

  ghost predicate Sorted(m: seq<(Text, Text)>) {
    forall i, j :: 0 <= i < j < |m| ==> Less(m[i].0, m[j].0)
  }

  // Insertion into the map: a key that is there keeps its value.
  function Insert(m: seq<(Text, Text)>, e: (Text, Text)): (r: seq<(Text, Text)>)
    ensures |r| <= |m| + 1
  {
    if m == [] then [e]
    else if Less(e.0, m[0].0) then [e] + m
    else if e.0 == m[0].0 then m
    else [m[0]] + Insert(m[1..], e)
  }

  // A key that is there keeps its value.
  lemma {:induction false} InsertPresent(m: seq<(Text, Text)>, e: (Text, Text), i: nat)
    requires Sorted(m) && i < |m| && m[i].0 == e.0
    ensures Insert(m, e) == m
  {
    SortedSplit(m);
    LessIsTotal(e.0, m[0].0);
    if i > 0 {
      assert m[1..][i - 1] == m[i] && m[i] in m[1..];
      LessIsTotal(m[0].0, e.0);
      InsertPresent(m[1..], e, i - 1);
    }
  }

  // A new one is added.
  lemma {:induction false} InsertNew(m: seq<(Text, Text)>, e: (Text, Text))
    requires forall i :: 0 <= i < |m| ==> m[i].0 != e.0
    ensures e in Insert(m, e) && |Insert(m, e)| == |m| + 1
    ensures forall x :: x in m ==> x in Insert(m, e)
  {
    if m != [] {
      InsertNew(m[1..], e);
      assert m == [m[0]] + m[1..];
    }
  }

  ghost predicate AllLess(k: Bytes, m: seq<(Text, Text)>) {
    forall e :: e in m ==> Less(k, e.0)
  }

  lemma SortedSplit(m: seq<(Text, Text)>)
    requires m != []
    ensures Sorted(m) <==> AllLess(m[0].0, m[1..]) && Sorted(m[1..])
  {
    if Sorted(m) {
      forall e | e in m[1..]
        ensures Less(m[0].0, e.0)
      {
        var i :| 0 <= i < |m[1..]| && m[1..][i] == e;
        assert m[i + 1] == e;
      }
    }
    if AllLess(m[0].0, m[1..]) && Sorted(m[1..]) {
      forall i, j | 0 <= i < j < |m|
        ensures Less(m[i].0, m[j].0)
      {
        assert m[j] == m[1..][j - 1];
        assert m[j] in m[1..];
        if i > 0 {
          assert m[i] == m[1..][i - 1];
        }
      }
    }
  }

  lemma {:induction false} InsertKeepsSorted(m: seq<(Text, Text)>, e: (Text, Text))
    requires Sorted(m)
    ensures Sorted(Insert(m, e))
    ensures forall x :: x in Insert(m, e) ==> x == e || x in m
  {
    var r := Insert(m, e);
    if m != [] {
      SortedSplit(m);
      LessIsTotal(e.0, m[0].0);
      assert m == [m[0]] + m[1..];
      if Less(e.0, m[0].0) {
        assert r[1..] == m;
        forall x | x in m
          ensures Less(e.0, x.0)
        {
          if x != m[0] {
            LessIsTransitive(e.0, m[0].0, x.0);
          }
        }
        SortedSplit(r);
      } else if e.0 != m[0].0 {
        InsertKeepsSorted(m[1..], e);
        assert r[1..] == Insert(m[1..], e);
        SortedSplit(r);
      }
    }
  }

  function InsertAll(m: seq<(Text, Text)>, pairs: seq<(Text, Text)>): (r: seq<(Text, Text)>)
    ensures |r| <= |m| + |pairs|
    decreases pairs
  {
    if pairs == [] then m else InsertAll(Insert(m, pairs[0]), pairs[1..])
  }

  lemma {:induction false} InsertAllSorts(m: seq<(Text, Text)>, pairs: seq<(Text, Text)>)
    requires Sorted(m)
    ensures Sorted(InsertAll(m, pairs))
    decreases pairs
  {
    if pairs != [] {
      InsertKeepsSorted(m, pairs[0]);
      InsertAllSorts(Insert(m, pairs[0]), pairs[1..]);
    }
  }

  lemma {:induction false} InsertLast(m: seq<(Text, Text)>, e: (Text, Text))
    requires forall x :: x in m ==> Less(x.0, e.0)
    ensures Insert(m, e) == m + [e]
  {
    if m != [] {
      assert m[0] in m;
      LessIsTotal(m[0].0, e.0);
      InsertLast(m[1..], e);
      assert m + [e] == [m[0]] + (m[1..] + [e]);
    }
  }

  // Inserting the pairs in key order rebuilds the map.
  lemma {:induction false} InsertAllOfSorted(m: seq<(Text, Text)>, pairs: seq<(Text, Text)>)
    requires Sorted(m + pairs)
    ensures InsertAll(m, pairs) == m + pairs
    decreases pairs
  {
    if pairs == [] {
      assert m + pairs == m;
    } else {
      var all := m + pairs;
      forall x | x in m
        ensures Less(x.0, pairs[0].0)
      {
        var i :| 0 <= i < |m| && m[i] == x;
        assert all[i] == x && all[|m|] == pairs[0];
      }
      InsertLast(m, pairs[0]);
      assert m + [pairs[0]] + pairs[1..] == all;
      InsertAllOfSorted(m + [pairs[0]], pairs[1..]);
    }
  }

  function PutPair(p: (Text, Text)): (s: Bytes) {
    PutText(p.0) + PutText(p.1)
  }

  function GetPair(s: Bytes): (r: Parsed<(Text, Text)>) {
    var (key, s1) :- GetText(s);
    var (value, s2) :- GetText(s1);
    Ok((key, value), s2)
  }

  function PutOptions(m: Vec<(Text, Text)>): (s: Bytes) {
    PutVec(PutPair, m)
  }

  function GetOptions(s: Bytes): (r: Parsed<Vec<(Text, Text)>>)
    ensures r.Ok? ==> Sorted(r.value)
  {
    var (pairs, s1) :- GetVec(GetPair, s);
    InsertAllSorts([], pairs);
    Ok(InsertAll([], pairs), s1)
  }

  lemma OptionsThen(m: Vec<(Text, Text)>, rest: Bytes)
    requires Sorted(m)
    ensures GetOptions(PutOptions(m) + rest) == Ok(m, rest)
  {
    forall x, r | x in m
      ensures GetPair(PutPair(x) + r) == Ok(x, r)
    {
      TextPlus(x.0, PutText(x.1), r);
      TextThen(x.1, r);
    }
    VecThen(PutPair, GetPair, m, rest);
    assert [] + m == m;
    InsertAllOfSorted([], m);
  }

  // ---------- CREATE TABLE ----------

  function PutTableDef(t: TableDef): (s: Bytes) {
    PutName(t.name) + (PutColumnDefs(t.columns) + (PutVec(PutConstraint, t.constraints) + PutOptions(t.options)))
  }

  function GetTableDef(s: Bytes): (r: Parsed<TableDef>)
    ensures r.Ok? ==> r.value.Fits() && Sorted(r.value.options)
  {
    var (name, s1) :- GetName(s);
    var (columns, s2) :- GetColumnDefs(s1);
    var (constraints, s3) :- GetVec(GetConstraint, s2);
    var (options, s4) :- GetOptions(s3);
    ColumnDefsRead(s1);
    Ok(TableDef(name, columns, constraints, options), s4)
  }

  lemma TableDefThen(t: TableDef, rest: Bytes)
    requires t.Fits() && Sorted(t.options)
    ensures GetTableDef(PutTableDef(t) + rest) == Ok(t, rest)
  {
    var constraints, options := PutVec(PutConstraint, t.constraints), PutOptions(t.options);
    var r3 := constraints + options;
    var r2 := PutColumnDefs(t.columns) + r3;
    Cat(PutName(t.name), r2, rest);
    NameThen(t.name, r2 + rest);
    Cat(PutColumnDefs(t.columns), r3, rest);
    ColumnDefsThen(t.columns, r3 + rest);
    Cat(constraints, options, rest);
    ConstraintsThen(t.constraints, options + rest);
    OptionsThen(t.options, rest);
  }

  function PutTrailer(t: Trailer): (s: Bytes)
    ensures |s| == 16 + |t.sql| + |t.owner|
  {
    PutQuad(t.sessionId) + (PutText(t.sql) + (PutText(t.owner) + PutQuad(t.withAutoincrement)))
  }

  function GetTrailer(s: Bytes): (r: Parsed<Trailer>)
    ensures r.Ok? ==> |s| == |PutTrailer(r.value)| + |r.rest|
  {
    var (sessionId, s1) :- GetQuad(s);
    var (sql, s2) :- GetText(s1);
    var (owner, s3) :- GetText(s2);
    var (withAutoincrement, s4) :- GetQuad(s3);
    Ok(Trailer(sessionId, sql, owner, withAutoincrement), s4)
  }

  lemma TrailerThen(t: Trailer, rest: Bytes)
    ensures GetTrailer(PutTrailer(t) + rest) == Ok(t, rest)
  {
    var r3 := PutText(t.owner) + PutQuad(t.withAutoincrement);
    var r2 := PutText(t.sql) + r3;
    QuadPlus(t.sessionId, r2, rest);
    TextPlus(t.sql, r3, rest);
    TextPlus(t.owner, PutQuad(t.withAutoincrement), rest);
    QuadThen(t.withAutoincrement, rest);
  }

  function PutCreateBody(c: CreateTable): (s: Bytes) {
    PutTableDef(c.table) + PutTrailer(c.trailer)
  }

  function PutCreateTable(c: CreateTable): (s: Bytes) {
    PutQuad(CREATE_TABLE_STATEMENT) + PutCreateBody(c)
  }

  function GetCreateTable(s: Bytes): (r: Parsed<CreateTable>)
    ensures r.Ok? ==> r.value.table.Fits() && Sorted(r.value.table.options)
  {
    var (table, s1) :- GetTableDef(s);
    var (trailer, s2) :- GetTrailer(s1);
    Ok(CreateTable(table, trailer), s2)
  }

  lemma CreateTableThen(c: CreateTable, rest: Bytes)
    requires c.table.Fits() && Sorted(c.table.options)
    ensures GetCreateTable(PutCreateBody(c) + rest) == Ok(c, rest)
  {
    Cat(PutTableDef(c.table), PutTrailer(c.trailer), rest);
    TableDefThen(c.table, PutTrailer(c.trailer) + rest);
    TrailerThen(c.trailer, rest);
  }
}
