/**
 * The ALTER TABLE statement and the receiver of statements. The statement level takes the writer of
 * actions and the reader of an action with its trailer as parameters; the receiver uses the real ones.
 */
module DdlStatements {
  import opened DdlCodec
  import opened DdlTables
  import opened DdlActions

  type Putter = Action -> Bytes
  type Getter = Bytes -> Parsed<(Action, Trailer)>

  // ---------- the actions of a statement ----------

  // Reads n actions, each with a trailer; the last trailer read remains.
  function GetActions(get: Getter, n: nat, s: Bytes, trailer: Trailer): (r: Parsed<(seq<Action>, Trailer)>)
    ensures r.Ok? ==> |r.value.0| == n
  {
    if n == 0 then Ok(([], trailer), s)
    else
      var (first, s1) :- get(s);
      var (more, s2) :- GetActions(get, n - 1, s1, first.1);
      Ok(([first.0] + more.0, more.1), s2)
  }

  // What the reader promises of every input: it takes as many bytes as its value has.
  ghost predicate Measured(put: Putter, get: Getter) {
    forall s :: get(s).Ok? ==>
      && get(s).value.0.Fits()
      && |s| == |put(get(s).value.0)| + |PutTrailer(get(s).value.1)| + |get(s).rest|
  }

  // What it promises of an action that was written.
  ghost predicate Recovers(put: Putter, get: Getter, a: Action) {
    forall t, r :: get(put(a) + (PutTrailer(t) + r)) == Ok((a, t), r)
  }

  // Reading n actions takes the bytes of n trailers.
  lemma {:induction false} ActionsRead(put: Putter, get: Getter, n: nat, s: Bytes, trailer: Trailer)
    requires Measured(put, get)
    requires GetActions(get, n, s, trailer).Ok?
    ensures var r := GetActions(get, n, s, trailer);
            |s| >= |PutAll(put, r.value.0)| + |r.rest|
                   + if n == 0 then 0 else 16 * (n - 1) + |PutTrailer(r.value.1)|
    decreases n
  {
    if n > 0 {
      var first := get(s);
      ActionsRead(put, get, n - 1, first.rest, first.value.1);
      var more := GetActions(get, n - 1, first.rest, first.value.1).value.0;
      assert ([first.value.0] + more)[1..] == more;
    }
  }

  lemma OneActionThen(put: Putter, get: Getter, a: Action, trailer: Trailer, initial: Trailer, rest: Bytes)
    requires Recovers(put, get, a)
    ensures GetActions(get, 1, PutAll(put, [a]) + PutTrailer(trailer) + rest, initial) == Ok(([a], trailer), rest)
  {
    assert PutAll(put, [a]) == put(a);
    Cat(put(a), PutTrailer(trailer), rest);
    assert [a] + [] == [a];
  }

  // The actions and the trailer come back, and exactly their bytes are read, only if there is one.
  lemma ActionsRoundTrip(put: Putter, get: Getter, actions: Vec<Action>, trailer: Trailer,
                         initial: Trailer, rest: Bytes)
    requires Measured(put, get)
    requires forall x :: x in actions && x.Fits() ==> Recovers(put, get, x)
    ensures GetActions(get, |actions|, PutAll(put, actions) + PutTrailer(trailer) + rest, initial)
            == Ok((actions, trailer), rest)
            <==> |actions| == 1 && actions[0].Fits()
  {
    var s := PutAll(put, actions) + PutTrailer(trailer) + rest;
    var r := GetActions(get, |actions|, s, initial);
    if r.Ok? {
      ActionsRead(put, get, |actions|, s, initial);
    }
    if |actions| == 1 {
      assert actions == [actions[0]] && actions[0] in actions;
      if actions[0].Fits() {
        OneActionThen(put, get, actions[0], trailer, initial, rest);
      }
    }
  }

  // A second action that is taken for the trailer of the first, with an unknown type code after it.
  lemma TrailerMistaken(put: Putter, get: Getter, a: Action, trailer: Trailer, taken: Trailer, left: Bytes,
                        initial: Trailer, rest: Bytes)
    requires Recovers(put, get, a)
    requires put(a) + PutTrailer(trailer) + rest == PutTrailer(taken) + left
    requires get(left) == Bad(BadTypeCode)
    ensures GetActions(get, 2, PutAll(put, [a, a]) + PutTrailer(trailer) + rest, initial) == Bad(BadTypeCode)
  {
    assert [a, a][1..] == [a] && PutAll(put, [a]) == put(a);
    Cat(put(a), put(a), PutTrailer(trailer));
    Cat(put(a), put(a) + PutTrailer(trailer), rest);
    assert get(put(a) + (PutTrailer(taken) + left)) == Ok((a, taken), left);
  }

  // ---------- the statement ----------

  // What precedes the actions.
  datatype Head = Head(table: QualifiedName, timeZone: UInt64, count: UInt32)

  function PutHead(h: Head): (s: Bytes) {
    PutName(h.table) + (PutOct(h.timeZone) + PutQuad(h.count))
  }

  function GetHead(s: Bytes): (r: Parsed<Head>) {
    var (table, s1) :- GetName(s);
    var (timeZone, s2) :- GetOct(s1);
    var (n, s3) :- GetQuad(s2);
    Ok(Head(table, timeZone, n), s3)
  }

  lemma HeadThen(h: Head, rest: Bytes)
    ensures GetHead(PutHead(h) + rest) == Ok(h, rest)
  {
    Cat(PutName(h.table), PutOct(h.timeZone) + PutQuad(h.count), rest);
    NameThen(h.table, PutOct(h.timeZone) + PutQuad(h.count) + rest);
    Cat(PutOct(h.timeZone), PutQuad(h.count), rest);
    OctThen(h.timeZone, PutQuad(h.count) + rest);
    QuadThen(h.count, rest);
  }

  // When it is written, the trailer follows all the actions.
  function PutAlterBody(put: Putter, a: AlterTable): (s: Bytes) {
    PutHead(Head(a.table, AsOct(a.timeZone), |a.actions|)) + (PutAll(put, a.actions) + PutTrailer(a.trailer))
  }

  function GetAlterBody(get: Getter, s: Bytes, initial: Trailer): (r: Parsed<AlterTable>) {
    var (h, s1) :- GetHead(s);
    var (actions, s2) :- GetActions(get, h.count, s1, initial);
    Ok(AlterTable(h.table, FromOct(h.timeZone), actions.0, actions.1), s2)
  }

  lemma TimeZoneThen(x: SInt64)
    ensures FromOct(AsOct(x)) == x
  {
  }

  // Everything up to the actions is read back whatever they are.
  lemma AlterBodyThen(put: Putter, get: Getter, a: AlterTable, initial: Trailer, rest: Bytes)
    ensures var r := GetActions(get, |a.actions|, PutAll(put, a.actions) + PutTrailer(a.trailer) + rest, initial);
            GetAlterBody(get, PutAlterBody(put, a) + rest, initial)
            == if r.Ok? then Ok(AlterTable(a.table, a.timeZone, r.value.0, r.value.1), r.rest) else Bad(r.error)
  {
    var h := Head(a.table, AsOct(a.timeZone), |a.actions|);
    var actions := PutAll(put, a.actions) + PutTrailer(a.trailer);
    Cat(PutHead(h), actions, rest);
    HeadThen(h, actions + rest);
    TimeZoneThen(a.timeZone);
  }

  // ---------- the receiver ----------

  // A type code and a statement. The trailer of a new statement object is given.
  function GetStatementWith(get: Getter, s: Bytes, initial: Trailer): (r: Parsed<Statement>) {
    var (code, s1) :- GetQuad(s);
    if code == CREATE_TABLE_STATEMENT then
      var (c, s2) :- GetCreateTable(s1);
      Ok(Create(c), s2)
    else if code == ALTER_TABLE_STATEMENT then
      var (a, s2) :- GetAlterBody(get, s1, initial);
      Ok(Alter(a), s2)
    else Bad(BadTypeCode)
  }

  // When it is read, each action is followed by a trailer.
  function GetActionAndTrailer(s: Bytes): (r: Parsed<(Action, Trailer)>) {
    var (a, s1) :- GetAction(s);
    var (t, s2) :- GetTrailer(s1);
    Ok((a, t), s2)
  }

  function GetStatement(s: Bytes, initial: Trailer): (r: Parsed<Statement>) {
    GetStatementWith(GetActionAndTrailer, s, initial)
  }

  function PutAlterWith(put: Putter, a: AlterTable): (s: Bytes) {
    PutQuad(ALTER_TABLE_STATEMENT) + PutAlterBody(put, a)
  }

  function PutAlterTable(a: AlterTable): (s: Bytes) {
    PutAlterWith(PutAction, a)
  }

  lemma CreateWithThen(get: Getter, c: CreateTable, initial: Trailer, rest: Bytes)
    ensures var r := GetCreateTable(PutCreateBody(c) + rest);
            GetStatementWith(get, PutCreateTable(c) + rest, initial)
            == if r.Ok? then Ok(Create(r.value), r.rest) else Bad(r.error)
  {
    QuadPlus(CREATE_TABLE_STATEMENT, PutCreateBody(c), rest);
  }

  // A CREATE TABLE statement survives the trip, and exactly its bytes are read, if and only if every
  // column length fits in 32 bits (and the options are listed as the map lists them).
  lemma CreateTableRoundTrip(c: CreateTable, initial: Trailer, rest: Bytes)
    ensures GetStatement(PutCreateTable(c) + rest, initial) == Ok(Create(c), rest)
            <==> c.table.Fits() && Sorted(c.table.options)
  {
    CreateWithThen(GetActionAndTrailer, c, initial, rest);
    if c.table.Fits() && Sorted(c.table.options) {
      CreateTableThen(c, rest);
    }
  }

  lemma AlterWithThen(put: Putter, get: Getter, a: AlterTable, initial: Trailer, rest: Bytes)
    ensures var r := GetAlterBody(get, PutAlterBody(put, a) + rest, initial);
            GetStatementWith(get, PutAlterWith(put, a) + rest, initial)
            == if r.Ok? then Ok(Alter(r.value), r.rest) else Bad(r.error)
  {
    QuadPlus(ALTER_TABLE_STATEMENT, PutAlterBody(put, a), rest);
  }

  lemma AlterRoundTripWith(put: Putter, get: Getter, a: AlterTable, initial: Trailer, rest: Bytes)
    requires Measured(put, get)
    requires forall x :: x in a.actions && x.Fits() ==> Recovers(put, get, x)
    ensures GetStatementWith(get, PutAlterWith(put, a) + rest, initial) == Ok(Alter(a), rest)
            <==> |a.actions| == 1 && a.actions[0].Fits()
  {
    AlterWithThen(put, get, a, initial, rest);
    AlterBodyThen(put, get, a, initial, rest);
    ActionsRoundTrip(put, get, a.actions, a.trailer, initial, rest);
  }

  lemma ActionAndTrailerReads(s: Bytes)
    requires GetActionAndTrailer(s).Ok?
    ensures var r := GetActionAndTrailer(s);
            && r.value.0.Fits()
            && |s| == |PutAction(r.value.0)| + |PutTrailer(r.value.1)| + |r.rest|
  {
    ActionReads(s);
  }

  lemma ActionsAreMeasured()
    ensures Measured(PutAction, GetActionAndTrailer)
  {
    forall s | GetActionAndTrailer(s).Ok?
      ensures var r := GetActionAndTrailer(s);
              && r.value.0.Fits()
              && |s| == |PutAction(r.value.0)| + |PutTrailer(r.value.1)| + |r.rest|
    {
      ActionAndTrailerReads(s);
    }
  }

  lemma ActionAndTrailerThen(a: Action, t: Trailer, rest: Bytes)
    requires a.Fits() && !a.AddNothing?
    ensures GetActionAndTrailer(PutAction(a) + (PutTrailer(t) + rest)) == Ok((a, t), rest)
  {
    ActionThen(a, PutTrailer(t) + rest);
    TrailerThen(t, rest);
  }

  lemma ActionRecovers(a: Action)
    requires a.Fits() && !a.AddNothing?
    ensures Recovers(PutAction, GetActionAndTrailer, a)
  {
    forall t: Trailer, r: Bytes
      ensures GetActionAndTrailer(PutAction(a) + (PutTrailer(t) + r)) == Ok((a, t), r)
    {
      ActionAndTrailerThen(a, t, r);
    }
  }

  // An ALTER TABLE statement survives the trip, and exactly its bytes are read, if and only if it
  // has exactly one action, whose column lengths fit in 32 bits.
  lemma AlterTableRoundTrip(a: AlterTable, initial: Trailer, rest: Bytes)
    requires forall x :: x in a.actions ==> !x.AddNothing?
    ensures GetStatement(PutAlterTable(a) + rest, initial) == Ok(Alter(a), rest)
            <==> |a.actions| == 1 && a.actions[0].Fits()
  {
    ActionsAreMeasured();
    forall x | x in a.actions && x.Fits()
      ensures Recovers(PutAction, GetActionAndTrailer, x)
    {
      ActionRecovers(x);
    }
    AlterRoundTripWith(PutAction, GetActionAndTrailer, a, initial, rest);
  }

  // Two actions, each an empty comment: the second one is taken for the trailer of the first, and
  // the statement is refused.
  lemma TwoCommentsAreRefused(initial: Trailer, rest: Bytes)
    ensures GetStatement(PutAlterTable(TwoComments()) + rest, initial) == Bad(BadTypeCode)
  {
    var c, a := TableComment([]), TwoComments();
    // taken for the trailer: the second action's code and comment, and half of the real trailer
    var taken, left := Trailer(ATA_TABLE_COMMENT, [], [], 0), PutQuad(0) + (PutQuad(0) + rest);
    CommentIsTrailer(rest);
    ActionRecovers(c);
    ZeroIsUnknown(PutQuad(0) + rest);
    TrailerMistaken(PutAction, GetActionAndTrailer, c, a.trailer, taken, left, initial, rest);
    AlterBodyThen(PutAction, GetActionAndTrailer, a, initial, rest);
    AlterWithThen(PutAction, GetActionAndTrailer, a, initial, rest);
  }

  function TwoComments(): AlterTable {
    AlterTable(QualifiedName([], [], []), 0, [TableComment([]), TableComment([])], Trailer(0, [], [], 0))
  }

  lemma ZeroIsUnknown(rest: Bytes)
    ensures GetActionAndTrailer(PutQuad(0) + rest) == Bad(BadTypeCode)
  {
    UnknownActionIsRefused(0, rest);
    UnknownIsRefused(PutQuad(0) + rest);
  }

  lemma UnknownIsRefused(s: Bytes)
    requires GetAction(s) == Bad(BadTypeCode)
    ensures GetActionAndTrailer(s) == Bad(BadTypeCode)
  {
  }

  lemma CommentIsTrailer(rest: Bytes)
    ensures PutAction(TableComment([])) + PutTrailer(Trailer(0, [], [], 0)) + rest
            == PutTrailer(Trailer(ATA_TABLE_COMMENT, [], [], 0)) + (PutQuad(0) + (PutQuad(0) + rest))
  {
    var zero := PutQuad(0);
    assert PutText([]) == zero;
    assert PutAction(TableComment([])) == PutQuad(ATA_TABLE_COMMENT) + zero;
    assert PutTrailer(Trailer(0, [], [], 0)) == zero + (zero + (zero + zero));
    assert PutTrailer(Trailer(ATA_TABLE_COMMENT, [], [], 0)) == PutQuad(ATA_TABLE_COMMENT) + (zero + (zero + zero));
  }
}
