/**
 * Batch insert: packages of rows are handed to the write engines of the performance modules (PMs).
 * A PM gets its next package after it has answered the previous one; answers arrive in any order, and
 * reads may fail. What the reads of an operation give is an input of the operation.
 */
module BatchInsert {
  import opened Options

  type Package = seq<int>

  // The message that carries a package, and the PM it is written to.
  datatype Message = Message(target: int, uniqueId: int, txnId: int, pm: int, package: Package)

  // What a read gives: nothing, or the answer of a PM.
  datatype Reply = Lost | Answer(rc: int, text: string, pm: int)

  const NETWORK_ERROR := 2
  const IDBRANGE_WARNING := 13

  // ---------- states and unanswered packages ----------

  // The state kept for each PM, and the packages the PMs have not answered.
  datatype Link = Link(state: map<int, bool>, unanswered: multiset<int>) {
    function AfterReply(r: Reply): (l: Link) {
      if r.Lost? then this else Link(state[r.pm := true], unanswered - multiset{r.pm})
    }

    function AfterReplies(replies: seq<Reply>): (l: Link)
      decreases |replies|
    {
      if replies == [] then this else AfterReply(replies[0]).AfterReplies(replies[1..])
    }

    function AfterWrite(pm: int): (l: Link) {
      Link(state[pm := false], unanswered + multiset{pm})
    }

    // One unanswered package at every PM in state false, none at the others.
    ghost predicate OneEach(pms: seq<int>) {
      && (forall pm :: pm in pms ==> pm in state)
      && (forall pm :: pm in pms ==> unanswered[pm] == if state[pm] then 0 else 1)
      && (forall pm :: pm in unanswered ==> pm in pms)
    }

    // At least one unanswered package at every PM in state false.
    ghost predicate Covered(pms: seq<int>) {
      && (forall pm :: pm in pms ==> pm in state)
      && (forall pm :: pm in pms && !state[pm] ==> pm in unanswered)
      && (forall pm :: pm in unanswered ==> pm in pms)
    }
  }

  // fPmState[pm], where the map gives false for a PM it does not have.
  predicate Free(state: map<int, bool>, pm: int) {
    pm in state && state[pm]
  }

  // The PMs that answer, as often as they do.
  ghost function Answers(replies: seq<Reply>): (m: multiset<int>) {
    if replies == [] then multiset{}
    else (if replies[0].Lost? then multiset{} else multiset{replies[0].pm}) + Answers(replies[1..])
  }

  lemma ReplyKeeps(l: Link, pms: seq<int>, r: Reply)
    requires r.Answer? ==> r.pm in l.unanswered
    ensures l.Covered(pms) ==> l.AfterReply(r).Covered(pms)
    ensures l.OneEach(pms) ==> l.AfterReply(r).OneEach(pms)
  {
  }

  // A write keeps one unanswered package each exactly when the PM has answered; at least one, always.
  lemma WriteKeeps(l: Link, pms: seq<int>, pm: int)
    requires pm in pms
    ensures l.Covered(pms) ==> l.AfterWrite(pm).Covered(pms)
    ensures l.OneEach(pms) ==> (l.AfterWrite(pm).OneEach(pms) <==> l.state[pm])
  {
    var more := l.unanswered + multiset{pm};
    assert more[pm] == l.unanswered[pm] + 1;
    assert forall q :: q != pm ==> more[q] == l.unanswered[q];
  }

  // ---------- the wait ----------

  // A reply that ends the wait for a PM: a failed read, an error or warning, or the PM's answer.
  predicate Ends(r: Reply, current: int) {
    r.Lost? || r.rc != 0 || r.pm == current
  }

  // The replies read by the wait, and the one that ends it.
  function Taken(current: int, replies: seq<Reply>): (r: seq<Reply>) {
    if replies == [] then []
    else [replies[0]] + if Ends(replies[0], current) then [] else Taken(current, replies[1..])
  }

  function Ending(current: int, replies: seq<Reply>): (r: Option<Reply>) {
    if replies == [] then None
    else if Ends(replies[0], current) then Some(replies[0])
    else Ending(current, replies[1..])
  }

  // The wait ends with an answer of the PM waited for.
  predicate EndsWell(current: int, replies: seq<Reply>) {
    var r := Ending(current, replies);
    r.Some? && r.value.Answer? && r.value.pm == current
  }

  // The first reply that is lost, carries a code or comes from the PM ends the wait, and nothing after it
  // is read.
  lemma {:induction false} EndingIsFirst(current: int, replies: seq<Reply>, j: nat)
    requires j < |replies|
    requires forall i :: 0 <= i < j ==> replies[i].Answer? && replies[i].rc == 0 && replies[i].pm != current
    requires replies[j].Lost? || replies[j].rc != 0 || replies[j].pm == current
    ensures Ending(current, replies) == Some(replies[j]) && Taken(current, replies) == replies[..j + 1]
  {
    if j > 0 {
      EndingIsFirst(current, replies[1..], j - 1);
      assert replies[..j + 1] == [replies[0]] + replies[1..][..j];
    } else {
      assert replies[..1] == [replies[0]];
    }
  }

  // Without such a reply all are read.
  lemma {:induction false} NothingEnds(current: int, replies: seq<Reply>)
    requires forall i :: 0 <= i < |replies| ==>
               replies[i].Answer? && replies[i].rc == 0 && replies[i].pm != current
    ensures Ending(current, replies) == None && Taken(current, replies) == replies
  {
    if replies != [] {
      NothingEnds(current, replies[1..]);
    }
  }

  lemma {:induction false} EndingIsRead(current: int, replies: seq<Reply>)
    ensures Ending(current, replies).Some? ==> Ending(current, replies).value in replies
  {
    if replies != [] && !Ends(replies[0], current) {
      EndingIsRead(current, replies[1..]);
    }
  }

  // After the wait the PM's state tells whether it was its answer.
  lemma {:induction false} StateAfterWait(l: Link, current: int, replies: seq<Reply>)
    requires current in l.state && !l.state[current]
    ensures var after := l.AfterReplies(Taken(current, replies));
            current in after.state && (after.state[current] <==> EndsWell(current, replies))
    decreases |replies|
  {
    if replies != [] {
      if Ends(replies[0], current) {
        OneReply(l, replies[0]);
      } else {
        MoreReplies(l, replies[0], Taken(current, replies[1..]));
        StateAfterWait(l.AfterReply(replies[0]), current, replies[1..]);
      }
    }
  }

  // Answers to unanswered packages keep at least, and at most, one package each.
  lemma {:induction false} RepliesKeep(l: Link, pms: seq<int>, replies: seq<Reply>)
    requires Answers(replies) <= l.unanswered
    ensures l.Covered(pms) ==> l.AfterReplies(replies).Covered(pms)
    ensures l.OneEach(pms) ==> l.AfterReplies(replies).OneEach(pms)
    decreases |replies|
  {
    if replies != [] {
      ReplyKeeps(l, pms, replies[0]);
      StillUnanswered(l, replies);
      RepliesKeep(l.AfterReply(replies[0]), pms, replies[1..]);
    }
  }

  lemma StillUnanswered(l: Link, replies: seq<Reply>)
    requires replies != [] && Answers(replies) <= l.unanswered
    ensures replies[0].Answer? ==> replies[0].pm in l.unanswered
    ensures Answers(replies[1..]) <= l.AfterReply(replies[0]).unanswered
  {
  }

  lemma {:induction false} TakenAnswers(current: int, replies: seq<Reply>)
    ensures Answers(Taken(current, replies)) <= Answers(replies)
  {
    if replies != [] {
      var taken := Taken(current, replies);
      if Ends(replies[0], current) {
        assert taken[1..] == [];
      } else {
        assert taken[1..] == Taken(current, replies[1..]);
        TakenAnswers(current, replies[1..]);
      }
    }
  }

  lemma MoreReplies(l: Link, r: Reply, rest: seq<Reply>)
    ensures l.AfterReplies([r] + rest) == l.AfterReply(r).AfterReplies(rest)
  {
    assert ([r] + rest)[1..] == rest;
  }

  lemma OneReply(l: Link, r: Reply)
    ensures l.AfterReplies([r]) == l.AfterReply(r)
  {
    MoreReplies(l, r, []);
    assert [r] + [] == [r];
  }

  // Sending the next package: the exact condition, on the state and the replies before the call.
  lemma NextBatchExactly(l: Link, pms: seq<int>, current: int, replies: seq<Reply>)
    requires l.OneEach(pms) && current in pms && Answers(replies) <= l.unanswered
    ensures AfterNext(l, current, replies).OneEach(pms)
            <==> l.state[current] || EndsWell(current, replies)
  {
    if l.state[current] {
      WriteKeeps(l, pms, current);
    } else {
      StateAfterWait(l, current, replies);
      TakenAnswers(current, replies);
      RepliesKeep(l, pms, Taken(current, replies));
      WriteKeeps(l.AfterReplies(Taken(current, replies)), pms, current);
    }
  }

  // What the operation needs of its state, and what it keeps.
  lemma NextKeeps(l: Link, pms: seq<int>, current: int, replies: seq<Reply>)
    requires l.Covered(pms) && current in pms && Answers(replies) <= l.unanswered
    ensures current in l.state && (!l.state[current] ==> current in l.unanswered)
    ensures AfterAwait(l, current, replies).Covered(pms)
  {
    TakenAnswers(current, replies);
    RepliesKeep(l, pms, Taken(current, replies));
  }

  function AfterNext(l: Link, current: int, replies: seq<Reply>): (r: Link) {
    AfterAwait(l, current, replies).AfterWrite(current)
  }

  function AfterAwait(l: Link, current: int, replies: seq<Reply>): (r: Link) {
    if Free(l.state, current) then l else l.AfterReplies(Taken(current, replies))
  }

  // Two PMs with a package each. While PM 1 is waited for, PM 2 answers with a range warning, and
  // PM 1 gets a second package.
  lemma WarningDoublesUp()
    ensures var l := Link(map[1 := false, 2 := false], multiset{1, 2});
            var replies := [Answer(IDBRANGE_WARNING, "", 2), Answer(0, "", 1)];
            && l.OneEach([1, 2]) && Answers(replies) == l.unanswered && !EndsWell(1, replies)
            && AfterNext(l, 1, replies) == Link(map[1 := false, 2 := true], multiset{1, 1})
  {
    var l := Link(map[1 := false, 2 := false], multiset{1, 2});
    var warning, ok := Answer(IDBRANGE_WARNING, "", 2), Answer(0, "", 1);
    var replies := [warning, ok];
    assert replies[1..] == [ok];
    assert Answers([ok]) == multiset{1} by {
      assert [ok][1..] == [];
    }
    assert Taken(1, replies) == [warning];
    OneReply(l, warning);
  }

  // ---------- the connection to the write engines ----------

  class WEClients {
    const pmCount: nat
    var sent: seq<Message>
    var unanswered: multiset<int>

    constructor (pmCount: nat)
      ensures this.pmCount == pmCount && sent == [] && unanswered == multiset{}
    {
      this.pmCount := pmCount;
      sent, unanswered := [], multiset{};
    }

    method Write(m: Message)
      modifies this
      ensures sent == old(sent) + [m] && unanswered == old(unanswered) + multiset{m.target}
    {
      sent := sent + [m];
      unanswered := unanswered + multiset{m.target};
    }

    method Read(reply: Reply)
      requires reply.Answer? ==> reply.pm in unanswered
      modifies this`unanswered
      ensures unanswered == if reply.Lost? then old(unanswered) else old(unanswered) - multiset{reply.pm}
    {
      if reply.Answer? {
        unanswered := unanswered - multiset{reply.pm};
      }
    }
  }

  // ---------- counting ----------

  ghost predicate Distinct(pms: seq<int>) {
    forall i, j :: 0 <= i < j < |pms| ==> pms[i] != pms[j]
  }

  // The PMs in state false.
  ghost function Waiting(pms: seq<int>, state: map<int, bool>): (m: multiset<int>) {
    if pms == [] then multiset{}
    else
      var pm := pms[|pms| - 1];
      Waiting(pms[..|pms| - 1], state) + if Free(state, pm) then multiset{} else multiset{pm}
  }

  lemma {:induction false} WaitingAt(pms: seq<int>, state: map<int, bool>, pm: int)
    requires Distinct(pms)
    ensures Waiting(pms, state)[pm] == if pm in pms && !Free(state, pm) then 1 else 0
  {
    if pms != [] {
      var n := |pms| - 1;
      WaitingAt(pms[..n], state, pm);
      assert pms == pms[..n] + [pms[n]];
      assert pms[n] !in pms[..n];
    }
  }

  // The PMs in state false are as many as the unanswered packages exactly when there is one package
  // at each of them and none elsewhere.
  lemma CountExactly(l: Link, pms: seq<int>)
    requires Distinct(pms) && l.Covered(pms)
    ensures |Waiting(pms, l.state)| <= |l.unanswered|
    ensures |Waiting(pms, l.state)| == |l.unanswered| <==> l.OneEach(pms)
  {
    var waiting := Waiting(pms, l.state);
    forall pm
      ensures waiting[pm] == (if pm in pms && !l.state[pm] then 1 else 0) <= l.unanswered[pm]
    {
      WaitingAt(pms, l.state, pm);
    }
    SameSize(waiting, l.unanswered);
    if l.OneEach(pms) {
      assert forall pm :: waiting[pm] == l.unanswered[pm];
      assert waiting == l.unanswered;
    }
  }

  lemma SameSize(a: multiset<int>, b: multiset<int>)
    requires a <= b
    ensures |a| <= |b| && (|a| == |b| <==> a == b)
  {
    assert b == a + (b - a);
  }

  // The replies up to the n-th answer, failed reads included.
  function FirstAnswers(n: nat, replies: seq<Reply>): (r: seq<Reply>)
    decreases |replies|
  {
    if n == 0 || replies == [] then []
    else [replies[0]] + FirstAnswers(if replies[0].Lost? then n else n - 1, replies[1..])
  }

  // They are a beginning of the replies that ends with the n-th answer.
  lemma {:induction false} FirstAnswersAre(n: nat, replies: seq<Reply>)
    requires n <= Count(replies)
    ensures var r := FirstAnswers(n, replies);
            r <= replies && Count(r) == n && (r != [] ==> r[|r| - 1].Answer?)
    decreases |replies|
  {
    if n > 0 {
      var m := if replies[0].Lost? then n else n - 1;
      FirstAnswersAre(m, replies[1..]);
      var r, rest := FirstAnswers(n, replies), FirstAnswers(m, replies[1..]);
      assert r[1..] == rest && replies == [replies[0]] + replies[1..];
      if rest != [] {
        assert r[|r| - 1] == rest[|rest| - 1];
      }
    }
  }

  // The error code is that of the last failed read or answer with a code.
  lemma {:induction false} ErrorIsLast(code: int, replies: seq<Reply>, j: nat)
    requires j < |replies| && (replies[j].Lost? || replies[j].rc != 0)
    requires forall i :: j < i < |replies| ==> replies[i].Answer? && replies[i].rc == 0
    ensures ErrorAfterAll(code, replies) == if replies[j].Lost? then 1 else replies[j].rc
    decreases |replies|
  {
    if j > 0 {
      ErrorIsLast(ErrorNext(code, replies[0]), replies[1..], j - 1);
    } else {
      NoErrorKeepsCode(if replies[0].Lost? then 1 else replies[0].rc, replies[1..]);
    }
  }

  lemma {:induction false} NoErrorKeepsCode(code: int, replies: seq<Reply>)
    requires forall i :: 0 <= i < |replies| ==> replies[i].Answer? && replies[i].rc == 0
    ensures ErrorAfterAll(code, replies) == code
    decreases |replies|
  {
    if replies != [] {
      NoErrorKeepsCode(code, replies[1..]);
    }
  }

  // The error code after some replies of receiveOutstandingMsg.
  function ErrorAfterAll(code: int, replies: seq<Reply>): (r: int)
    decreases |replies|
  {
    if replies == [] then code
    else ErrorAfterAll(ErrorNext(code, replies[0]), replies[1..])
  }

  // ---------- the processor ----------

  function Packages(sent: seq<Message>): (r: seq<Package>) {
    seq(|sent|, i requires 0 <= i < |sent| => sent[i].package)
  }

  // The error code after the wait.
  function ErrorAfter(code: int, ending: Option<Reply>): (r: int) {
    match ending
    case None => code
    case Some(Lost) => NETWORK_ERROR
    case Some(Answer(rc, _, _)) => if rc != 0 then rc else code
  }

  function CodeAfterNext(code: int, l: Link, current: int, replies: seq<Reply>): (r: int) {
    if Free(l.state, current) then code else ErrorAfter(code, Ending(current, replies))
  }

  class BatchInsertProc {
    var fInsertPkgQueue: seq<Package>
    const fTxnid: int
    const fUniqueId: int
    var fErrorCode: int
    var fErrMsg: string
    const fWEClient: WEClients
    var fPMs: seq<int>
    var fPmState: map<int, bool>
    var fCurrentPMid: int
    // every package ever added
    ghost var added: seq<Package>

    ghost function Abstract(): (l: Link)
      reads this, fWEClient
    {
      Link(fPmState, fWEClient.unanswered)
    }

    // Packages leave in the order they came, none is lost or repeated, each message names the PM it
    // is written to, and a PM in state false has a package to answer.
    ghost predicate Valid()
      reads this, fWEClient
    {
      && Distinct(fPMs) && |fPMs| <= fWEClient.pmCount
      && Abstract().Covered(fPMs)
      && added == Packages(fWEClient.sent) + fInsertPkgQueue
      && (forall m :: m in fWEClient.sent ==> m.pm == m.target && m.target in fPMs)
    }

    ghost predicate OneUnansweredEach()
      reads this, fWEClient
    {
      Abstract().OneEach(fPMs)
    }

    constructor (moduleIds: seq<int>, txnId: int, uniqueId: int, client: WEClients)
      requires Distinct(moduleIds) && |moduleIds| <= client.pmCount
      requires client.sent == [] && client.unanswered == multiset{}
      ensures Valid() && OneUnansweredEach() && fWEClient == client
      ensures fPMs == moduleIds && fInsertPkgQueue == [] && added == [] && fErrorCode == 0
      ensures fTxnid == txnId && fUniqueId == uniqueId
    {
      fErrorCode, fErrMsg := 0, "";
      fTxnid, fUniqueId, fWEClient := txnId, uniqueId, client;
      fPMs, fPmState, fCurrentPMid := [], map[], 0;
      fInsertPkgQueue, added := [], [];
      new;
      for i := 0 to |moduleIds|
        invariant fPMs == moduleIds[..i] && fPmState == map[]
        invariant fInsertPkgQueue == [] && added == [] && fErrorCode == 0
      {
        fPMs := fPMs + [moduleIds[i]];
      }
      for i := 0 to |fPMs|
        invariant fPMs == moduleIds && fInsertPkgQueue == [] && added == [] && fErrorCode == 0
        invariant forall pm :: pm in fPMs[..i] ==> pm in fPmState && fPmState[pm]
      {
        var pm := fPMs[i];
        assert fPMs[..i + 1] == fPMs[..i] + [pm];
        fPmState := fPmState[pm := true];
      }
    }

    method SetError(errorCode: int, errMsg: string)
      modifies this`fErrorCode, this`fErrMsg
      ensures fErrorCode == errorCode && fErrMsg == errMsg
    {
      fErrorCode, fErrMsg := errorCode, errMsg;
    }

    method AddPkg(insertBs: Package)
      requires Valid()
      modifies this`fInsertPkgQueue, this`added
      ensures Valid() && fInsertPkgQueue == old(fInsertPkgQueue) + [insertBs] && added == old(added) + [insertBs]
    {
      fInsertPkgQueue := fInsertPkgQueue + [insertBs];
      added := added + [insertBs];
    }

    method GetPkg() returns (bs: Package)
      requires fInsertPkgQueue != []
      modifies this`fInsertPkgQueue
      ensures [bs] + fInsertPkgQueue == old(fInsertPkgQueue)
    {
      bs := fInsertPkgQueue[0];
      fInsertPkgQueue := fInsertPkgQueue[1..];
    }

    method BuildPkg() returns (m: Message)
      requires fInsertPkgQueue != []
      modifies this`fInsertPkgQueue
      ensures m == Message(fCurrentPMid, fUniqueId, fTxnid, fCurrentPMid, old(fInsertPkgQueue)[0])
      ensures fInsertPkgQueue == old(fInsertPkgQueue)[1..]
    {
      var bs := GetPkg();
      m := Message(fCurrentPMid, fUniqueId, fTxnid, fCurrentPMid, bs);
    }

    // The write that ends both send operations.
    method Send(m: Message, current: int)
      requires m.target == m.pm == current && current in fPMs
      requires Distinct(fPMs) && |fPMs| <= fWEClient.pmCount && Abstract().Covered(fPMs)
      requires added == Packages(fWEClient.sent) + [m.package] + fInsertPkgQueue
      requires forall n :: n in fWEClient.sent ==> n.pm == n.target && n.target in fPMs
      modifies this`fPmState, fWEClient
      ensures Valid()
      ensures fWEClient.sent == old(fWEClient.sent) + [m]
      ensures Abstract() == old(Abstract()).AfterWrite(current)
    {
      WriteKeeps(Abstract(), fPMs, current);
      ghost var before := fWEClient.sent;
      fWEClient.Write(m);
      fPmState := fPmState[current := false];
      assert Packages(before + [m]) == Packages(before) + [m.package];
    }

    // selectNextPM is given: its answer, or nothing when it throws. The first batch does not look at
    // the PM's state.
    method SendFirstBatch(next: Option<int>)
      requires Valid() && fInsertPkgQueue != []
      requires next.Some? ==> next.value == 0 || next.value in fPMs
      modifies this, fWEClient
      ensures Valid() && fPMs == old(fPMs) && added == old(added)
      ensures next.None? || next.value == 0 ==>
                && fErrorCode == 1 && fInsertPkgQueue == old(fInsertPkgQueue)
                && fWEClient.sent == old(fWEClient.sent) && Abstract() == old(Abstract())
      ensures next.Some? && next.value != 0 ==>
                && fErrorCode == old(fErrorCode) && fInsertPkgQueue == old(fInsertPkgQueue)[1..]
                && fWEClient.sent == old(fWEClient.sent)
                   + [Message(next.value, fUniqueId, fTxnid, next.value, old(fInsertPkgQueue)[0])]
                && Abstract() == old(Abstract()).AfterWrite(next.value)
                && (old(OneUnansweredEach()) ==> (OneUnansweredEach() <==> old(fPmState[next.value])))
    {
      if next.None? {
        SetError(1, "");
        return;
      }
      var firstPmId := next.value;
      if firstPmId == 0 {
        SetError(1, "Request cannot be sent to PM 0.");
        return;
      }
      WriteKeeps(Abstract(), fPMs, firstPmId);
      fCurrentPMid := firstPmId;
      var bs := BuildPkg();
      Requeue(Packages(fWEClient.sent), old(fInsertPkgQueue));
      Send(bs, firstPmId);
    }

    // Waits, if need be, until the chosen PM has answered, and sends the next package. The wait is
    // left early on a failed read, an error or a warning.
    method SendNextBatch(next: Option<int>, replies: seq<Reply>)
      requires Valid() && fInsertPkgQueue != [] && Answers(replies) == fWEClient.unanswered
      requires next.Some? ==> next.value in fPMs
      modifies this, fWEClient
      ensures Valid() && fPMs == old(fPMs) && added == old(added)
      ensures next.None? ==>
                && fErrorCode == 1 && fInsertPkgQueue == old(fInsertPkgQueue)
                && fWEClient.sent == old(fWEClient.sent) && Abstract() == old(Abstract())
      ensures next.Some? ==>
                && fInsertPkgQueue == old(fInsertPkgQueue)[1..]
                && fWEClient.sent == old(fWEClient.sent)
                   + [Message(next.value, fUniqueId, fTxnid, next.value, old(fInsertPkgQueue)[0])]
                && Abstract() == AfterNext(old(Abstract()), next.value, replies)
                && fErrorCode == CodeAfterNext(old(fErrorCode), old(Abstract()), next.value, replies)
                && (old(OneUnansweredEach()) ==>
                     (OneUnansweredEach() <==> old(fPmState[next.value]) || EndsWell(next.value, replies)))
    {
      if next.None? {
        SetError(1, "");
        return;
      }
      SendTo(next.value, replies);
      if old(OneUnansweredEach()) {
        NextBatchExactly(old(Abstract()), fPMs, next.value, replies);
      }
    }

    // The same for a PM that was chosen.
    method SendTo(current: int, replies: seq<Reply>)
      requires Valid() && fInsertPkgQueue != [] && Answers(replies) == fWEClient.unanswered && current in fPMs
      modifies this, fWEClient
      ensures Valid() && fPMs == old(fPMs) && added == old(added)
      ensures fInsertPkgQueue == old(fInsertPkgQueue)[1..]
      ensures fWEClient.sent == old(fWEClient.sent)
                + [Message(current, fUniqueId, fTxnid, current, old(fInsertPkgQueue)[0])]
      ensures Abstract() == AfterNext(old(Abstract()), current, replies)
      ensures fErrorCode == CodeAfterNext(old(fErrorCode), old(Abstract()), current, replies)
    {
      NextKeeps(Abstract(), fPMs, current, replies);
      fCurrentPMid := current;
      var bs := BuildPkg();
      Requeue(Packages(fWEClient.sent), old(fInsertPkgQueue));
      Await(current, replies);
      Send(bs, current);
    }

    // Waits unless the PM has answered.
    method Await(current: int, replies: seq<Reply>)
      requires current in fPmState && (!fPmState[current] ==> current in fWEClient.unanswered)
      requires Answers(replies) == fWEClient.unanswered
      modifies this`fPmState, this`fErrorCode, this`fErrMsg, fWEClient`unanswered
      ensures Abstract() == AfterAwait(old(Abstract()), current, replies)
      ensures fErrorCode == CodeAfterNext(old(fErrorCode), old(Abstract()), current, replies)
    {
      if !fPmState[current] {
        WaitFor(current, replies);
      }
    }

    // The wait loop of sendNextBatch.
    method WaitFor(current: int, replies: seq<Reply>)
      requires current in fPmState && !fPmState[current]
      requires current in fWEClient.unanswered && Answers(replies) == fWEClient.unanswered
      modifies this`fPmState, this`fErrorCode, this`fErrMsg, fWEClient`unanswered
      ensures Abstract() == old(Abstract()).AfterReplies(Taken(current, replies))
      ensures current in fPmState && (fPmState[current] <==> EndsWell(current, replies))
      ensures var ending := Ending(current, replies);
              && ending.Some? && (EndsWell(current, replies) || ending.value.Lost? || ending.value.rc != 0)
              && fErrorCode == (match ending.value
                                case Lost => 2
                                case Answer(rc, _, _) => if rc == 0 then old(fErrorCode) else rc)
    {
      StateAfterWait(Abstract(), current, replies);
      EndingEnds(current, replies);
      BeginWait(Abstract(), current, replies);
      var i := 0;
      while true
        invariant Waits(old(Abstract()), current, replies, Abstract(), i) && fErrorCode == old(fErrorCode)
        decreases |replies| - i
      {
        NextWait(old(Abstract()), current, replies, Abstract(), i);
        var reply := replies[i];
        fWEClient.Read(reply);
        i := i + 1;
        if reply.Lost? {
          SetError(NETWORK_ERROR, "Lost connection to WES.");
          return;
        }
        fPmState := fPmState[reply.pm := true];
        if reply.rc != 0 {
          SetError(reply.rc, reply.text);
          return;
        }
        if reply.pm == current {
          return;
        }
      }
    }

    // Collects the answers still due. Failed reads are noted and repeated.
    method ReceiveOutstandingMsg(replies: seq<Reply>)
      requires Valid() && Answers(replies) == fWEClient.unanswered
      modifies this`fPmState, this`fErrorCode, this`fErrMsg, fWEClient`unanswered
      ensures Valid()
      ensures var read := FirstAnswers(|Waiting(old(fPMs), old(fPmState))|, replies);
              Abstract() == old(Abstract()).AfterReplies(read) && fErrorCode == ErrorAfterAll(old(fErrorCode), read)
      ensures |fWEClient.unanswered| == |old(fWEClient.unanswered)| - |Waiting(old(fPMs), old(fPmState))|
      ensures fWEClient.unanswered == multiset{} <==> old(OneUnansweredEach())
      ensures old(OneUnansweredEach()) ==> OneUnansweredEach()
    {
      var messagesNotReceived := CountOutstanding();
      Outstanding(Abstract(), fPMs, messagesNotReceived, replies);
      var rest := replies;
      if messagesNotReceived > 0 && messagesNotReceived <= fWEClient.pmCount {
        rest := ReceiveAnswers(messagesNotReceived, replies);
      }
      LeftOver(rest, replies, messagesNotReceived);
    }

    // The loop, which ends with the given number of answers.
    method ReceiveAnswers(messagesNotReceived: nat, replies: seq<Reply>) returns (rest: seq<Reply>)
      requires Answers(replies) == fWEClient.unanswered && messagesNotReceived <= Count(replies)
      modifies this`fPmState, this`fErrorCode, this`fErrMsg, fWEClient`unanswered
      ensures (Abstract(), fErrorCode) == Received(old(Abstract()), old(fErrorCode), messagesNotReceived, replies)
      ensures Answers(rest) == fWEClient.unanswered && Count(rest) == Count(replies) - messagesNotReceived
    {
      rest := replies;
      var msgReceived, errorMsg := 0, "";
      ghost var left, spare := messagesNotReceived, Count(replies) - messagesNotReceived;
      ghost var end := BeginReceive(Abstract(), fErrorCode, left, replies);
      while msgReceived != messagesNotReceived
        invariant msgReceived + left == messagesNotReceived
        invariant Receives(end, spare, Abstract(), fErrorCode, left, rest)
        decreases |rest|
      {
        var answered;
        answered, errorMsg := Receive(rest, errorMsg, end, spare, left);
        rest := rest[1..];
        if answered {
          msgReceived := msgReceived + 1;
          left := left - 1;
        }
      }
      EndReceive(end, spare, Abstract(), fErrorCode, rest);
    }

    // One round of the loop: a PM has answered, or the failure is noted.
    method Receive(rest: seq<Reply>, errorMsg: string, ghost end: (Link, int), ghost spare: nat, ghost left: nat)
      returns (answered: bool, text: string)
      requires left > 0 && Receives(end, spare, Abstract(), fErrorCode, left, rest)
      modifies this`fPmState, this`fErrorCode, this`fErrMsg, fWEClient`unanswered
      ensures rest != []
      ensures Receives(end, spare, Abstract(), fErrorCode, if answered then left - 1 else left, rest[1..])
    {
      NextReceive(end, spare, Abstract(), fErrorCode, left, rest);
      var reply := rest[0];
      fWEClient.Read(reply);
      if reply.Lost? {
        SetError(1, errorMsg);
        return false, errorMsg;
      }
      fPmState := fPmState[reply.pm := true];
      if reply.rc != 0 {
        SetError(reply.rc, reply.text);
      }
      return true, reply.text;
    }

    // The number of PMs in state false.
    method CountOutstanding() returns (n: nat)
      requires Distinct(fPMs) && forall pm :: pm in fPMs ==> pm in fPmState
      ensures n == |Waiting(fPMs, fPmState)| <= |fPMs|
    {
      n := 0;
      for i := 0 to |fPMs|
        invariant n == |Waiting(fPMs[..i], fPmState)| <= i
      {
        var pm := fPMs[i];
        assert pm in fPMs;
        assert fPMs[..i + 1][..i] == fPMs[..i];
        if !fPmState[pm] {
          n := n + 1;
        }
      }
      assert fPMs[..|fPMs|] == fPMs;
    }
  }

  // The wait has read i replies, none of which ends it.
  ghost predicate Waits(before: Link, current: int, replies: seq<Reply>, now: Link, i: int) {
    && 0 <= i <= |replies| && current in now.state && !now.state[current]
    && current in now.unanswered && Answers(replies[i..]) == now.unanswered
    && Ending(current, replies[i..]) == Ending(current, replies)
    && now.AfterReplies(Taken(current, replies[i..])) == before.AfterReplies(Taken(current, replies))
  }

  lemma BeginWait(l: Link, current: int, replies: seq<Reply>)
    requires current in l.state && !l.state[current] && current in l.unanswered && Answers(replies) == l.unanswered
    ensures Waits(l, current, replies, l, 0)
  {
    assert replies[0..] == replies;
  }

  lemma NextWait(before: Link, current: int, replies: seq<Reply>, now: Link, i: int)
    requires Waits(before, current, replies, now, i)
    ensures i < |replies| && (replies[i].Answer? ==> replies[i].pm in now.unanswered)
    ensures Ends(replies[i], current) ==>
              && Ending(current, replies) == Some(replies[i])
              && now.AfterReply(replies[i]) == before.AfterReplies(Taken(current, replies))
    ensures !Ends(replies[i], current) ==> Waits(before, current, replies, now.AfterReply(replies[i]), i + 1)
  {
    var rest := replies[i..];
    SomeReply(current, rest);
    var r := replies[i];
    assert rest[0] == r && rest[1..] == replies[i + 1..];
    NextAnswers(rest, now);
    if Ends(r, current) {
      OneReply(now, r);
    } else {
      MoreReplies(now, r, Taken(current, rest[1..]));
    }
  }

  lemma SomeReply(pm: int, replies: seq<Reply>)
    requires pm in Answers(replies)
    ensures replies != []
  {
  }

  lemma NextAnswers(replies: seq<Reply>, l: Link)
    requires replies != [] && Answers(replies) == l.unanswered
    ensures replies[0].Answer? ==> replies[0].pm in l.unanswered
    ensures Answers(replies[1..]) == l.AfterReply(replies[0]).unanswered
  {
  }

  // The wait ends: the PM waited for has a package to answer.
  lemma {:induction false} EndingEnds(current: int, replies: seq<Reply>)
    requires current in Answers(replies)
    ensures Ending(current, replies).Some? && Ends(Ending(current, replies).value, current)
  {
    if !Ends(replies[0], current) {
      EndingEnds(current, replies[1..]);
    }
  }

  // The number of answers.
  function Count(replies: seq<Reply>): (n: nat) {
    if replies == [] then 0 else (if replies[0].Lost? then 0 else 1) + Count(replies[1..])
  }

  lemma {:induction false} CountIsSize(replies: seq<Reply>)
    ensures |Answers(replies)| == Count(replies)
  {
    if replies != [] {
      CountIsSize(replies[1..]);
    }
  }

  // The link and the error code after n more answers.
  function Received(l: Link, code: int, n: nat, replies: seq<Reply>): (r: (Link, int)) {
    var read := FirstAnswers(n, replies);
    (l.AfterReplies(read), ErrorAfterAll(code, read))
  }

  function ErrorNext(code: int, r: Reply): int {
    if r.Lost? then 1 else if r.rc != 0 then r.rc else code
  }

  // With left more answers of the rest the end is reached, and as many as spare are not read.
  ghost predicate Receives(end: (Link, int), spare: nat, now: Link, code: int, left: nat, rest: seq<Reply>) {
    && Count(rest) == left + spare && Answers(rest) == now.unanswered
    && Received(now, code, left, rest) == end
  }

  lemma BeginReceive(l: Link, code: int, n: nat, replies: seq<Reply>) returns (end: (Link, int))
    requires Answers(replies) == l.unanswered && n <= Count(replies)
    ensures Receives(end, Count(replies) - n, l, code, n, replies) && end == Received(l, code, n, replies)
  {
    end := Received(l, code, n, replies);
  }

  lemma EndReceive(end: (Link, int), spare: nat, now: Link, code: int, rest: seq<Reply>)
    requires Receives(end, spare, now, code, 0, rest)
    ensures (now, code) == end && Answers(rest) == now.unanswered && Count(rest) == spare
  {
  }

  lemma NextReceive(end: (Link, int), spare: nat, now: Link, code: int, left: nat, rest: seq<Reply>)
    requires Receives(end, spare, now, code, left, rest) && left > 0
    ensures rest != [] && (rest[0].Answer? ==> rest[0].pm in now.unanswered)
    ensures Receives(end, spare, now.AfterReply(rest[0]), ErrorNext(code, rest[0]),
                     if rest[0].Lost? then left else left - 1, rest[1..])
  {
    NextAnswers(rest, now);
    var r, next := rest[0], FirstAnswers(if rest[0].Lost? then left else left - 1, rest[1..]);
    assert ([r] + next)[1..] == next;
    MoreReplies(now, r, next);
  }

  lemma {:induction false} FirstAnswersAnswer(n: nat, replies: seq<Reply>)
    ensures Answers(FirstAnswers(n, replies)) <= Answers(replies)
    decreases |replies|
  {
    if n > 0 && replies != [] {
      var m := if replies[0].Lost? then n else n - 1;
      assert FirstAnswers(n, replies)[1..] == FirstAnswers(m, replies[1..]);
      FirstAnswersAnswer(m, replies[1..]);
    }
  }

  lemma LeftOver(rest: seq<Reply>, replies: seq<Reply>, n: int)
    requires Count(rest) == Count(replies) - n
    ensures |Answers(rest)| == |Answers(replies)| - n
    ensures Answers(rest) == multiset{} <==> n == Count(replies)
  {
    CountIsSize(rest);
    CountIsSize(replies);
  }

  // What collecting the answers due needs, and what it keeps.
  lemma Outstanding(l: Link, pms: seq<int>, n: nat, replies: seq<Reply>)
    requires Distinct(pms) && l.Covered(pms) && n == |Waiting(pms, l.state)| && Answers(replies) == l.unanswered
    ensures n <= Count(replies) && (n == Count(replies) <==> l.OneEach(pms))
    ensures l.AfterReplies(FirstAnswers(n, replies)).Covered(pms)
    ensures l.OneEach(pms) ==> l.AfterReplies(FirstAnswers(n, replies)).OneEach(pms)
    ensures n == 0 ==> FirstAnswers(n, replies) == []
  {
    CountExactly(l, pms);
    CountIsSize(replies);
    FirstAnswersAnswer(n, replies);
    RepliesKeep(l, pms, FirstAnswers(n, replies));
  }

  lemma Requeue(sent: seq<Package>, queue: seq<Package>)
    requires queue != []
    ensures sent + [queue[0]] + queue[1..] == sent + queue
  {
    assert [queue[0]] + queue[1..] == queue;
  }

  // ---------- a whole statement ----------

  // Replies without errors leave the error code alone and end every wait well.
  lemma {:induction false} QuietEndsWell(current: int, replies: seq<Reply>)
    requires Quiet(replies) && current in Answers(replies)
    ensures EndsWell(current, replies) && ErrorAfter(0, Ending(current, replies)) == 0
  {
    assert replies[0] in replies;
    if replies[0].pm != current {
      assert forall r :: r in replies[1..] ==> r in replies;
      QuietEndsWell(current, replies[1..]);
    }
  }

  lemma {:induction false} QuietKeepsCode(n: nat, replies: seq<Reply>)
    requires Quiet(replies)
    ensures ErrorAfterAll(0, FirstAnswers(n, replies)) == 0
    decreases |replies|
  {
    if n > 0 && replies != [] {
      assert replies[0] in replies;
      assert forall r :: r in replies[1..] ==> r in replies;
      QuietKeepsCode(n - 1, replies[1..]);
      assert FirstAnswers(n, replies)[1..] == FirstAnswers(n - 1, replies[1..]);
    }
  }

  lemma {:induction false} ErrorsStay(code: int, replies: seq<Reply>)
    requires code != 0
    ensures ErrorAfterAll(code, replies) != 0
    decreases |replies|
  {
    if replies != [] {
      ErrorsStay(ErrorNext(code, replies[0]), replies[1..]);
    }
  }

  // A PM that owes no answer, such as one that is not listed: without errors the wait for it reads every
  // reply and does not end.
  lemma {:induction false} StrangerIsAwaited(current: int, replies: seq<Reply>)
    requires Quiet(replies) && current !in Answers(replies)
    ensures Taken(current, replies) == replies && Ending(current, replies).None?
  {
    if replies != [] {
      assert replies[0] in replies;
      assert forall r :: r in replies[1..] ==> r in replies;
      StrangerIsAwaited(current, replies[1..]);
    }
  }

  // No read fails and every answer carries code 0.
  ghost predicate Quiet(replies: seq<Reply>) {
    forall r :: r in replies ==> r.Answer? && r.rc == 0
  }

  // Link, error code and number of packages sent.
  datatype Run = Run(link: Link, code: int, count: nat)

  // No batch is sent any more after an error other than a range warning.
  predicate Stops(code: int) {
    code != 0 && code != IDBRANGE_WARNING
  }

  // Sending a batch to each of the chosen PMs; script[i] is what is read meanwhile.
  function Sends(l: Link, code: int, choices: seq<int>, script: seq<seq<Reply>>): (r: Run)
    requires |script| == |choices|
    decreases |choices|
  {
    if choices == [] || Stops(code) then Run(l, code, 0)
    else
      var rest := Sends(AfterNext(l, choices[0], script[0]), CodeAfterNext(code, l, choices[0], script[0]),
                        choices[1..], script[1..]);
      rest.(count := rest.count + 1)
  }

  // The replies answer the packages that are unanswered then.
  ghost predicate Answering(l: Link, code: int, choices: seq<int>, script: seq<seq<Reply>>)
    requires |script| == |choices|
    decreases |choices|
  {
    choices == [] || Stops(code)
    || (Answers(script[0]) == l.unanswered
        && Answering(AfterNext(l, choices[0], script[0]), CodeAfterNext(code, l, choices[0], script[0]),
                     choices[1..], script[1..]))
  }

  // A statement: a single batch is sent without waiting.
  function Statement(l: Link, choices: seq<int>, script: seq<seq<Reply>>): (r: Run)
    requires |script| == |choices|
  {
    if |choices| == 1 then Run(l.AfterWrite(choices[0]), 0, 1) else Sends(l, 0, choices, script)
  }

  ghost predicate Replied(l: Link, choices: seq<int>, script: seq<seq<Reply>>)
    requires |script| == |choices|
  {
    |choices| == 1 || Answering(l, 0, choices, script)
  }

  // Fewer packages are sent only with an error.
  lemma {:induction false} ShortWithError(l: Link, code: int, choices: seq<int>, script: seq<seq<Reply>>)
    requires |script| == |choices|
    ensures var r := Sends(l, code, choices, script);
            r.count <= |choices| && (r.count < |choices| ==> Stops(r.code))
    decreases |choices|
  {
    if choices != [] && !Stops(code) {
      ShortWithError(AfterNext(l, choices[0], script[0]), CodeAfterNext(code, l, choices[0], script[0]),
                     choices[1..], script[1..]);
    }
  }

  // The link before the i-th send, when nothing stops the sending.
  function LinkAt(l: Link, choices: seq<int>, script: seq<seq<Reply>>, i: nat): (r: Link)
    requires i <= |choices| == |script|
    decreases i
  {
    if i == 0 then l else LinkAt(AfterNext(l, choices[0], script[0]), choices[1..], script[1..], i - 1)
  }

  // The i-th send waits, and the wait ends with a lost connection or a code other than 0 and 13.
  ghost predicate EndsBadly(l: Link, choices: seq<int>, script: seq<seq<Reply>>, i: nat)
    requires i < |choices| == |script|
  {
    var ending := Ending(choices[i], script[i]);
    && !Free(LinkAt(l, choices, script, i).state, choices[i])
    && ending.Some? && (ending.value.Lost? || (ending.value.rc != 0 && ending.value.rc != 13))
  }

  // The first send that ends badly is the last one; if there is none, all are made.
  ghost predicate SentUpTo(l: Link, choices: seq<int>, script: seq<seq<Reply>>, n: nat)
    requires |choices| == |script|
  {
    && n <= |choices|
    && (forall i :: 0 <= i < n - 1 ==> !EndsBadly(l, choices, script, i))
    && (n < |choices| ==> n > 0 && EndsBadly(l, choices, script, n - 1))
  }

  lemma {:induction false} SendsExactly(l: Link, code: int, choices: seq<int>, script: seq<seq<Reply>>)
    requires |script| == |choices| && (code == 0 || code == 13)
    ensures SentUpTo(l, choices, script, Sends(l, code, choices, script).count)
    decreases |choices|
  {
    if choices != [] {
      var next := AfterNext(l, choices[0], script[0]);
      var code' := CodeAfterNext(code, l, choices[0], script[0]);
      var n := Sends(next, code', choices[1..], script[1..]).count;
      assert code' != 0 && code' != 13 <==> EndsBadly(l, choices, script, 0);
      if code' == 0 || code' == 13 {
        SendsExactly(next, code', choices[1..], script[1..]);
        forall i | 0 < i < |choices|
          ensures EndsBadly(l, choices, script, i) <==> EndsBadly(next, choices[1..], script[1..], i - 1)
        {
          assert choices[1..][i - 1] == choices[i] && script[1..][i - 1] == script[i];
        }
      }
    }
  }

  // No read fails, and no answer carries a code but 0 and 13.
  ghost predicate Mild(replies: seq<Reply>) {
    forall r :: r in replies ==> r.Answer? && (r.rc == 0 || r.rc == 13)
  }

  // Range warnings do not stop the sending.
  lemma WarningsGoOn(l: Link, choices: seq<int>, script: seq<seq<Reply>>)
    requires |script| == |choices|
    requires forall replies :: replies in script ==> Mild(replies)
    ensures Sends(l, 0, choices, script).count == |choices|
  {
    SendsExactly(l, 0, choices, script);
    forall i: nat | i < |choices|
      ensures !EndsBadly(l, choices, script, i)
    {
      assert script[i] in script;
      EndingIsRead(choices[i], script[i]);
    }
  }

  // Without errors everything is sent, and one unanswered package each is kept all along.
  lemma {:induction false} QuietSends(l: Link, pms: seq<int>, choices: seq<int>, script: seq<seq<Reply>>)
    requires |script| == |choices| && l.OneEach(pms) && Answering(l, 0, choices, script)
    requires forall pm :: pm in choices ==> pm in pms
    requires forall replies :: replies in script ==> Quiet(replies)
    ensures var r := Sends(l, 0, choices, script);
            r.link.OneEach(pms) && r.code == 0 && r.count == |choices|
    decreases |choices|
  {
    if choices != [] {
      var pm, replies := choices[0], script[0];
      assert pm in choices && replies in script;
      NextBatchExactly(l, pms, pm, replies);
      if !l.state[pm] {
        QuietEndsWell(pm, replies);
      }
      assert forall q :: q in choices[1..] ==> q in choices;
      assert forall q :: q in script[1..] ==> q in script;
      QuietSends(AfterNext(l, pm, replies), pms, choices[1..], script[1..]);
    }
  }

  // The first messages sent are the first batches, each to the PM chosen for it.
  ghost predicate InOrder(sent: seq<Message>, batches: seq<Package>, choices: seq<int>) {
    && |sent| <= |batches| == |choices| && Packages(sent) == batches[..|sent|]
    && forall i :: 0 <= i < |sent| ==> sent[i].target == choices[i]
  }

  lemma OrderGrows(sent: seq<Message>, m: Message, batches: seq<Package>, choices: seq<int>)
    requires InOrder(sent, batches, choices) && |sent| < |batches|
    requires m.package == batches[|sent|] && m.target == choices[|sent|]
    ensures InOrder(sent + [m], batches, choices)
  {
    var n := |sent|;
    assert batches[..n + 1] == batches[..n] + [batches[n]];
    assert Packages(sent + [m]) == Packages(sent) + [m.package];
  }

  // A new processor, and a choice of PMs for the batches.
  ghost predicate Starts(p: BatchInsertProc, batches: seq<Package>, choices: seq<int>)
    reads p, p.fWEClient
  {
    && p.Valid() && p.OneUnansweredEach() && p.added == [] && p.fErrorCode == 0
    && p.fWEClient.unanswered == multiset{}
    && |choices| == |batches| && (forall pm :: pm in choices ==> pm in p.fPMs && pm != 0)
  }

  // The batches of a statement, as they come in. A statement of one batch sends it as the first; any
  // other sends each as the next one, unless an error other than a range warning is noted. At the end
  // the answers still due are collected; last is what is read then. The packages go out in order, none
  // skipped or repeated, each to the PM chosen for it. What stays outstanding is what the PMs in state
  // false do not account for.
  method InsertBatches(p: BatchInsertProc, batches: seq<Package>, choices: seq<int>, script: seq<seq<Reply>>,
                       last: seq<Reply>)
    requires Starts(p, batches, choices) && |script| == |batches| > 0
    requires Replied(p.Abstract(), choices, script)
    requires Answers(last) == Statement(p.Abstract(), choices, script).link.unanswered
    modifies p, p.fWEClient
    ensures p.Valid() && p.fInsertPkgQueue == [] && InOrder(p.fWEClient.sent, batches, choices)
    ensures p.fPMs == old(p.fPMs)
    ensures var run := Statement(old(p.Abstract()), choices, script);
            var due := |Waiting(p.fPMs, run.link.state)|;
            && |p.fWEClient.sent| == run.count && (run.count < |batches| ==> p.fErrorCode != 0)
            && (|batches| > 1 ==> SentUpTo(old(p.Abstract()), choices, script, run.count))
            && p.fErrorCode == ErrorAfterAll(run.code, FirstAnswers(due, last))
            && |p.fWEClient.unanswered| == |run.link.unanswered| - due
            && (p.fWEClient.unanswered == multiset{} <==> run.link.OneEach(p.fPMs))
  {
    SendsExactly(p.Abstract(), 0, choices, script);
    SendStatement(p, batches, choices, script);
    if p.fErrorCode != 0 {
      ErrorsStay(p.fErrorCode, FirstAnswers(|Waiting(p.fPMs, p.fPmState)|, last));
    }
    p.ReceiveOutstandingMsg(last);
  }

  method SendStatement(p: BatchInsertProc, batches: seq<Package>, choices: seq<int>, script: seq<seq<Reply>>)
    requires Starts(p, batches, choices) && |script| == |batches| > 0
    requires Replied(p.Abstract(), choices, script)
    modifies p, p.fWEClient
    ensures p.Valid() && p.fInsertPkgQueue == [] && p.fPMs == old(p.fPMs)
    ensures InOrder(p.fWEClient.sent, batches, choices)
    ensures Run(p.Abstract(), p.fErrorCode, |p.fWEClient.sent|) == Statement(old(p.Abstract()), choices, script)
    ensures |p.fWEClient.sent| < |batches| ==> p.fErrorCode != 0
  {
    if |batches| == 1 {
      SendOnlyBatch(p, batches, choices);
    } else {
      ShortWithError(p.Abstract(), 0, choices, script);
      SendBatches(p, batches, choices, script);
    }
  }

  // When no read fails and every code is 0 or 13, every package goes out, in order.
  method InsertWithWarnings(p: BatchInsertProc, batches: seq<Package>, choices: seq<int>,
                            script: seq<seq<Reply>>, last: seq<Reply>)
    requires Starts(p, batches, choices) && |script| == |batches| > 0
    requires Replied(p.Abstract(), choices, script)
    requires Answers(last) == Statement(p.Abstract(), choices, script).link.unanswered
    requires forall replies :: replies in script ==> Mild(replies)
    modifies p, p.fWEClient
    ensures p.Valid() && Packages(p.fWEClient.sent) == batches
    ensures forall i :: 0 <= i < |choices| ==> p.fWEClient.sent[i].target == choices[i]
  {
    WarningsGoOn(p.Abstract(), choices, script);
    InsertBatches(p, batches, choices, script, last);
    AllSent(p.fWEClient.sent, batches, choices);
  }

  // Without errors every package goes out, nothing stays outstanding and no error is noted.
  method InsertQuietly(p: BatchInsertProc, batches: seq<Package>, choices: seq<int>, script: seq<seq<Reply>>,
                       last: seq<Reply>)
    requires Starts(p, batches, choices) && |script| == |batches| > 0
    requires Replied(p.Abstract(), choices, script)
    requires Answers(last) == Statement(p.Abstract(), choices, script).link.unanswered
    requires Quiet(last) && forall replies :: replies in script ==> Quiet(replies)
    modifies p, p.fWEClient
    ensures p.Valid() && p.fInsertPkgQueue == [] && InOrder(p.fWEClient.sent, batches, choices)
    ensures Packages(p.fWEClient.sent) == batches && p.fWEClient.unanswered == multiset{} && p.fErrorCode == 0
  {
    QuietStatement(p.Abstract(), p.fPMs, choices, script);
    QuietKeepsCode(|Waiting(p.fPMs, Statement(p.Abstract(), choices, script).link.state)|, last);
    InsertBatches(p, batches, choices, script, last);
    AllSent(p.fWEClient.sent, batches, choices);
  }

  lemma AllSent(sent: seq<Message>, batches: seq<Package>, choices: seq<int>)
    requires InOrder(sent, batches, choices) && |sent| == |batches|
    ensures Packages(sent) == batches
  {
    assert batches[..|batches|] == batches;
  }

  lemma QuietStatement(l: Link, pms: seq<int>, choices: seq<int>, script: seq<seq<Reply>>)
    requires |script| == |choices| > 0 && l.OneEach(pms) && Replied(l, choices, script)
    requires l.unanswered == multiset{} && forall pm :: pm in choices ==> pm in pms
    requires forall replies :: replies in script ==> Quiet(replies)
    ensures var r := Statement(l, choices, script);
            r.link.OneEach(pms) && r.code == 0 && r.count == |choices|
  {
    if |choices| == 1 {
      assert choices[0] in choices;
      WriteKeeps(l, pms, choices[0]);
    } else {
      QuietSends(l, pms, choices, script);
    }
  }

  method SendOnlyBatch(p: BatchInsertProc, batches: seq<Package>, choices: seq<int>)
    requires Starts(p, batches, choices) && |batches| == 1
    modifies p, p.fWEClient
    ensures p.Valid() && p.fInsertPkgQueue == [] && p.fPMs == old(p.fPMs)
    ensures |p.fWEClient.sent| == 1 && InOrder(p.fWEClient.sent, batches, choices)
    ensures p.Abstract() == old(p.Abstract()).AfterWrite(choices[0]) && p.fErrorCode == 0
  {
    var pm := choices[0];
    assert pm in choices;
    p.AddPkg(batches[0]);
    p.SendFirstBatch(Some(pm));
    assert batches[..1] == batches == [batches[0]];
  }

  // What is left to send, and that it ends as the whole does.
  ghost predicate Sending(run: Run, l: Link, code: int, choices: seq<int>, script: seq<seq<Reply>>, i: int) {
    && 0 <= i <= |choices| == |script| && Answering(l, code, choices[i..], script[i..])
    && var rest := Sends(l, code, choices[i..], script[i..]); run == rest.(count := rest.count + i)
  }

  lemma BeginSending(l: Link, code: int, choices: seq<int>, script: seq<seq<Reply>>)
    requires |script| == |choices| && Answering(l, code, choices, script)
    ensures Sending(Sends(l, code, choices, script), l, code, choices, script, 0)
  {
    assert choices[0..] == choices && script[0..] == script;
  }

  lemma NextSending(run: Run, l: Link, code: int, choices: seq<int>, script: seq<seq<Reply>>, i: int)
    requires Sending(run, l, code, choices, script, i) && i < |choices| && !Stops(code)
    ensures Answers(script[i]) == l.unanswered
    ensures Sending(run, AfterNext(l, choices[i], script[i]), CodeAfterNext(code, l, choices[i], script[i]),
                    choices, script, i + 1)
  {
    assert choices[i..][0] == choices[i] && script[i..][0] == script[i];
    assert choices[i..][1..] == choices[i + 1..] && script[i..][1..] == script[i + 1..];
  }

  method SendBatches(p: BatchInsertProc, batches: seq<Package>, choices: seq<int>, script: seq<seq<Reply>>)
    requires Starts(p, batches, choices) && |script| == |batches|
    requires Answering(p.Abstract(), 0, choices, script)
    modifies p, p.fWEClient
    ensures p.Valid() && p.fInsertPkgQueue == [] && p.fPMs == old(p.fPMs)
    ensures InOrder(p.fWEClient.sent, batches, choices)
    ensures Run(p.Abstract(), p.fErrorCode, |p.fWEClient.sent|) == Sends(old(p.Abstract()), 0, choices, script)
  {
    ghost var run := Sends(p.Abstract(), 0, choices, script);
    BeginSending(p.Abstract(), 0, choices, script);
    var i := 0;
    while i < |batches|
      invariant p.fPMs == old(p.fPMs) && p.Valid() && p.fInsertPkgQueue == []
      invariant |p.fWEClient.sent| == i && InOrder(p.fWEClient.sent, batches, choices)
      invariant Sending(run, p.Abstract(), p.fErrorCode, choices, script, i)
    {
      if Stops(p.fErrorCode) {
        return;
      }
      SendOne(run, p, batches, choices, script, i);
      i := i + 1;
    }
  }

  // One round of the loop.
  method SendOne(ghost run: Run, p: BatchInsertProc, batches: seq<Package>, choices: seq<int>,
                 script: seq<seq<Reply>>, i: nat)
    requires p.Valid() && p.fInsertPkgQueue == [] && !Stops(p.fErrorCode)
    requires i < |batches| && |p.fWEClient.sent| == i && InOrder(p.fWEClient.sent, batches, choices)
    requires Sending(run, p.Abstract(), p.fErrorCode, choices, script, i)
    requires forall pm :: pm in choices ==> pm in p.fPMs
    modifies p, p.fWEClient
    ensures p.Valid() && p.fInsertPkgQueue == [] && p.fPMs == old(p.fPMs)
    ensures |p.fWEClient.sent| == i + 1 && InOrder(p.fWEClient.sent, batches, choices)
    ensures Sending(run, p.Abstract(), p.fErrorCode, choices, script, i + 1)
  {
    NextSending(run, p.Abstract(), p.fErrorCode, choices, script, i);
    var pm, batch := choices[i], batches[i];
    assert pm in choices;
    OrderGrows(p.fWEClient.sent, Message(pm, p.fUniqueId, p.fTxnid, pm, batch), batches, choices);
    p.AddPkg(batch);
    p.SendNextBatch(Some(pm), script[i]);
  }
}
