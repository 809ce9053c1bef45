/** Any number of concurrent `commitRepoFileViaGitData` calls against one branch that only moves
    by fast-forward. Every request a call awaits is one step; the ref update is sent once, and the
    server may handle it, refuse it or never see it at any later time, whether or not the caller is
    still waiting. Foreign pushes may move the branch to any descendant of its head. */
module CommitProtocol {
  import opened Prelude
  import opened JsText
  import opened GitObjects

  datatype Label =
    | NoLabel | ReadRef | ReadParentCommit | CreateBlob | CreateTree | CreateCommit
    | UpdateRefReconciled | UpdateRefUnchanged | UpdateRefConflicted

  datatype Outcome = Outcome(ok: bool, commit: Option<Commit>, phase: Label)

  /** Where a call stands: the request it is about to await, with what it has read and built. */
  datatype Progress =
    | ReadingRef
    | ReadingParent(head: Commit)
    | CreatingBlob(head: Commit, tree: Files)
    | CreatingTree(head: Commit, tree: Files, blob: JsString)
    | CreatingCommit(head: Commit, tree: Files)
    | SendingUpdate(head: Commit, built: Commit)
    | AwaitingReply(head: Commit, built: Commit)
    | Reconciling(head: Commit, built: Commit)
    | Finished(base: Option<Commit>, made: Option<Commit>, outcome: Outcome)

  /** The single ref update of a call, as the server knows it. */
  datatype Request = NotSent | InFlight | Accepted | Refused | Lost

  datatype Call = Call(path: string, content: JsString, message: string, at: Progress, request: Request)

  /** One movement of the branch; `mover` is the call whose update moved it, if one of ours did. */
  datatype Move = Move(from: Commit, to: Commit, mover: Option<nat>)

  datatype State = State(branch: Commit, calls: seq<Call>, moves: seq<Move>)

  datatype Action =
    | Start(path: string, content: JsString, message: string)
    | Proceed(call: nat, success: bool, stamp: nat)
    | Deliver(call: nat)
    | Lose(call: nat)
    | Push(commit: Commit)

  function Base(c: Call): Option<Commit> {
    match c.at
    case ReadingRef => None
    case Finished(base, _, _) => base
    case _ => Some(c.at.head)
  }

  function Built(c: Call): Option<Commit> {
    match c.at
    case SendingUpdate(_, b) => Some(b)
    case AwaitingReply(_, b) => Some(b)
    case Reconciling(_, b) => Some(b)
    case Finished(_, made, _) => made
    case _ => None
  }

  function Fail(c: Call, phase: Label): Call {
    c.(at := Finished(Base(c), Built(c), Outcome(false, None, phase)))
  }

  function Succeed(c: Call, built: Commit, phase: Label): Call {
    c.(at := Finished(Base(c), Some(built), Outcome(true, Some(built), phase)))
  }

  /** What a call does when its awaited request returns. `success` is the reply's `ok`; a reply that
      is lost reads as a failure, and the update's `ok` reply exists only once it was accepted. */
  function Continue(c: Call, branch: Commit, success: bool, stamp: nat): Option<Call> {
    match c.at
    case ReadingRef =>
      Some(if success then c.(at := ReadingParent(branch)) else Fail(c, ReadRef))
    case ReadingParent(h) =>
      Some(if success then c.(at := CreatingBlob(h, h.files)) else Fail(c, ReadParentCommit))
    case CreatingBlob(h, t) =>
      Some(if success then c.(at := CreatingTree(h, t, Blob(c.content))) else Fail(c, CreateBlob))
    case CreatingTree(h, t, b) =>
      Some(if success then c.(at := CreatingCommit(h, t[c.path := b])) else Fail(c, CreateTree))
    case CreatingCommit(h, t) =>
      Some(if success then c.(at := SendingUpdate(h, Commit([h], t, c.message, stamp)))
           else Fail(c, CreateCommit))
    case SendingUpdate(h, b) =>
      Some(c.(at := AwaitingReply(h, b), request := InFlight))
    case AwaitingReply(h, b) =>
      if !success then Some(c.(at := Reconciling(h, b)))
      else if c.request == Accepted then Some(Succeed(c, b, NoLabel))
      else None
    case Reconciling(h, b) =>
      Some(if success && branch == b then Succeed(c, b, UpdateRefReconciled)
           else Fail(c, if success && branch == h then UpdateRefUnchanged else UpdateRefConflicted))
    case Finished(_, _, _) => None
  }

  /** The server's fast-forward rule, and the record of what it did to the branch. */
  function MoveBranch(s: State, to: Commit, mover: Option<nat>): State
    requires Reaches(to, s.branch)
  {
    if to == s.branch then s
    else s.(branch := to, moves := s.moves + [Move(s.branch, to, mover)])
  }

  function Apply(s: State, a: Action): Option<State> {
    match a
    case Start(path, content, message) =>
      Some(s.(calls := s.calls + [Call(path, content, message, ReadingRef, NotSent)]))
    case Proceed(i, success, stamp) =>
      if i >= |s.calls| then None
      else (match Continue(s.calls[i], s.branch, success, stamp)
            case None => None
            case Some(c) => Some(s.(calls := s.calls[i := c])))
    case Deliver(i) =>
      if i >= |s.calls| || s.calls[i].request != InFlight || Built(s.calls[i]).None? then None
      else
        var to := Built(s.calls[i]).value;
        if Reaches(to, s.branch)
        then Some(MoveBranch(s.(calls := s.calls[i := s.calls[i].(request := Accepted)]), to, Some(i)))
        else Some(s.(calls := s.calls[i := s.calls[i].(request := Refused)]))
    case Lose(i) =>
      if i >= |s.calls| || s.calls[i].request != InFlight then None
      else Some(s.(calls := s.calls[i := s.calls[i].(request := Lost)]))
    case Push(c) =>
      if Reaches(c, s.branch) then Some(MoveBranch(s, c, None)) else None
  }

  ghost function Run(s: State, actions: seq<Action>): Option<State>
    decreases |actions|
  {
    if actions == [] then Some(s)
    else match Apply(s, actions[0])
      case None => None
      case Some(t) => Run(t, actions[1..])
  }

  function Initial(root: Commit): State { State(root, [], []) }

  // ----- the invariant

  predicate BeforeUpdate(l: Label) {
    l in {ReadRef, ReadParentCommit, CreateBlob, CreateTree, CreateCommit}
  }

  /** What a call has built matches what it read. */
  ghost predicate WellBuilt(c: Call) {
    && (c.at.CreatingBlob? ==> c.at.tree == c.at.head.files)
    && (c.at.CreatingTree? ==> c.at.tree == c.at.head.files && c.at.blob == Blob(c.content))
    && (c.at.CreatingCommit? ==> c.at.tree == c.at.head.files[c.path := Blob(c.content)])
    && (Built(c).Some? ==>
          && Base(c).Some?
          && Built(c).value == Edit(Base(c).value, c.path, c.content, c.message, Built(c).value.stamp))
  }

  /** The request is sent exactly when the call gets past building its commit. */
  ghost predicate WellSent(c: Call) {
    && (c.request == NotSent <==>
          !(c.at.AwaitingReply? || c.at.Reconciling? || (c.at.Finished? && !BeforeUpdate(c.at.outcome.phase))))
    && (c.request != NotSent ==> Built(c).Some?)
    && (c.at.Finished? && c.at.outcome.ok ==>
          && Built(c) == c.at.outcome.commit && Built(c).Some?
          && ((c.at.outcome.phase == NoLabel && c.request == Accepted) || c.at.outcome.phase == UpdateRefReconciled))
    && (c.at.Finished? && !c.at.outcome.ok ==>
          c.at.outcome.commit.None? && c.at.outcome.phase != NoLabel && c.at.outcome.phase != UpdateRefReconciled)
  }

  ghost predicate CallInv(c: Call, branch: Commit) {
    && WellBuilt(c)
    && WellSent(c)
    && (Base(c).Some? ==> Reaches(branch, Base(c).value))
    && (c.request == Accepted ==> Built(c).Some? && Reaches(branch, Built(c).value))
    && (c.at.Finished? && c.at.outcome.ok ==> Built(c).Some? && Reaches(branch, Built(c).value))
  }

  ghost predicate MoveInv(m: Move, calls: seq<Call>) {
    && Reaches(m.to, m.from) && m.to != m.from
    && (m.mover.Some? ==>
          && m.mover.value < |calls|
          && calls[m.mover.value].request == Accepted
          && Base(calls[m.mover.value]) == Some(m.from)
          && Built(calls[m.mover.value]) == Some(m.to))
  }

  ghost predicate Chain(root: Commit, moves: seq<Move>, branch: Commit) {
    if moves == [] then root == branch
    else moves[|moves| - 1].to == branch && Chain(root, moves[..|moves| - 1], moves[|moves| - 1].from)
  }

  ghost predicate Inv(root: Commit, s: State) {
    && Chain(root, s.moves, s.branch)
    && (forall i | 0 <= i < |s.calls| :: CallInv(s.calls[i], s.branch))
    && (forall k | 0 <= k < |s.moves| :: MoveInv(s.moves[k], s.calls))
    && (forall i | 0 <= i < |s.calls| :: CallLanded(root, s, s.calls[i]))
  }

  /** The call's commit is known to be on the branch, by the server or by the caller. */
  predicate Claims(c: Call) {
    c.request == Accepted || (c.at.Finished? && c.at.outcome.ok)
  }

  /** The head a call read, and any commit it may claim, have been heads of the branch. */
  ghost predicate CallLanded(root: Commit, s: State, c: Call) {
    && (Base(c).Some? ==> Landed(root, s, Base(c)))
    && (Claims(c) ==> Landed(root, s, Built(c)))
  }

  /** The branch has been at `c`: it started there or a move took it there. */
  ghost predicate Landed(root: Commit, s: State, c: Option<Commit>) {
    c.Some? && (c.value == root || exists k | 0 <= k < |s.moves| :: s.moves[k].to == c.value)
  }

  lemma BranchLanded(root: Commit, s: State)
    requires Chain(root, s.moves, s.branch)
    ensures Landed(root, s, Some(s.branch))
  {
    if s.moves != [] { assert s.moves[|s.moves| - 1].to == s.branch; }
  }

  lemma LandedKept(root: Commit, s: State, t: State, c: Option<Commit>)
    requires Landed(root, s, c) && s.moves <= t.moves
    ensures Landed(root, t, c)
  {
    if c.value != root {
      var k :| 0 <= k < |s.moves| && s.moves[k].to == c.value;
      assert t.moves[k].to == c.value;
    }
  }

  lemma CallLandedKept(root: Commit, s: State, t: State, c: Call)
    requires CallLanded(root, s, c) && s.moves <= t.moves
    ensures CallLanded(root, t, c)
  {
    if Base(c).Some? { LandedKept(root, s, t, Base(c)); }
    if Claims(c) { LandedKept(root, s, t, Built(c)); }
  }

  lemma CallInvMonotone(c: Call, before: Commit, after: Commit)
    requires CallInv(c, before) && Reaches(after, before)
    ensures CallInv(c, after)
  {
    if Base(c).Some? { ReachesTransitive(after, before, Base(c).value); }
    if Built(c).Some? && Reaches(before, Built(c).value) { ReachesTransitive(after, before, Built(c).value); }
  }

  lemma ContinueKeepsCallInv(c: Call, branch: Commit, success: bool, stamp: nat)
    requires CallInv(c, branch) && Continue(c, branch, success, stamp).Some?
    ensures CallInv(Continue(c, branch, success, stamp).value, branch)
  {
    hide Blob;
  }

  /** One step of one call keeps what the server already knows about it. */
  lemma ContinueKeepsRequest(c: Call, branch: Commit, success: bool, stamp: nat)
    requires CallInv(c, branch) && Continue(c, branch, success, stamp).Some?
    ensures var d := Continue(c, branch, success, stamp).value;
            && (c.request != NotSent ==> d.request == c.request && Base(d) == Base(c) && Built(d) == Built(c))
            && (d.at.Finished? && d.at.outcome.ok ==> d.request == Accepted || d.at.outcome.commit == Some(branch))
            && (Base(d).Some? ==> Base(d) == Base(c) || Base(d) == Some(branch))
            && d.path == c.path && d.content == c.content
  {
  }

  lemma ProceedKeepsInv(root: Commit, s: State, i: nat, success: bool, stamp: nat)
    requires Inv(root, s) && Apply(s, Proceed(i, success, stamp)).Some?
    ensures Inv(root, Apply(s, Proceed(i, success, stamp)).value)
  {
    var c := s.calls[i];
    var d := Continue(c, s.branch, success, stamp).value;
    var t := Apply(s, Proceed(i, success, stamp)).value;
    ContinueKeepsCallInv(c, s.branch, success, stamp);
    ContinueKeepsRequest(c, s.branch, success, stamp);
    forall k | 0 <= k < |t.moves| ensures MoveInv(t.moves[k], t.calls) {
      assert MoveInv(s.moves[k], s.calls);
    }
    BranchLanded(root, s);
    forall j | 0 <= j < |t.calls| ensures CallLanded(root, t, t.calls[j]) {
      assert CallInv(t.calls[j], t.branch) && CallLanded(root, s, s.calls[j]);
      CallLandedKept(root, s, t, if j == i then c else t.calls[j]);
    }
  }

  lemma PushKeepsInv(root: Commit, s: State, to: Commit)
    requires Inv(root, s) && Reaches(to, s.branch)
    ensures Inv(root, MoveBranch(s, to, None))
  {
    var t := MoveBranch(s, to, None);
    if to != s.branch {
      assert t.moves[..|t.moves| - 1] == s.moves;
      forall i | 0 <= i < |t.calls| ensures CallInv(t.calls[i], t.branch) {
        CallInvMonotone(s.calls[i], s.branch, to);
      }
      forall i | 0 <= i < |t.calls| ensures CallLanded(root, t, t.calls[i]) {
        CallLandedKept(root, s, t, s.calls[i]);
      }
    }
  }

  lemma AcceptedCallInv(calls: seq<Call>, i: nat, branch: Commit, to: Commit)
    requires i < |calls| && calls[i].request == InFlight && Built(calls[i]) == Some(to)
    requires forall j | 0 <= j < |calls| :: CallInv(calls[j], branch)
    requires Reaches(to, branch)
    ensures var after := calls[i := calls[i].(request := Accepted)];
            forall j | 0 <= j < |after| :: CallInv(after[j], to)
  {
    var after := calls[i := calls[i].(request := Accepted)];
    assert Reaches(to, to);
    forall j | 0 <= j < |after| ensures CallInv(after[j], to) {
      CallInvMonotone(calls[j], branch, to);
    }
  }

  lemma AcceptKeepsLanded(root: Commit, s: State, t: State, i: nat)
    requires Inv(root, s) && i < |s.calls| && s.moves <= t.moves
    requires t.calls == s.calls[i := s.calls[i].(request := Accepted)]
    requires Landed(root, t, Built(s.calls[i]))
    ensures forall j | 0 <= j < |t.calls| :: CallLanded(root, t, t.calls[j])
  {
    forall j | 0 <= j < |t.calls| ensures CallLanded(root, t, t.calls[j]) {
      CallLandedKept(root, s, t, s.calls[j]);
    }
  }

  /** The commit's only parent is the head the call read, so that head is still the head, or the commit is. */
  lemma AcceptedMove(c: Call, branch: Commit, to: Commit)
    requires CallInv(c, branch) && c.request == InFlight && Built(c) == Some(to) && Reaches(to, branch)
    ensures to != branch ==> Base(c) == Some(branch)
  {
    hide Reaches;
    FastForwardIsCompareAndSwap(branch, Base(c).value, to);
  }

  lemma AcceptedMoves(s: State, t: State, i: nat)
    requires forall k | 0 <= k < |s.moves| :: MoveInv(s.moves[k], s.calls)
    requires i < |s.calls| && t.calls == s.calls[i := s.calls[i].(request := Accepted)]
    requires Built(s.calls[i]).Some? && Reaches(Built(s.calls[i]).value, s.branch)
    requires var to := Built(s.calls[i]).value;
             if to == s.branch then t.moves == s.moves
             else Base(s.calls[i]) == Some(s.branch) && t.moves == s.moves + [Move(s.branch, to, Some(i))]
    ensures forall k | 0 <= k < |t.moves| :: MoveInv(t.moves[k], t.calls)
  {
    hide Reaches;
    forall k | 0 <= k < |t.moves| ensures MoveInv(t.moves[k], t.calls) {
      if k < |s.moves| { assert MoveInv(s.moves[k], s.calls); }
    }
  }

  /** An update is accepted only as a compare-and-swap on the head the call read. */
  lemma AcceptKeepsInv(root: Commit, s: State, i: nat)
    requires Inv(root, s) && i < |s.calls| && s.calls[i].request == InFlight && Built(s.calls[i]).Some?
    requires Reaches(Built(s.calls[i]).value, s.branch)
    ensures Inv(root, Apply(s, Deliver(i)).value)
  {
    hide Reaches, CallInv, CallLanded, Landed, MoveInv, Edit, Base, Built, Claims;
    var c, t := s.calls[i], Apply(s, Deliver(i)).value;
    var to := Built(c).value;
    AcceptedMove(c, s.branch, to);
    AcceptedCallInv(s.calls, i, s.branch, to);
    AcceptedMoves(s, t, i);
    if to != s.branch { assert t.moves[..|t.moves| - 1] == s.moves; }
    BranchLanded(root, t);
    AcceptKeepsLanded(root, s, t, i);
  }

  /** A refused or lost update changes only what the server will say about it. */
  lemma ForgetKeepsInv(root: Commit, s: State, t: State, i: nat)
    requires Inv(root, s) && i < |s.calls| && s.calls[i].request == InFlight
    requires t == s.(calls := s.calls[i := s.calls[i].(request := Refused)])
          || t == s.(calls := s.calls[i := s.calls[i].(request := Lost)])
    ensures Inv(root, t)
  {
    hide Blob, Reaches;
    assert CallInv(s.calls[i], s.branch);
    forall k | 0 <= k < |t.moves| ensures MoveInv(t.moves[k], t.calls) { assert MoveInv(s.moves[k], s.calls); }
    forall j | 0 <= j < |t.calls| ensures CallLanded(root, t, t.calls[j]) {
      CallLandedKept(root, s, t, s.calls[j]);
    }
  }

  lemma StepKeepsInv(root: Commit, s: State, a: Action)
    requires Inv(root, s) && Apply(s, a).Some?
    ensures Inv(root, Apply(s, a).value)
  {
    var t := Apply(s, a).value;
    match a
    case Start(path, content, message) =>
      forall k | 0 <= k < |t.moves| ensures MoveInv(t.moves[k], t.calls) { assert MoveInv(s.moves[k], s.calls); }
    case Proceed(i, success, stamp) => ProceedKeepsInv(root, s, i, success, stamp);
    case Deliver(i) =>
      if Reaches(Built(s.calls[i]).value, s.branch) { AcceptKeepsInv(root, s, i); }
      else { ForgetKeepsInv(root, s, t, i); }
    case Lose(i) => ForgetKeepsInv(root, s, t, i);
    case Push(c) => PushKeepsInv(root, s, c);
  }

  lemma {:induction false} RunKeepsInv(root: Commit, s: State, actions: seq<Action>)
    requires Inv(root, s) && Run(s, actions).Some?
    ensures Inv(root, Run(s, actions).value)
    decreases |actions|
  {
    if actions != [] {
      StepKeepsInv(root, s, actions[0]);
      RunKeepsInv(root, Apply(s, actions[0]).value, actions[1..]);
    }
  }
}
