/** What the commit protocol guarantees over every run, and runs that show its limits. */
module CommitTheorems {
  import opened Prelude
  import opened JsText
  import opened GitObjects
  import opened CommitProtocol

  // ----- how runs evolve

  ghost predicate CallLater(c: Call, d: Call) {
    && (d.path, d.content, d.message) == (c.path, c.content, c.message)
    && (c.at.Finished? ==> d.at == c.at)
    && (c.request != NotSent && c.request != InFlight ==> d.request == c.request)
    && (c.at.Finished? && c.request == NotSent ==> d == c)
  }

  ghost predicate Later(s: State, t: State) {
    && Reaches(t.branch, s.branch)
    && s.moves <= t.moves
    && |s.calls| <= |t.calls|
    && forall i | 0 <= i < |s.calls| :: CallLater(s.calls[i], t.calls[i])
  }

  lemma StepIsLater(root: Commit, s: State, a: Action)
    requires Inv(root, s) && Apply(s, a).Some?
    ensures Later(s, Apply(s, a).value)
  {
    hide Chain, MoveInv, CallLanded, Edit;
    if a.Proceed? { assert CallInv(s.calls[a.call], s.branch); }
  }

  lemma {:induction false} RunIsLater(root: Commit, s: State, actions: seq<Action>)
    requires Inv(root, s) && Run(s, actions).Some?
    ensures Later(s, Run(s, actions).value)
    decreases |actions|
  {
    if actions != [] {
      var u, t := Apply(s, actions[0]).value, Run(s, actions).value;
      StepIsLater(root, s, actions[0]);
      StepKeepsInv(root, s, actions[0]);
      RunIsLater(root, u, actions[1..]);
      ReachesTransitive(t.branch, u.branch, s.branch);
      forall i | 0 <= i < |s.calls| ensures CallLater(s.calls[i], t.calls[i]) {
        assert CallLater(s.calls[i], u.calls[i]) && CallLater(u.calls[i], t.calls[i]);
      }
    }
  }

  lemma {:induction false} RunAppend(s: State, a: seq<Action>, b: seq<Action>)
    requires Run(s, a).Some?
    ensures Run(s, a + b) == Run(Run(s, a).value, b)
    decreases |a|
  {
    if a == [] {
      assert a + b == b;
    } else {
      assert (a + b)[0] == a[0] && (a + b)[1..] == a[1..] + b;
      RunAppend(Apply(s, a[0]).value, a[1..], b);
    }
  }

  lemma ReachableInv(root: Commit, actions: seq<Action>)
    requires Run(Initial(root), actions).Some?
    ensures Inv(root, Run(Initial(root), actions).value)
  {
    RunKeepsInv(root, Initial(root), actions);
  }

  // ----- serialisability

  /** A commit a call has returned with ok stays on the branch, and stays that call's answer. */
  lemma OkCommitStaysOnBranch(root: Commit, before: seq<Action>, after: seq<Action>, i: nat)
    requires Run(Initial(root), before + after).Some? && Run(Initial(root), before).Some?
    requires var s := Run(Initial(root), before).value;
             i < |s.calls| && s.calls[i].at.Finished? && s.calls[i].at.outcome.ok
    ensures var s, t := Run(Initial(root), before).value, Run(Initial(root), before + after).value;
            && i < |t.calls| && t.calls[i].at == s.calls[i].at
            && s.calls[i].at.outcome.commit.Some?
            && Reaches(t.branch, s.calls[i].at.outcome.commit.value)
            && exists k | 0 <= k < |t.moves| :: t.moves[k].to == s.calls[i].at.outcome.commit.value
  {
    var s := Run(Initial(root), before).value;
    RunAppend(Initial(root), before, after);
    var t := Run(s, after).value;
    ReachableInv(root, before);
    ReachableInv(root, before + after);
    RunIsLater(root, s, after);
    assert CallLater(s.calls[i], t.calls[i]);
    assert CallInv(t.calls[i], t.branch) && CallLanded(root, t, t.calls[i]);
    HeadsClimb(root, t, 0, |t.moves|);
    BuiltIsNotRoot(root, t, t.calls[i]);
  }

  function Head(root: Commit, moves: seq<Move>, k: nat): Commit
    requires k <= |moves|
  {
    if k == 0 then root else moves[k - 1].to
  }

  lemma {:induction false} ChainFrom(root: Commit, moves: seq<Move>, branch: Commit, k: nat)
    requires Chain(root, moves, branch) && k < |moves|
    ensures moves[k].from == Head(root, moves, k) && Head(root, moves, |moves|) == branch
    decreases |moves|
  {
    var n := |moves| - 1;
    if n == 0 {
      assert Chain(root, moves[..n], moves[n].from);
    } else {
      ChainFrom(root, moves[..n], moves[n].from, if k < n then k else 0);
    }
  }

  /** The heads of the branch form a strictly ascending chain. */
  lemma {:induction false} HeadsClimb(root: Commit, s: State, j: nat, k: nat)
    requires Inv(root, s) && j <= k <= |s.moves|
    ensures Reaches(Head(root, s.moves, k), Head(root, s.moves, j))
    ensures j < k ==> Height(Head(root, s.moves, j)) < Height(Head(root, s.moves, k))
    ensures k == |s.moves| ==> Head(root, s.moves, k) == s.branch
    decreases k
  {
    if k > 0 { ChainFrom(root, s.moves, s.branch, k - 1); }
    if j < k {
      var here, prev := Head(root, s.moves, k), Head(root, s.moves, k - 1);
      assert MoveInv(s.moves[k - 1], s.calls);
      HeadsClimb(root, s, j, k - 1);
      ReachesTransitive(here, prev, Head(root, s.moves, j));
      ReachesIsLower(here, prev);
    }
  }

  lemma LandedIsHead(root: Commit, s: State, c: Option<Commit>) returns (k: nat)
    requires Landed(root, s, c)
    ensures k <= |s.moves| && Head(root, s.moves, k) == c.value
  {
    if c.value == root {
      k := 0;
    } else {
      var m :| 0 <= m < |s.moves| && s.moves[m].to == c.value;
      k := m + 1;
    }
  }

  /** Whatever claims a commit built on a head, that commit is the very next head. */
  lemma ClaimIsNextHead(root: Commit, s: State, c: Call) returns (k: nat)
    requires Inv(root, s) && CallInv(c, s.branch) && CallLanded(root, s, c) && Claims(c)
    ensures Base(c).Some? && Built(c).Some?
    ensures k < |s.moves| && Head(root, s.moves, k) == Base(c).value && Head(root, s.moves, k + 1) == Built(c).value
  {
    hide Chain, MoveInv, Landed, WellSent;
    var base, built := Base(c).value, Built(c).value;
    k := LandedIsHead(root, s, Some(base));
    var n := LandedIsHead(root, s, Some(built));
    ParentDoesNotReachChild(base, built);
    if n <= k {
      HeadsClimb(root, s, n, k);
    } else {
      HeadsClimb(root, s, k + 1, n);
      HeadsClimb(root, s, k, k + 1);
      var next := Head(root, s.moves, k + 1);
      FastForwardIsCompareAndSwap(next, base, built);
    }
  }

  lemma BuiltIsNotRoot(root: Commit, s: State, c: Call)
    requires Inv(root, s) && CallInv(c, s.branch) && CallLanded(root, s, c) && Claims(c)
    ensures Built(c).Some? && Built(c).value != root
  {
    var k := ClaimIsNextHead(root, s, c);
    HeadsClimb(root, s, 0, k + 1);
  }

  /** Two commits built on the same head never both land: of all the calls that read one head, those
      whose update was accepted, or that answered ok, all stand for one and the same commit. */
  lemma OneCommitPerHead(root: Commit, actions: seq<Action>, i: nat, j: nat)
    requires Run(Initial(root), actions).Some?
    requires var s := Run(Initial(root), actions).value;
             && i < |s.calls| && j < |s.calls| && Claims(s.calls[i]) && Claims(s.calls[j])
             && Base(s.calls[i]) == Base(s.calls[j])
    ensures var s := Run(Initial(root), actions).value;
            Built(s.calls[i]).Some? && Built(s.calls[i]) == Built(s.calls[j])
  {
    var s := Run(Initial(root), actions).value;
    ReachableInv(root, actions);
    assert CallInv(s.calls[i], s.branch) && CallLanded(root, s, s.calls[i]);
    assert CallInv(s.calls[j], s.branch) && CallLanded(root, s, s.calls[j]);
    var k := ClaimIsNextHead(root, s, s.calls[i]);
    var m := ClaimIsNextHead(root, s, s.calls[j]);
    if k < m { HeadsClimb(root, s, k, m); }
    if m < k { HeadsClimb(root, s, m, k); }
  }

  /** The edits of the calls whose updates moved the branch, in the order they took effect; a
      foreign push sets the whole tree. */
  function Replay(files: Files, moves: seq<Move>, calls: seq<Call>): Files {
    if moves == [] then files
    else
      var m, before := moves[|moves| - 1], Replay(files, moves[..|moves| - 1], calls);
      if m.mover.Some? && m.mover.value < |calls|
      then before[calls[m.mover.value].path := Blob(calls[m.mover.value].content)]
      else m.to.files
  }

  lemma {:induction false} ReplayReachesHead(root: Commit, s: State, k: nat)
    requires Inv(root, s) && k <= |s.moves|
    ensures Replay(root.files, s.moves[..k], s.calls) == Head(root, s.moves, k).files
  {
    if k > 0 {
      ReplayReachesHead(root, s, k - 1);
      assert s.moves[..k][..k - 1] == s.moves[..k - 1];
      var m := s.moves[k - 1];
      assert MoveInv(m, s.calls);
      ChainFrom(root, s.moves, s.branch, k - 1);
      if m.mover.Some? { assert CallInv(s.calls[m.mover.value], s.branch); }
    }
  }

  /** The branch's file map is the replay of the landed one-path edits in effect order. */
  lemma BranchIsReplayOfLandedEdits(root: Commit, actions: seq<Action>)
    requires Run(Initial(root), actions).Some?
    ensures var s := Run(Initial(root), actions).value;
            s.branch.files == Replay(root.files, s.moves, s.calls)
  {
    var s := Run(Initial(root), actions).value;
    ReachableInv(root, actions);
    HeadsClimb(root, s, 0, |s.moves|);
    ReplayReachesHead(root, s, |s.moves|);
    assert s.moves[..|s.moves|] == s.moves;
  }

  /** Every ok call's commit is one of the replayed moves: made from the head the call read, and
      leaving exactly that head's files with the call's path replaced. */
  lemma OkCallIsOneReplayedEdit(root: Commit, actions: seq<Action>, i: nat)
    requires Run(Initial(root), actions).Some?
    requires var s := Run(Initial(root), actions).value;
             i < |s.calls| && s.calls[i].at.Finished? && s.calls[i].at.outcome.ok
    ensures var s := Run(Initial(root), actions).value;
            var c := s.calls[i];
            exists k | 0 <= k < |s.moves| ::
              && c.at.outcome.commit == Some(s.moves[k].to)
              && s.moves[k].to.files == Replay(root.files, s.moves[..k], s.calls)[c.path := Blob(c.content)]
  {
    var s := Run(Initial(root), actions).value;
    ReachableInv(root, actions);
    assert CallInv(s.calls[i], s.branch) && CallLanded(root, s, s.calls[i]);
    var k := ClaimIsNextHead(root, s, s.calls[i]);
    ReplayReachesHead(root, s, k);
  }

  // ----- what the outcome labels mean

  ghost predicate MovedBy(s: State, i: nat) {
    exists k | 0 <= k < |s.moves| :: s.moves[k].mover == Some(i)
  }

  /** A call that failed before its ref update never moves the branch, then or later. */
  lemma EarlyFailureNeverMoves(root: Commit, before: seq<Action>, after: seq<Action>, i: nat)
    requires Run(Initial(root), before).Some? && Run(Initial(root), before + after).Some?
    requires var s := Run(Initial(root), before).value;
             i < |s.calls| && s.calls[i].at.Finished? && BeforeUpdate(s.calls[i].at.outcome.phase)
    ensures !MovedBy(Run(Initial(root), before + after).value, i)
  {
    var s, t := Run(Initial(root), before).value, Run(Initial(root), before + after).value;
    RunAppend(Initial(root), before, after);
    ReachableInv(root, before);
    ReachableInv(root, before + after);
    RunIsLater(root, s, after);
    assert CallInv(s.calls[i], s.branch) && CallLater(s.calls[i], t.calls[i]);
    forall k | 0 <= k < |t.moves| ensures t.moves[k].mover != Some(i) {
      assert MoveInv(t.moves[k], t.calls);
    }
  }

  /** The verdict of the second ref read, at the moment it is taken: reconciled exactly if the read succeeds and
      the commit is the head, unchanged exactly if it succeeds and the head is the one the call read, and
      conflicted otherwise. Unchanged means that the commit is not on the branch, and conflicted is the only
      failure that leaves open that it is. */
  lemma ReconcileVerdict(root: Commit, actions: seq<Action>, i: nat, success: bool, stamp: nat)
    requires Run(Initial(root), actions).Some?
    requires var s := Run(Initial(root), actions).value;
             i < |s.calls| && s.calls[i].at.Reconciling?
    ensures var s := Run(Initial(root), actions).value;
            var r := Apply(s, Proceed(i, success, stamp));
            && r.Some? && r.value.branch == s.branch && r.value.calls[i].at.Finished?
            && var o, head, built := r.value.calls[i].at.outcome, s.calls[i].at.head, s.calls[i].at.built;
               && built.parents == [head]
               && (o.phase == UpdateRefReconciled <==> success && s.branch == built)
               && (o.phase == UpdateRefUnchanged <==> success && s.branch == head)
               && (o.phase == UpdateRefConflicted <==> !success || (s.branch != built && s.branch != head))
               && o == (if o.phase == UpdateRefReconciled then Outcome(true, Some(built), o.phase)
                        else Outcome(false, None, o.phase))
               && (o.phase == UpdateRefUnchanged ==> !Reaches(s.branch, built))
               && (!o.ok && Reaches(s.branch, built) ==> o.phase == UpdateRefConflicted)
  {
    hide Reaches, Chain, MoveInv, Landed, Blob;
    var s := Run(Initial(root), actions).value;
    ReachableInv(root, actions);
    assert CallInv(s.calls[i], s.branch);
    ParentDoesNotReachChild(s.calls[i].at.head, s.calls[i].at.built);
  }

  ghost predicate MovesWithin(s: State, later: seq<Action>, i: nat) {
    Run(s, later).Some? && MovedBy(Run(s, later).value, i)
  }

  /** Once a call has answered, its update can still move the branch later exactly when the server
      has not yet handled it and the branch is still at the head the call read. */
  lemma LateLandingExactly(root: Commit, actions: seq<Action>, i: nat)
    requires Run(Initial(root), actions).Some?
    requires var s := Run(Initial(root), actions).value;
             i < |s.calls| && s.calls[i].at.Finished? && !MovedBy(s, i)
    ensures var s := Run(Initial(root), actions).value;
            (exists later: seq<Action> :: MovesWithin(s, later, i))
            <==> s.calls[i].request == InFlight && Base(s.calls[i]) == Some(s.branch)
  {
    var s := Run(Initial(root), actions).value;
    ReachableInv(root, actions);
    assert CallInv(s.calls[i], s.branch);
    if s.calls[i].request == InFlight && Base(s.calls[i]) == Some(s.branch) {
      ParentDoesNotReachChild(s.branch, Built(s.calls[i]).value);
      var later := [Deliver(i)];
      var t := Apply(s, Deliver(i)).value;
      assert later[0] == Deliver(i) && later[1..] == [];
      assert Run(t, []) == Some(t);
      assert t.moves[|s.moves|].mover == Some(i);
      assert MovesWithin(s, later, i);
    } else {
      forall later: seq<Action> ensures !MovesWithin(s, later, i) {
        if Run(s, later).Some? { ShutOutStays(root, s, later, i); }
      }
    }
  }

  ghost predicate ShutOut(s: State, i: nat) {
    && i < |s.calls| && s.calls[i].at.Finished? && !MovedBy(s, i)
    && (s.calls[i].request == InFlight ==> Base(s.calls[i]) != Some(s.branch))
  }

  lemma DeliverShutOut(root: Commit, s: State, i: nat)
    requires Inv(root, s) && ShutOut(s, i) && Apply(s, Deliver(i)).Some?
    ensures Apply(s, Deliver(i)).value.moves == s.moves
  {
    var c := s.calls[i];
    assert CallInv(c, s.branch);
    if Reaches(Built(c).value, s.branch) {
      FastForwardIsCompareAndSwap(s.branch, Base(c).value, Built(c).value);
    }
  }

  lemma StepKeepsShutOut(root: Commit, s: State, a: Action, i: nat)
    requires Inv(root, s) && ShutOut(s, i) && Apply(s, a).Some?
    ensures ShutOut(Apply(s, a).value, i)
  {
    var c, t := s.calls[i], Apply(s, a).value;
    StepIsLater(root, s, a);
    assert CallInv(c, s.branch) && CallLater(c, t.calls[i]);
    if Base(c).Some? && t.branch == Base(c).value { ReachesAntisymmetric(s.branch, t.branch); }
    if a == Deliver(i) { DeliverShutOut(root, s, i); }
    forall k | 0 <= k < |t.moves| ensures t.moves[k].mover != Some(i) {
      if k < |s.moves| { assert t.moves[k] == s.moves[k]; }
    }
  }

  lemma {:induction false} ShutOutStays(root: Commit, s: State, later: seq<Action>, i: nat)
    requires Inv(root, s) && Run(s, later).Some? && ShutOut(s, i)
    ensures !MovedBy(Run(s, later).value, i)
    decreases |later|
  {
    if later != [] {
      StepKeepsInv(root, s, later[0]);
      StepKeepsShutOut(root, s, later[0], i);
      ShutOutStays(root, Apply(s, later[0]).value, later[1..], i);
    }
  }

  // ----- runs of each kind

  function Times(n: nat, a: Action): seq<Action> {
    if n == 0 then [] else [a] + Times(n - 1, a)
  }

  /** A call that gets `n` successful replies in a row while the branch stands still. */
  function Advance(c: Call, branch: Commit, n: nat): Option<Call>
    decreases n
  {
    if n == 0 then Some(c)
    else match Continue(c, branch, true, 0)
      case None => None
      case Some(d) => Advance(d, branch, n - 1)
  }

  lemma {:induction false} AdvanceRuns(s: State, i: nat, n: nat)
    requires i < |s.calls| && Advance(s.calls[i], s.branch, n).Some?
    ensures Run(s, Times(n, Proceed(i, true, 0)))
         == Some(s.(calls := s.calls[i := Advance(s.calls[i], s.branch, n).value]))
    decreases n
  {
    if n == 0 {
      assert s.calls[i := s.calls[i]] == s.calls;
    } else {
      var t := Apply(s, Proceed(i, true, 0)).value;
      Prepend(s, Proceed(i, true, 0), Times(n - 1, Proceed(i, true, 0)));
      AdvanceRuns(t, i, n - 1);
      assert t.calls[i := Advance(t.calls[i], s.branch, n - 1).value]
          == s.calls[i := Advance(t.calls[i], s.branch, n - 1).value];
    }
  }

  /** The steps of a first call up to the moment its update is on its way. */
  function UpToSend(path: string, content: JsString, message: string): seq<Action> {
    [Start(path, content, message)] + Times(6, Proceed(0, true, 0))
  }

  function Awaiting(root: Commit, path: string, content: JsString, message: string): State {
    var built := Edit(root, path, content, message, 0);
    State(root, [Call(path, content, message, AwaitingReply(root, built), InFlight)], [])
  }

  lemma SixReplies(root: Commit, path: string, content: JsString, message: string)
    ensures Advance(Call(path, content, message, ReadingRef, NotSent), root, 6)
         == Some(Awaiting(root, path, content, message).calls[0])
  {
    var c := Call(path, content, message, ReadingRef, NotSent);
    var c1, c2 := c.(at := ReadingParent(root)), c.(at := CreatingBlob(root, root.files));
    var c3 := c.(at := CreatingTree(root, root.files, Blob(content)));
    assert Advance(c, root, 6) == Advance(c1, root, 5) == Advance(c2, root, 4) == Advance(c3, root, 3);
    var c4 := c.(at := CreatingCommit(root, root.files[path := Blob(content)]));
    var c5 := c.(at := SendingUpdate(root, Edit(root, path, content, message, 0)));
    assert Advance(c3, root, 3) == Advance(c4, root, 2) == Advance(c5, root, 1);
    assert Advance(c5, root, 1) == Advance(Awaiting(root, path, content, message).calls[0], root, 0);
  }

  lemma UpToSendRuns(root: Commit, path: string, content: JsString, message: string)
    ensures Run(Initial(root), UpToSend(path, content, message)) == Some(Awaiting(root, path, content, message))
  {
    var s := Apply(Initial(root), Start(path, content, message)).value;
    Prepend(Initial(root), Start(path, content, message), Times(6, Proceed(0, true, 0)));
    SixReplies(root, path, content, message);
    AdvanceRuns(s, 0, 6);
    var w := Awaiting(root, path, content, message);
    assert s.calls[0 := w.calls[0]] == w.calls;
  }

  lemma Steps2(s: State, a: Action, b: Action)
    requires Apply(s, a).Some? && Apply(Apply(s, a).value, b).Some?
    ensures Run(s, [a, b]) == Apply(Apply(s, a).value, b)
  {
    var t := Apply(s, a).value;
    assert [a, b][0] == a && [a, b][1..] == [b];
    assert [b][0] == b && [b][1..] == [];
    assert Run(t, [b]) == Run(Apply(t, b).value, []);
  }

  /** How a call whose update was sent can end: which label, whether the commit is then on the
      branch, and whether its update can still land. */
  datatype Ending = Ending(phase: Label, onBranch: bool, pending: bool)

  ghost predicate Exhibits(root: Commit, actions: seq<Action>, e: Ending) {
    var r := Run(Initial(root), actions);
    && r.Some? && |r.value.calls| > 0 && r.value.calls[0].at.Finished?
    && r.value.calls[0].at.outcome.phase == e.phase
    && Built(r.value.calls[0]).Some?
    && (e.onBranch <==> Reaches(r.value.branch, Built(r.value.calls[0]).value))
    && (e.pending <==> r.value.calls[0].request == InFlight)
  }

  const GIVE_UP := [Proceed(0, false, 0), Proceed(0, true, 0)]

  lemma PlainEnding(root: Commit, path: string, content: JsString)
    ensures exists a :: Exhibits(root, a, Ending(NoLabel, true, false))
  {
    hide Run, UpToSend, Exhibits;
    var up, w := UpToSend(path, content, "m"), Awaiting(root, path, content, "m");
    UpToSendRuns(root, path, content, "m");
    ParentDoesNotReachChild(root, Edit(root, path, content, "m", 0));
    Steps2(w, Deliver(0), Proceed(0, true, 0));
    Exhibit(root, up, [Deliver(0), Proceed(0, true, 0)], Ending(NoLabel, true, false));
  }

  lemma ReconciledEnding(root: Commit, path: string, content: JsString)
    ensures exists a :: Exhibits(root, a, Ending(UpdateRefReconciled, true, false))
  {
    hide Run, UpToSend, Exhibits;
    var up, w := UpToSend(path, content, "m"), Awaiting(root, path, content, "m");
    UpToSendRuns(root, path, content, "m");
    ParentDoesNotReachChild(root, Edit(root, path, content, "m", 0));
    var landed := Apply(w, Deliver(0)).value;
    Steps2(landed, Proceed(0, false, 0), Proceed(0, true, 0));
    Prepend(w, Deliver(0), GIVE_UP);
    Exhibit(root, up, [Deliver(0)] + GIVE_UP, Ending(UpdateRefReconciled, true, false));
  }

  lemma LateEnding(root: Commit, path: string, content: JsString)
    ensures exists a :: Exhibits(root, a, Ending(UpdateRefUnchanged, false, true))
  {
    hide Run, UpToSend, Exhibits;
    var up, w := UpToSend(path, content, "m"), Awaiting(root, path, content, "m");
    UpToSendRuns(root, path, content, "m");
    ParentDoesNotReachChild(root, Edit(root, path, content, "m", 0));
    Steps2(w, Proceed(0, false, 0), Proceed(0, true, 0));
    Exhibit(root, up, GIVE_UP, Ending(UpdateRefUnchanged, false, true));
  }

  lemma LostEnding(root: Commit, path: string, content: JsString)
    ensures exists a :: Exhibits(root, a, Ending(UpdateRefUnchanged, false, false))
  {
    hide Run, UpToSend, Exhibits;
    var up, w := UpToSend(path, content, "m"), Awaiting(root, path, content, "m");
    UpToSendRuns(root, path, content, "m");
    ParentDoesNotReachChild(root, Edit(root, path, content, "m", 0));
    var lost := Apply(w, Lose(0)).value;
    Steps2(lost, Proceed(0, false, 0), Proceed(0, true, 0));
    Prepend(w, Lose(0), GIVE_UP);
    Exhibit(root, up, [Lose(0)] + GIVE_UP, Ending(UpdateRefUnchanged, false, false));
  }

  lemma ConflictedAfterLanding(root: Commit, path: string, content: JsString)
    ensures exists a :: Exhibits(root, a, Ending(UpdateRefConflicted, true, false))
  {
    hide Run, UpToSend, Exhibits, Height;
    var up, w := UpToSend(path, content, "m"), Awaiting(root, path, content, "m");
    UpToSendRuns(root, path, content, "m");
    var built := Edit(root, path, content, "m", 0);
    var above := Edit(built, path, [], "other", 1);
    ParentDoesNotReachChild(root, built);
    ParentDoesNotReachChild(built, above);
    ReachesIsLower(above, built);
    ReachesIsLower(built, root);
    var landed := Apply(w, Deliver(0)).value;
    var covered := Apply(landed, Push(above)).value;
    Steps2(covered, Proceed(0, false, 0), Proceed(0, true, 0));
    Prepend(landed, Push(above), GIVE_UP);
    Prepend(w, Deliver(0), [Push(above)] + GIVE_UP);
    Exhibit(root, up, [Deliver(0)] + ([Push(above)] + GIVE_UP), Ending(UpdateRefConflicted, true, false));
  }

  lemma ConflictedWithoutLanding(root: Commit, path: string, content: JsString)
    ensures exists a :: Exhibits(root, a, Ending(UpdateRefConflicted, false, false))
  {
    hide Run, UpToSend, Exhibits, Height;
    var up, w := UpToSend(path, content, "m"), Awaiting(root, path, content, "m");
    UpToSendRuns(root, path, content, "m");
    var built, beside := Edit(root, path, content, "m", 0), Edit(root, path, content, "other", 0);
    ParentDoesNotReachChild(root, built);
    ParentDoesNotReachChild(root, beside);
    ReachesIsLower(beside, root);
    if Reaches(beside, built) { FastForwardIsCompareAndSwap(built, root, beside); }
    var lost := Apply(w, Lose(0)).value;
    var bypassed := Apply(lost, Push(beside)).value;
    Steps2(bypassed, Proceed(0, false, 0), Proceed(0, true, 0));
    Prepend(lost, Push(beside), GIVE_UP);
    Prepend(w, Lose(0), [Push(beside)] + GIVE_UP);
    Exhibit(root, up, [Lose(0)] + ([Push(beside)] + GIVE_UP), Ending(UpdateRefConflicted, false, false));
  }

  /** Six runs: a plain ok; a lost reply reconciled; an update lost for good and one merely late,
      both labelled unchanged; and conflicted with the commit on the branch, and without it. */
  lemma EveryEndingHappens(root: Commit)
    ensures exists a :: Exhibits(root, a, Ending(NoLabel, true, false))
    ensures exists a :: Exhibits(root, a, Ending(UpdateRefReconciled, true, false))
    ensures exists a :: Exhibits(root, a, Ending(UpdateRefUnchanged, false, false))
    ensures exists a :: Exhibits(root, a, Ending(UpdateRefUnchanged, false, true))
    ensures exists a :: Exhibits(root, a, Ending(UpdateRefConflicted, true, false))
    ensures exists a :: Exhibits(root, a, Ending(UpdateRefConflicted, false, false))
  {
    hide Exhibits;
    PlainEnding(root, "p", []);
    ReconciledEnding(root, "p", []);
    LostEnding(root, "p", []);
    LateEnding(root, "p", []);
    ConflictedAfterLanding(root, "p", []);
    ConflictedWithoutLanding(root, "p", []);
  }

  lemma Prepend(s: State, a: Action, rest: seq<Action>)
    requires Apply(s, a).Some?
    ensures Run(s, [a] + rest) == Run(Apply(s, a).value, rest)
  {
    assert ([a] + rest)[0] == a && ([a] + rest)[1..] == rest;
  }

  lemma Exhibit(root: Commit, up: seq<Action>, rest: seq<Action>, e: Ending)
    requires Run(Initial(root), up).Some?
    requires var r := Run(Run(Initial(root), up).value, rest);
             && r.Some? && |r.value.calls| > 0 && r.value.calls[0].at.Finished?
             && r.value.calls[0].at.outcome.phase == e.phase
             && Built(r.value.calls[0]).Some?
             && (e.onBranch <==> Reaches(r.value.branch, Built(r.value.calls[0]).value))
             && (e.pending <==> r.value.calls[0].request == InFlight)
    ensures Exhibits(root, up + rest, e)
  {
    RunAppend(Initial(root), up, rest);
  }
}
