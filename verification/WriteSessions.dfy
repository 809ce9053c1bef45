/** The chunked write sessions kept in the key-value store, and the git commit they end in. Calls for one session
    follow one another; whatever else happens to the repository may happen between any two requests. */
module WriteSessions {
  import opened Prelude
  import opened JsText
  import opened Utf8
  import opened GitObjects
  import opened CommitProtocol
  import opened CommitTheorems

  const MAX_CHARACTERS := 750000
  const SESSION_SECONDS := 24 * 60 * 60

  /** Which replies of one commit arrive as `ok`, and the time stamp the server gives the commit. An `ok` reply
      to the ref update also needs the server to have accepted it by then. */
  datatype Replies = Replies(readRef: bool, readParent: bool, blob: bool, tree: bool, commit: bool,
                             stamp: nat, answered: bool, readAgain: bool)

  /** The label of the first request that failed. */
  function FirstFailure(r: Replies): Label {
    if !r.readRef then ReadRef else if !r.readParent then ReadParentCommit
    else if !r.blob then CreateBlob else if !r.tree then CreateTree else CreateCommit
  }

  predicate AllBuilt(r: Replies) { r.readRef && r.readParent && r.blob && r.tree && r.commit }

  // ----- the repository and everything that happens to it

  ghost predicate Evolves(s: State, t: State) { exists actions :: Run(s, actions) == Some(t) }

  lemma EvolvesOn(s: State, t: State, u: State)
    requires Evolves(s, t) && Evolves(t, u)
    ensures Evolves(s, u)
  {
    hide Run;
    var a :| Run(s, a) == Some(t);
    var b :| Run(t, b) == Some(u);
    RunAppend(s, a, b);
  }

  lemma EvolvesStep(s: State, a: Action)
    ensures Evolves(s, s)
    ensures Apply(s, a).Some? ==> Evolves(s, Apply(s, a).value)
  {
    hide Apply;
    assert Run(s, []) == Some(s);
    if Apply(s, a).Some? {
      assert [a][1..] == [] && Run(Apply(s, a).value, []) == Some(Apply(s, a).value);
      assert Run(s, [a]) == Some(Apply(s, a).value);
    }
  }

  /** Call `i` is where it was; the rest may have moved on. */
  ghost predicate Waits(s: State, t: State, i: nat) {
    && i < |s.calls| <= |t.calls| && s.moves <= t.moves
    && (t.calls[i].at, t.calls[i].path, t.calls[i].content, t.calls[i].message)
       == (s.calls[i].at, s.calls[i].path, s.calls[i].content, s.calls[i].message)
  }

  lemma OthersWait(s: State, a: Action, i: nat)
    requires i < |s.calls| && !(a.Proceed? && a.call == i) && Apply(s, a).Some?
    ensures Waits(s, Apply(s, a).value, i)
  {
    hide Continue, Reaches;
  }

  /** Some move of the branch since `s` made `commit`, and changed nothing but `path`, to a blob of `content`. */
  ghost predicate LandedSince(s: State, t: State, path: string, content: JsString, commit: Option<Commit>) {
    exists k | |s.moves| <= k < |t.moves| ::
      commit == Some(t.moves[k].to) && t.moves[k].to.files == t.moves[k].from.files[path := Blob(content)]
  }

  /** An ok call's commit is the move right after the head it read. */
  lemma OkLandedSince(root: Commit, read: State, t: State, i: nat)
    requires Evolves(Initial(root), read) && Evolves(Initial(root), t) && read.moves <= t.moves
    requires i < |t.calls| && t.calls[i].at.Finished? && t.calls[i].at.outcome.ok
    requires Base(t.calls[i]) == Some(read.branch)
    ensures LandedSince(read, t, t.calls[i].path, t.calls[i].content, t.calls[i].at.outcome.commit)
  {
    hide Run, Reaches, Height, Chain, MoveInv, Landed, CallLanded;
    var a :| Run(Initial(root), a) == Some(read);
    var b :| Run(Initial(root), b) == Some(t);
    ReachableInv(root, a);
    ReachableInv(root, b);
    var n := |read.moves|;
    HeadsClimb(root, read, 0, n);
    assert Head(root, t.moves, n) == Head(root, read.moves, n);
    assert CallInv(t.calls[i], t.branch) && CallLanded(root, t, t.calls[i]);
    var k := ClaimIsNextHead(root, t, t.calls[i]);
    if k < n { HeadsClimb(root, t, k, n); }
    if n < k { HeadsClimb(root, t, n, k); }
    ChainFrom(root, t.moves, t.branch, k);
  }

  class Repository {
    const root: Commit
    /** The server's branch and its history, and the calls made so far, whoever makes them. */
    var state: State

    ghost predicate Valid()
      reads this
    {
      Evolves(Initial(root), state)
    }

    constructor (root: Commit)
      ensures Valid() && state == Initial(root) && this.root == root
    {
      this.root, state := root, Initial(root);
      new;
      EvolvesStep(Initial(root), Lose(0));
    }

    /** One step of the protocol, if it is possible. */
    method Act(a: Action) returns (done: bool)
      requires Valid()
      modifies this`state
      ensures Valid() && Evolves(old(state), state)
      ensures done <==> Apply(old(state), a).Some?
      ensures state == if done then Apply(old(state), a).value else old(state)
    {
      hide Apply, Run;
      EvolvesStep(state, a);
      var next := Apply(state, a);
      done := next.Some?;
      if done {
        EvolvesOn(Initial(root), state, next.value);
        state := next.value;
      }
    }

    /** What others do while call `i` waits: other calls, the server, foreign pushes, in any order. */
    method Meanwhile(i: nat, actions: seq<Action>)
      requires Valid() && i < |state.calls|
      modifies this`state
      ensures Valid() && Evolves(old(state), state) && Waits(old(state), state, i)
      ensures actions == [] ==> state == old(state)
      ensures forall a :: (actions == [a] && !a.Proceed? && Apply(old(state), a).Some?)
                ==> state == Apply(old(state), a).value
    {
      hide Apply, Run;
      EvolvesStep(state, Lose(0));
      for k := 0 to |actions|
        invariant Valid() && Evolves(old(state), state) && Waits(old(state), state, i)
        invariant k == 0 ==> state == old(state)
        invariant (k == 1 && !actions[0].Proceed? && Apply(old(state), actions[0]).Some?)
          ==> state == Apply(old(state), actions[0]).value
      {
        if !(actions[k].Proceed? && actions[k].call == i) {
          ghost var before := state;
          var done := Act(actions[k]);
          if done { OthersWait(before, actions[k], i); }
          EvolvesOn(old(state), before, state);
        }
      }
    }

    /** Others act, and then call `i` gets its reply. */
    method Await(i: nat, others: seq<Action>, success: bool, stamp: nat) returns (seen: Commit)
      requires Valid() && i < |state.calls|
      requires !state.calls[i].at.AwaitingReply? && !state.calls[i].at.Finished?
      modifies this`state
      ensures Valid() && Evolves(old(state), state) && old(state).moves <= state.moves && i < |state.calls|
      ensures seen == state.branch && old(|state.calls|) <= |state.calls|
      ensures exists request ::
                Some(state.calls[i]) == Continue(old(state).calls[i].(request := request), seen, success, stamp)
      ensures others == [] ==>
                && state.branch == old(state).branch
                && Some(state.calls[i]) == Continue(old(state).calls[i], seen, success, stamp)
    {
      hide Run, Reaches;
      Meanwhile(i, others);
      seen := state.branch;
      ghost var before := state;
      ContinueWhatever(old(state).calls[i], before.calls[i], seen, success, stamp);
      var done := Act(Proceed(i, success, stamp));
      EvolvesOn(old(state), before, state);
    }

    /** One `commitRepoFileViaGitData` call among any others: whatever they do between its requests, it ends as
        a call of the protocol, and an ok outcome names a move made since that replaced just this path. */
    method CommitFile(path: string, content: JsString, message: string, r: Replies, others: seq<seq<Action>>)
      returns (o: Outcome)
      requires Valid() && |others| == 8
      modifies this`state
      ensures Valid() && Evolves(old(state), state)
      ensures IsCall(state, |old(state).calls|, path, content, message, o)
      ensures o.ok ==> LandedSince(old(state), state, path, content, o.commit)
      ensures BeforeUpdate(o.phase) <==> !AllBuilt(r)
      ensures !AllBuilt(r) ==> o == Outcome(false, None, FirstFailure(r))
      ensures AllBuilt(r) && o.phase == NoLabel ==> r.answered && o.ok
      ensures AllBuilt(r) && o.phase != NoLabel ==>
                var call := state.calls[|old(state).calls|];
                && (o.phase == UpdateRefReconciled <==> r.readAgain && Built(call) == Some(state.branch))
                && (o.phase == UpdateRefUnchanged <==> r.readAgain && Base(call) == Some(state.branch))
                && (o.phase == UpdateRefConflicted
                    <==> !r.readAgain || (Built(call) != Some(state.branch) && Base(call) != Some(state.branch)))
                && (o.ok <==> o.phase == UpdateRefReconciled)
      ensures forall applied :: Alone(others, |old(state).calls|, applied) ==>
                && state.branch == (if AllBuilt(r) && applied
                                    then Edit(old(state).branch, path, content, message, r.stamp)
                                    else old(state).branch)
                && (o.ok <==> AllBuilt(r) && applied && (r.answered || r.readAgain))
    {
      hide Run, Reaches, LandedSince, Evolves;
      var i := |state.calls|;
      var started := Act(Start(path, content, message));
      ghost var start := state;

      var head, commit;
      ghost var read;
      o, head, commit, read := Build(i, r, others[..5]);
      EvolvesOn(old(state), start, state);
      if !AllBuilt(r) { return; }

      ghost var built := state;
      o := UpdateRef(i, head, commit, r, others[5..]);
      EvolvesOn(old(state), built, state);
      if o.ok {
        OkLandedSince(root, read, state, i);
        LandedEarlier(old(state), read, state, path, content, o.commit);
      }
    }

    /** From the ref read to the finished commit, or to the first failure. `read` is the moment of the ref read. */
    method Build(i: nat, r: Replies, others: seq<seq<Action>>)
      returns (o: Outcome, head: Commit, commit: Commit, ghost read: State)
      requires Valid() && |others| == 5 && i < |state.calls| && state.calls[i].at == ReadingRef
      modifies this`state
      ensures Valid() && Evolves(old(state), state) && Evolves(Initial(root), read)
      ensures old(state).moves <= read.moves <= state.moves && head == read.branch && i < |state.calls|
      ensures (state.calls[i].path, state.calls[i].content, state.calls[i].message)
              == (old(state).calls[i].path, old(state).calls[i].content, old(state).calls[i].message)
      ensures if AllBuilt(r)
              then state.calls[i].at == SendingUpdate(head, commit)
                   && commit == Edit(head, state.calls[i].path, state.calls[i].content, state.calls[i].message, r.stamp)
              else state.calls[i].at.Finished? && state.calls[i].at.outcome == o && BeforeUpdate(o.phase)
                   && o == Outcome(false, None, FirstFailure(r))
      ensures others == [[], [], [], [], []] ==> state.branch == head == old(state).branch
    {
      hide Run, Reaches, Evolves, Apply, BeforeUpdate, Blob;
      EarlyLabels();
      head := Await(i, others[0], r.readRef, 0);
      read, commit := state, head;
      if !r.readRef { return Outcome(false, None, ReadRef), head, commit, read; }

      var seen := Await(i, others[1], r.readParent, 0);
      EvolvesOn(old(state), read, state);
      if !r.readParent { return Outcome(false, None, ReadParentCommit), head, commit, read; }
      var baseTree := head.files;

      ghost var before := state;
      seen := Await(i, others[2], r.blob, 0);
      EvolvesOn(old(state), before, state);
      if !r.blob { return Outcome(false, None, CreateBlob), head, commit, read; }
      var blob := Blob(state.calls[i].content);

      before := state;
      seen := Await(i, others[3], r.tree, 0);
      EvolvesOn(old(state), before, state);
      if !r.tree { return Outcome(false, None, CreateTree), head, commit, read; }
      var tree := baseTree[state.calls[i].path := blob];

      before := state;
      seen := Await(i, others[4], r.commit, r.stamp);
      EvolvesOn(old(state), before, state);
      o := Outcome(false, None, CreateCommit);
      commit := GitObjects.Commit([head], tree, state.calls[i].message, r.stamp);
    }

    /** The reply to the ref update: it is `ok` if it arrives and the server has accepted the update by then. */
    method AwaitUpdate(i: nat, others: seq<Action>, arrives: bool, head: Commit, commit: Commit)
      returns (answered: bool)
      requires Valid() && i < |state.calls| && commit.parents == [head]
      requires state.calls[i].at == AwaitingReply(head, commit)
      modifies this`state
      ensures Valid() && Evolves(old(state), state) && old(state).moves <= state.moves && i < |state.calls|
      ensures (state.calls[i].path, state.calls[i].content, state.calls[i].message)
              == (old(state).calls[i].path, old(state).calls[i].content, old(state).calls[i].message)
      ensures state.calls[i].at
              == if answered then Finished(Some(head), Some(commit), Outcome(true, Some(commit), NoLabel))
                 else Reconciling(head, commit)
      ensures (answered ==> arrives) && head != commit
      ensures forall applied ::
                others == [Arrival(i, applied)] && old(state).branch == head && old(state).calls[i].request == InFlight
                ==> && state.branch == (if applied then commit else head)
                    && (answered <==> applied && arrives)
    {
      hide Run, Reaches, Evolves;
      ghost var sent := state;
      ParentDoesNotReachChild(head, commit);
      if state.calls[i].request == InFlight { ArrivesAlone(sent, i, head, commit); }
      Meanwhile(i, others);
      ghost var waited := state;
      answered := arrives && state.calls[i].request == Accepted;
      var done := Act(Proceed(i, answered, 0));
      EvolvesOn(old(state), waited, state);
    }

    /** The ref update and, when its reply is not ok, the second ref read. */
    method UpdateRef(i: nat, head: Commit, commit: Commit, r: Replies, others: seq<seq<Action>>) returns (o: Outcome)
      requires Valid() && |others| == 3 && i < |state.calls|
      requires state.calls[i].at == SendingUpdate(head, commit) && commit.parents == [head]
      modifies this`state
      ensures Valid() && Evolves(old(state), state) && old(state).moves <= state.moves
      ensures i < |state.calls| && Base(state.calls[i]) == Some(head) && Built(state.calls[i]) == Some(commit)
      ensures IsCall(state, i, old(state).calls[i].path, old(state).calls[i].content, old(state).calls[i].message, o)
      ensures !BeforeUpdate(o.phase) && (o.ok ==> o.commit == Some(commit))
      ensures o.phase == NoLabel ==> r.answered && o.ok
      ensures o.phase != NoLabel ==>
                && (o.phase == UpdateRefReconciled <==> r.readAgain && state.branch == commit)
                && (o.phase == UpdateRefUnchanged <==> r.readAgain && state.branch == head)
                && (o.phase == UpdateRefConflicted
                    <==> !r.readAgain || (state.branch != commit && state.branch != head))
                && (o.ok <==> o.phase == UpdateRefReconciled)
      ensures forall applied :: others == [[], [Arrival(i, applied)], []] && old(state).branch == head ==>
                && state.branch == (if applied then commit else head)
                && (o.ok <==> applied && (r.answered || r.readAgain))
    {
      hide Run, Reaches, Evolves, Apply, Blob;
      var seen := Await(i, others[0], true, 0);
      ghost var sent := state;
      var answered := AwaitUpdate(i, others[1], r.answered, head, commit);
      EvolvesOn(old(state), sent, state);
      if answered { return Outcome(true, Some(commit), NoLabel); }

      ghost var before := state;
      seen := Await(i, others[2], r.readAgain, 0);
      EvolvesOn(old(state), before, state);
      if r.readAgain && seen == commit { return Outcome(true, Some(commit), UpdateRefReconciled); }
      return Outcome(false, None, if r.readAgain && seen == head then UpdateRefUnchanged else UpdateRefConflicted);
    }
  }

  lemma EarlyLabels()
    ensures BeforeUpdate(ReadRef) && BeforeUpdate(ReadParentCommit) && BeforeUpdate(CreateBlob)
    ensures BeforeUpdate(CreateTree) && BeforeUpdate(CreateCommit)
  {
  }

  /** The update reaches the server, or is lost. */
  function Arrival(i: nat, applied: bool): Action { if applied then Deliver(i) else Lose(i) }

  /** Nobody else acts while call `i` runs. */
  ghost predicate Alone(others: seq<seq<Action>>, i: nat, applied: bool) {
    others == [[], [], [], [], [], [], [Arrival(i, applied)], []]
  }

  lemma ArrivesAlone(s: State, i: nat, head: Commit, commit: Commit)
    requires i < |s.calls| && s.calls[i].at == AwaitingReply(head, commit) && s.calls[i].request == InFlight
    requires commit.parents == [head]
    ensures head != commit
    ensures s.branch == head ==> forall applied ::
              var t := Apply(s, Arrival(i, applied));
              && t.Some? && t.value.branch == (if applied then commit else head)
              && t.value.calls == s.calls[i := s.calls[i].(request := if applied then Accepted else Lost)]
  {
    ParentDoesNotReachChild(head, commit);
    assert Reaches(commit.parents[0], head);
  }

  /** Call `i` was made for this edit and has ended with `o`. */
  ghost predicate IsCall(s: State, i: nat, path: string, content: JsString, message: string, o: Outcome) {
    && i < |s.calls| && s.calls[i].at.Finished? && s.calls[i].at.outcome == o
    && (s.calls[i].path, s.calls[i].content, s.calls[i].message) == (path, content, message)
  }

  lemma LandedEarlier(s: State, t: State, u: State, path: string, content: JsString, commit: Option<Commit>)
    requires LandedSince(t, u, path, content, commit) && |s.moves| <= |t.moves|
    ensures LandedSince(s, u, path, content, commit)
  {
  }

  lemma ContinueWhatever(c: Call, d: Call, branch: Commit, success: bool, stamp: nat)
    requires (c.at, c.path, c.content, c.message) == (d.at, d.path, d.content, d.message)
    requires !c.at.AwaitingReply? && !c.at.Finished?
    ensures Continue(d, branch, success, stamp) == Continue(c.(request := d.request), branch, success, stamp)
    ensures Continue(d, branch, success, stamp).Some?
  {
    assert d == c.(request := d.request);
  }

  // ----- reading a file back

  /** `repoFile`: absent, empty and unreachable files all read as not ok. */
  function ReadFile(files: Files, path: string, reachable: bool): Option<JsString> {
    if reachable && path in files && StripBom(files[path]) != [] then Some(StripBom(files[path])) else None
  }

  /** A file is read exactly if it is there, can be reached, and holds more than a byte order mark; what is read is
      its text without a byte order mark at its start. */
  lemma FileReadExactly(files: Files, path: string, reachable: bool)
    ensures var read := ReadFile(files, path, reachable);
            && (read.Some? <==> reachable && path in files && files[path] != [] && files[path] != [0xFEFF])
            && (read.Some? ==>
                  if files[path][0] == 0xFEFF then files[path] == [0xFEFF] + read.value else files[path] == read.value)
  {
    if path in files && files[path] != [] { SplitAt(files[path], 1); }
  }

  // ----- sessions

  datatype Mode = Create | Replace

  datatype Session = Session(path: string, mode: Mode, message: string, content: JsString)

  datatype Stored = Stored(session: Session, expires: nat)

  datatype Reply =
    | Started(id: string)
    | Appended(total: nat)
    | Unchanged
    | Committed(outcome: Outcome)
    | Rejected(error: string)

  function Concat(chunks: seq<JsString>): JsString {
    if chunks == [] then [] else Concat(chunks[..|chunks| - 1]) + chunks[|chunks| - 1]
  }

  lemma OneChunkMore(chunks: seq<JsString>, chunk: JsString)
    ensures Concat(chunks + [chunk]) == Concat(chunks) + chunk
  {
    assert (chunks + [chunk])[..|chunks|] == chunks;
  }

  /** The stored sessions, as the key-value store holds them. */
  type Store = map<string, Stored>

  predicate Takes(store: Store, id: string, chunk: JsString, now: nat) {
    && id in store && now < store[id].expires
    && chunk != [] && |store[id].session.content| + |chunk| <= MAX_CHARACTERS
  }

  function AfterAppend(store: Store, id: string, chunk: JsString, now: nat): Store {
    if !Takes(store, id, chunk, now) then store
    else
      var session := store[id].session;
      store[id := Stored(session.(content := session.content + chunk), now + SESSION_SECONDS)]
  }

  /** Appending chunks one after the other. */
  function AfterAppends(store: Store, id: string, chunks: seq<JsString>, times: seq<nat>): Store
    requires |times| == |chunks|
  {
    if chunks == [] then store
    else AfterAppends(AfterAppend(store, id, chunks[0], times[0]), id, chunks[1..], times[1..])
  }

  predicate AllTaken(store: Store, id: string, chunks: seq<JsString>, times: seq<nat>)
    requires |times| == |chunks|
  {
    chunks != [] ==>
      && Takes(store, id, chunks[0], times[0])
      && AllTaken(AfterAppend(store, id, chunks[0], times[0]), id, chunks[1..], times[1..])
  }

  /** The first chunk comes before the session ends, and each later one less than a day after the one before. */
  predicate InTime(from: nat, times: seq<nat>)
    decreases |times|
  {
    times != [] ==> times[0] < from && InTime(times[0] + 24 * 60 * 60, times[1..])
  }

  function Lengths(chunks: seq<JsString>): nat {
    if chunks == [] then 0 else |chunks[0]| + Lengths(chunks[1..])
  }

  function Ends(from: nat, times: seq<nat>): nat {
    if times == [] then from else times[|times| - 1] + 24 * 60 * 60
  }

  /** Chunks that come in time and fit are all taken; the session then holds what it held and the chunks in order,
      and lives until a day after the last one. */
  lemma {:induction false} AppendsInTimeAreTaken(store: Store, id: string, chunks: seq<JsString>, times: seq<nat>)
    requires |times| == |chunks| && id in store && InTime(store[id].expires, times)
    requires forall i | 0 <= i < |chunks| :: chunks[i] != []
    requires |store[id].session.content| + Lengths(chunks) <= 750000
    ensures AllTaken(store, id, chunks, times)
    ensures var after := AfterAppends(store, id, chunks, times);
            && id in after && after[id].expires == Ends(store[id].expires, times)
            && after[id].session == store[id].session.(content := store[id].session.content + Concat(chunks))
            && (forall k | k in store && k != id :: k in after && after[k] == store[k])
    decreases |chunks|
  {
    hide Concat;
    if chunks == [] {
      NoChunks();
      assert store[id].session.content + [] == store[id].session.content;
    } else {
      var next := AfterAppend(store, id, chunks[0], times[0]);
      assert Takes(store, id, chunks[0], times[0]);
      AppendsInTimeAreTaken(next, id, chunks[1..], times[1..]);
      FirstChunk(chunks);
      Regroup(store[id].session.content, chunks[0], Concat(chunks[1..]));
    }
  }

  lemma NoChunks()
    ensures Concat([]) == []
  {
  }

  lemma {:induction false} FirstChunk(chunks: seq<JsString>)
    requires chunks != []
    ensures Concat(chunks) == chunks[0] + Concat(chunks[1..])
    decreases |chunks|
  {
    var n := |chunks| - 1;
    if n == 0 {
      assert chunks[..0] == [] && chunks[1..] == [];
    } else {
      FirstChunk(chunks[..n]);
      assert chunks[..n][1..] == chunks[1..][..n - 1];
      Regroup(chunks[0], Concat(chunks[1..][..n - 1]), chunks[n]);
    }
  }

  class Sessions {
    var store: map<string, Stored>
    /** The chunks accepted so far, session by session. */
    ghost var accepted: map<string, seq<JsString>>

    ghost predicate Valid()
      reads this
    {
      && accepted.Keys == store.Keys
      && forall id | id in store ::
           && store[id].session.content == Concat(accepted[id])
           && |store[id].session.content| <= MAX_CHARACTERS
    }

    predicate Live(id: string, now: nat)
      reads this
    {
      id in store && now < store[id].expires
    }

    constructor ()
      ensures Valid() && store == map[]
    {
      store, accepted := map[], map[];
    }

    method StartWrite(id: string, path: string, mode: Mode, message: string, repo: Repository, reachable: bool,
                      now: nat)
      returns (r: Reply)
      requires Valid() && id !in store
      modifies this
      ensures Valid()
      ensures r == if path == "" || message == "" then Rejected("path_mode_and_message_required")
                   else var existing := ReadFile(repo.state.branch.files, path, reachable);
                        if mode.Create? && existing.Some? then Rejected("repo_file_already_exists")
                        else if mode.Replace? && existing.None? then Rejected("repo_file_not_found")
                        else Started(id)
      ensures r.Started? <==> path != "" && message != ""
                              && (mode.Create? <==> ReadFile(repo.state.branch.files, path, reachable).None?)
      ensures if r.Started?
              then store == old(store)[id := Stored(Session(path, mode, message, []), now + SESSION_SECONDS)]
                   && accepted == old(accepted)[id := []]
              else store == old(store) && accepted == old(accepted)
    {
      if path == "" || message == "" { return Rejected("path_mode_and_message_required"); }
      var existing := ReadFile(repo.state.branch.files, path, reachable);
      if mode.Create? && existing.Some? { return Rejected("repo_file_already_exists"); }
      if mode.Replace? && existing.None? { return Rejected("repo_file_not_found"); }
      store := store[id := Stored(Session(path, mode, message, []), now + SESSION_SECONDS)];
      accepted := accepted[id := []];
      return Started(id);
    }

    /** A chunk is taken whole or not at all; one that is refused leaves every session as it was. */
    method AppendChunk(id: string, chunk: JsString, now: nat) returns (r: Reply)
      requires Valid()
      modifies this
      ensures Valid()
      ensures store == AfterAppend(old(store), id, chunk, now)
      ensures r == if !old(Live(id, now)) then Rejected("write_session_not_found_or_expired")
                   else if chunk == [] then Rejected("chunk_required")
                   else if |old(store)[id].session.content| + |chunk| > 750000 then Rejected("write_session_too_large")
                   else Appended(|old(store)[id].session.content| + |chunk|)
      ensures r.Appended?
              <==> old(Live(id, now)) && chunk != [] && |old(store)[id].session.content| + |chunk| <= MAX_CHARACTERS
      ensures if r.Appended?
              then accepted == old(accepted)[id := old(accepted)[id] + [chunk]]
                   && store.Keys == old(store).Keys && (forall k | k in store && k != id :: store[k] == old(store)[k])
                   && store[id].session == old(store)[id].session.(content := Concat(accepted[id]))
                   && store[id].expires == now + 24 * 60 * 60
                   && r.total == |store[id].session.content|
              else store == old(store) && accepted == old(accepted)
    {
      hide Concat;
      if !Live(id, now) { return Rejected("write_session_not_found_or_expired"); }
      if chunk == [] { return Rejected("chunk_required"); }
      var session := store[id].session;
      if |session.content| + |chunk| > MAX_CHARACTERS { return Rejected("write_session_too_large"); }
      session := session.(content := session.content + chunk);
      accepted := accepted[id := accepted[id] + [chunk]];
      OneChunkMore(old(accepted)[id], chunk);
      store := store[id := Stored(session, now + SESSION_SECONDS)];
      return Appended(|session.content|);
    }

    /** Committing a session while others work on the repository: what an ok commit puts at the path is a blob
        of the concatenation of the accepted chunks, and the session outlives every failure unchanged. */
    method CommitWrite(id: string, repo: Repository, reachable: bool, replies: Replies,
                       others: seq<seq<Action>>, now: nat)
      returns (r: Reply)
      requires Valid() && repo.Valid() && |others| == 8
      modifies this, repo`state
      ensures Valid() && repo.Valid() && Evolves(old(repo.state), repo.state)
      ensures var done := r.Unchanged? || (r.Committed? && r.outcome.ok);
              && (!done ==> store == old(store) && accepted == old(accepted))
              && (done ==> old(Live(id, now)) && store == old(store) - {id} && accepted == old(accepted) - {id})
      ensures r == Rejected("write_session_not_found_or_expired") <==> !old(Live(id, now))
      ensures old(Live(id, now)) && r.Rejected? ==>
                var session, files := old(store)[id].session, old(repo.state).branch.files;
                && r == (if session.mode.Create? then Rejected("repo_file_now_exists")
                         else Rejected("repo_file_no_longer_available"))
                && (session.mode.Create? <==> ReadFile(files, session.path, reachable).Some?)
      ensures r.Committed? <==>
                && old(Live(id, now))
                && CommitProceeds(old(store)[id].session, old(repo.state).branch.files, reachable)
      ensures old(Live(id, now)) && r.Committed? ==>
                var session := old(store)[id].session;
                var whole := Concat(old(accepted)[id]);
                && IsCall(repo.state, |old(repo.state).calls|, session.path, whole, session.message, r.outcome)
                && (r.outcome.ok ==> LandedSince(old(repo.state), repo.state, session.path, whole, r.outcome.commit))
                && (BeforeUpdate(r.outcome.phase) <==> !AllBuilt(replies))
                && (forall applied :: Alone(others, |old(repo.state).calls|, applied) ==>
                      && repo.state.branch == (if AllBuilt(replies) && applied
                                               then Edit(old(repo.state).branch, session.path, whole, session.message,
                                                         replies.stamp)
                                               else old(repo.state).branch)
                      && (r.outcome.ok <==> AllBuilt(replies) && applied && (replies.answered || replies.readAgain)))
      ensures !r.Committed? ==> repo.state == old(repo.state)
      ensures r.Unchanged? ==>
                var session, files := old(store)[id].session, repo.state.branch.files;
                && session.path in files
                && StripBom(files[session.path]) == Concat(old(accepted)[id])
    {
      hide Run, Reaches, LandedSince, Concat, Blob;
      if !Live(id, now) { EvolvesStep(repo.state, Lose(0)); return Rejected("write_session_not_found_or_expired"); }
      var session := store[id].session;
      var existing := ReadFile(repo.state.branch.files, session.path, reachable);
      if session.mode.Create? && existing.Some? {
        EvolvesStep(repo.state, Lose(0));
        return Rejected("repo_file_now_exists");
      }
      if session.mode.Replace? && existing.None? {
        EvolvesStep(repo.state, Lose(0));
        return Rejected("repo_file_no_longer_available");
      }
      if session.mode.Replace? && existing == Some(session.content) {
        EvolvesStep(repo.state, Lose(0));
        store, accepted := store - {id}, accepted - {id};
        return Reply.Unchanged;
      }
      var result := repo.CommitFile(session.path, session.content, session.message, replies, others);
      if result.ok { store, accepted := store - {id}, accepted - {id}; }
      return Committed(result);
    }
  }

  predicate CommitProceeds(session: Session, files: Files, reachable: bool) {
    var existing := ReadFile(files, session.path, reachable);
    match session.mode
    case Create => existing.None?
    case Replace => existing.Some? && existing.value != session.content
  }

  /** Create mode protects an existing file exactly when the file can be read and has text beyond a
      byte order mark: an unreachable or blank file is overwritten. */
  lemma CreateOverwritesExactly(session: Session, files: Files, reachable: bool)
    requires session.mode.Create? && session.path in files
    ensures CommitProceeds(session, files, reachable) <==> !reachable || files[session.path] in {[], [0xFEFF]}
  {
    var text := files[session.path];
    if StripBom(text) == [] && text != [] { assert text == [text[0]]; }
  }

  /** What a session's landed content is that a retry would commit again: in create mode a file that is blank or
      cannot be reached, in replace mode one that can be reached and either begins with a byte order mark or was
      stored with a lone surrogate replaced. */
  predicate CommitsAgain(session: Session, reachable: bool) {
    match session.mode
    case Create => !reachable || session.content in {[], [0xFEFF]}
    case Replace =>
      reachable && ((|session.content| > 1 && session.content[0] == 0xFEFF) || !WellFormedText(session.content))
  }

  /** After a commit whose reply was lost although it landed, committing the kept session again makes a second
      commit exactly then. */
  lemma RetryAfterLanding(session: Session, files: Files, reachable: bool)
    requires session.path in files && files[session.path] == Blob(session.content)
    ensures CommitProceeds(session, files, reachable) <==> CommitsAgain(session, reachable)
  {
    hide Blob, WellFormedText;
    var content, text := session.content, Blob(session.content);
    BlobKeepsExactly(content);
    SmallTexts();
    if StripBom(text) == [] && text != [] { assert text == [text[0]]; }
    if StripBom(text) == text && text != [] { assert text[0] != 0xFEFF; }
    if text in {[], [0xFEFF]} { BlankBlob(content); }
    if StripBom(text) == content { StrippedWellFormed(text); }
  }

  lemma SmallTexts()
    ensures WellFormedText([]) && WellFormedText([0xFEFF])
  {
    var bom: JsString := [0xFEFF];
    assert bom[1..] == [];
  }

  lemma BlankBlob(content: JsString)
    requires Blob(content) in {[], [0xFEFF]}
    ensures content == Blob(content)
  {
    ReplacedSame(content);
    if content != [] {
      assert content == [content[0]] && content[1..] == [];
      assert Replaced(content) == ScalarUnits(FirstScalar(content)) + Replaced([]);
    }
  }

  lemma StrippedWellFormed(text: JsString)
    requires WellFormedText(text)
    ensures WellFormedText(StripBom(text))
  {
  }

  /** The failed commit of a session whose update is still on its way and whose head still stands: when it arrives
      it stores the session's content after all, and the same condition says whether a retry commits again. */
  lemma RetryAfterLateLanding(root: Commit, s: State, i: nat, session: Session, o: Outcome, reachable: bool)
    requires Evolves(Initial(root), s) && IsCall(s, i, session.path, session.content, session.message, o) && !o.ok
    requires s.calls[i].request == InFlight && Base(s.calls[i]) == Some(s.branch)
    ensures var t := Apply(s, Deliver(i));
            && t.Some? && t.value.branch != s.branch
            && t.value.branch.files == s.branch.files[session.path := Blob(session.content)]
            && (CommitProceeds(session, t.value.branch.files, reachable) <==> CommitsAgain(session, reachable))
  {
    hide Run, Chain, Landed, CommitProceeds, Height, Blob, CommitsAgain;
    var a :| Run(Initial(root), a) == Some(s);
    ReachableInv(root, a);
    assert CallInv(s.calls[i], s.branch);
    ParentDoesNotReachChild(s.branch, Built(s.calls[i]).value);
    RetryAfterLanding(session, Apply(s, Deliver(i)).value.branch.files, reachable);
  }
}
