// The key-file lock of the mock server: several processes race to read, lock,
// mint, rename and unlock one key file (mobile/scripts/mock-server-key-pair.ts).
//
// Every file operation is one atomic step.  `Advance` is the control flow of one
// process, `Possible` is what the file system may answer and `Effect` what an
// operation does to it; `Apply` interleaves any number of processes.
module KeyFileLock {

  type Pid = nat
  type Key = nat

  const LOCK_ATTEMPTS := 50
  const RENAME_ATTEMPTS := 5

  // What readKeyPair finds: a usable key, or something it must give a reason for.
  datatype KeyFile = Missing | Invalid | Valid(key: Key)

  datatype FileSystem = FileSystem(keyFile: KeyFile, lockExists: bool)

  // How the work under the lock ended: with a selected key, or with an exception.
  datatype Outcome = Selected(key: Key) | Thrown

  // The operation a process performs next.
  datatype Control =
    | ReadExisting
    | TryLock(attempt: nat)
    | ReadConcurrent(attempt: nat)
    | ReadWinner
    | TryLockLast
    | ReadLateWinner
    | ReadCurrent
    | Mint
    | WriteTemporary(key: Key)
    | ChangeMode(key: Key)
    | Rename(key: Key, attempt: nat)
    | RemoveTemporary(outcome: Outcome)
    | Unlink(outcome: Outcome)
    | Returned(key: Key)
    | Failed
    | Crashed

  datatype Reply =
    | KeyRead(key: Key)   // readKeyPair returned a key pair
    | NoKey               // readKeyPair returned a reason
    | Created             // the exclusive create made the lock file
    | Busy                // EEXIST
    | Minted(key: Key)
    | Success
    | Retryable           // EACCES, EBUSY or EPERM
    | Refused             // any other error

  function Start(): Control { ReadExisting }

  function Finish(outcome: Outcome): Control {
    match outcome
    case Selected(key) => Returned(key)
    case Thrown => Failed
  }

  predicate Halted(c: Control) {
    c.Returned? || c.Failed? || c.Crashed?
  }

  // The control flow of loadOrCreateMockServerKeyPair and the functions it calls.
  function Advance(c: Control, r: Reply): Control {
    match c
    case ReadExisting => if r.KeyRead? then Returned(r.key) else TryLock(0)
    case TryLock(attempt) =>
      if r.Created? then ReadCurrent else if r.Busy? then ReadConcurrent(attempt) else Failed
    case ReadConcurrent(attempt) =>
      if r.KeyRead? then Returned(r.key)
      else if attempt + 1 < LOCK_ATTEMPTS then TryLock(attempt + 1)
      else ReadWinner
    case ReadWinner => if r.KeyRead? then Returned(r.key) else TryLockLast
    case TryLockLast =>
      if r.Created? then ReadCurrent else if r.Busy? then ReadLateWinner else Failed
    case ReadLateWinner => if r.KeyRead? then Returned(r.key) else Failed
    case ReadCurrent => if r.KeyRead? then Unlink(Selected(r.key)) else Mint
    case Mint => if r.Minted? then WriteTemporary(r.key) else Unlink(Thrown)
    case WriteTemporary(key) => if r.Success? then ChangeMode(key) else RemoveTemporary(Thrown)
    case ChangeMode(key) => if r.Success? then Rename(key, 0) else RemoveTemporary(Thrown)
    case Rename(key, attempt) =>
      if r.Success? then RemoveTemporary(Selected(key))
      else if r.Retryable? && attempt + 1 < RENAME_ATTEMPTS then Rename(key, attempt + 1)
      else RemoveTemporary(Thrown)
    case RemoveTemporary(outcome) => Unlink(outcome)
    case Unlink(outcome) => Finish(outcome)
    case Returned(_) => c
    case Failed => c
    case Crashed => c
  }

  predicate Reads(c: Control) {
    c.ReadExisting? || c.ReadConcurrent? || c.ReadWinner? || c.ReadLateWinner? || c.ReadCurrent?
  }

  predicate Locks(c: Control) {
    c.TryLock? || c.TryLockLast?
  }

  // A read that returns a key returns the file's key, but a read may fail for no
  // reason visible here ('unreadable').  Creation is exclusive.
  predicate Possible(fs: FileSystem, c: Control, r: Reply) {
    && !Halted(c)
    && (Reads(c) ==> r.NoKey? || (r.KeyRead? && fs.keyFile == Valid(r.key)))
    && (Locks(c) ==> (r.Created? && !fs.lockExists) || (r.Busy? && fs.lockExists) || r.Refused?)
    && (c.Mint? ==> r.Minted? || r.Refused?)
    && (c.WriteTemporary? || c.ChangeMode? || c.Rename? || c.RemoveTemporary? || c.Unlink? ==>
          r.Success? || r.Retryable? || r.Refused?)
  }

  // The read made while holding the lock did not overlook a valid key.
  predicate Faithful(fs: FileSystem, c: Control, r: Reply) {
    c.ReadCurrent? && fs.keyFile.Valid? ==> r.KeyRead?
  }

  function Effect(fs: FileSystem, c: Control, r: Reply): FileSystem {
    if Locks(c) && r.Created? then fs.(lockExists := true)
    else if c.Rename? && r.Success? then fs.(keyFile := Valid(c.key))
    else if c.Unlink? && r.Success? then fs.(lockExists := false)
    else fs
  }

  datatype State = State(fs: FileSystem, procs: map<Pid, Control>)

  datatype Event = Act(pid: Pid, reply: Reply) | Crash(pid: Pid)

  predicate Enabled(s: State, e: Event) {
    && e.pid in s.procs
    && (e.Act? ==> Possible(s.fs, s.procs[e.pid], e.reply))
    && (e.Crash? ==> !Halted(s.procs[e.pid]))
  }

  function Apply(s: State, e: Event): State
    requires Enabled(s, e)
  {
    var c := s.procs[e.pid];
    match e
    case Act(p, r) => State(Effect(s.fs, c, r), s.procs[p := Advance(c, r)])
    case Crash(p) => s.(procs := s.procs[p := Crashed])
  }

  predicate TrueUnderLock(s: State, e: Event)
    requires Enabled(s, e)
  {
    e.Act? ==> Faithful(s.fs, s.procs[e.pid], e.reply)
  }

  // Any key file content, any left-over lock, any number of processes about to start.
  predicate Initial(s: State) {
    forall p <- s.procs :: s.procs[p] == Start()
  }

  // A run is a first state and the events that happened, in order.
  predicate Feasible(s: State, events: seq<Event>)
    decreases |events|
  {
    events == [] ||
    (Enabled(s, events[0]) && Feasible(Apply(s, events[0]), events[1..]))
  }

  function After(s: State, events: seq<Event>): State
    requires Feasible(s, events)
    decreases |events|
  {
    if events == [] then s else After(Apply(s, events[0]), events[1..])
  }

  // No read under the lock overlooked a valid key anywhere in the run.
  predicate FaithfulRun(s: State, events: seq<Event>)
    requires Feasible(s, events)
    decreases |events|
  {
    events == [] ||
    (TrueUnderLock(s, events[0]) && FaithfulRun(Apply(s, events[0]), events[1..]))
  }

  // ---------------------------------------------------------------------------
  // The lock

  // Between the exclusive create and the unlink.
  predicate Critical(c: Control) {
    c.ReadCurrent? || Minting(c) || c.RemoveTemporary? || c.Unlink?
  }

  // Past the read that found no key, before the rename has succeeded.
  predicate Minting(c: Control) {
    c.Mint? || c.WriteTemporary? || c.ChangeMode? || c.Rename?
  }

  ghost predicate MutualExclusion(s: State) {
    && (forall p <- s.procs :: Critical(s.procs[p]) ==> s.fs.lockExists)
    && (forall p <- s.procs, q <- s.procs ::
          Critical(s.procs[p]) && Critical(s.procs[q]) ==> p == q)
  }

  lemma MutualExclusionStep(s: State, e: Event)
    requires MutualExclusion(s) && Enabled(s, e)
    ensures MutualExclusion(Apply(s, e))
  {
    var t := Apply(s, e);
    forall p <- t.procs, q <- t.procs | Critical(t.procs[p]) && Critical(t.procs[q])
      ensures t.fs.lockExists && p == q
    {
      assert Critical(s.procs[p]) || (p == e.pid && Locks(s.procs[p]) && e.Act? && e.reply.Created?);
      assert Critical(s.procs[q]) || (q == e.pid && Locks(s.procs[q]) && e.Act? && e.reply.Created?);
    }
  }

  // Lock safety over every run, with crashes, failed renames and failed unlinks.
  lemma {:induction false} MutualExclusionAlways(s: State, events: seq<Event>)
    requires MutualExclusion(s) && Feasible(s, events)
    ensures MutualExclusion(After(s, events))
    decreases |events|
  {
    if events != [] {
      MutualExclusionStep(s, events[0]);
      MutualExclusionAlways(Apply(s, events[0]), events[1..]);
    }
  }

  // ---------------------------------------------------------------------------
  // Agreement

  predicate Holds(s: State, c: Control) {
    && (c.Returned? ==> s.fs.keyFile == Valid(c.key))
    && ((c.RemoveTemporary? || c.Unlink?) && c.outcome.Selected? ==>
          s.fs.keyFile == Valid(c.outcome.key))
    && (Minting(c) ==> !s.fs.keyFile.Valid?)
  }

  ghost predicate Consistent(s: State) {
    && MutualExclusion(s)
    && (forall p <- s.procs :: Holds(s, s.procs[p]))
  }

  lemma ConsistentStep(s: State, e: Event)
    requires Consistent(s) && Enabled(s, e) && TrueUnderLock(s, e)
    ensures Consistent(Apply(s, e))
    ensures s.fs.keyFile.Valid? ==> Apply(s, e).fs.keyFile == s.fs.keyFile
  {
    MutualExclusionStep(s, e);
    var t := Apply(s, e);
    var c := s.procs[e.pid];
    forall p <- t.procs
      ensures Holds(t, t.procs[p])
    {
      if p != e.pid && c.Rename? {
        assert Critical(c) && !Critical(s.procs[p]);
      }
    }
  }

  // A valid key file is never replaced, and what every process may rely on is kept.
  lemma {:induction false} ValidKeyIsPermanent(s: State, events: seq<Event>)
    requires Consistent(s) && Feasible(s, events) && FaithfulRun(s, events)
    ensures Consistent(After(s, events))
    ensures s.fs.keyFile.Valid? ==> After(s, events).fs.keyFile == s.fs.keyFile
    decreases |events|
  {
    if events != [] {
      ConsistentStep(s, events[0]);
      ValidKeyIsPermanent(Apply(s, events[0]), events[1..]);
    }
  }

  lemma {:induction false} HaltedStays(s: State, events: seq<Event>, p: Pid)
    requires Feasible(s, events) && p in s.procs && Halted(s.procs[p])
    ensures p in After(s, events).procs && After(s, events).procs[p] == s.procs[p]
    decreases |events|
  {
    if events != [] {
      HaltedStays(Apply(s, events[0]), events[1..], p);
    }
  }

  // Whenever two processes return, at whatever moments of whatever run, they return
  // the same key, and it is the content of the key file from the first return on.
  lemma Agreement(s: State, early: seq<Event>, late: seq<Event>, p: Pid, q: Pid)
    requires Initial(s)
    requires Feasible(s, early) && FaithfulRun(s, early)
    requires Feasible(After(s, early), late) && FaithfulRun(After(s, early), late)
    requires p in After(s, early).procs && After(s, early).procs[p].Returned?
    ensures var first := After(s, early);
            var last := After(first, late);
            && first.fs.keyFile == last.fs.keyFile == Valid(first.procs[p].key)
            && p in last.procs && last.procs[p] == first.procs[p]
            && (q in last.procs && last.procs[q].Returned? ==> last.procs[q].key == first.procs[p].key)
  {
    ValidKeyIsPermanent(s, early);
    ValidKeyIsPermanent(After(s, early), late);
    HaltedStays(After(s, early), late, p);
  }

  function CountRenames(s: State, events: seq<Event>): nat
    requires Feasible(s, events)
    decreases |events|
  {
    if events == [] then 0
    else
      (if events[0].Act? && events[0].reply.Success? && s.procs[events[0].pid].Rename? then 1 else 0)
      + CountRenames(Apply(s, events[0]), events[1..])
  }

  // The key file is written at most once in a run, and never if it was valid.
  lemma {:induction false} AtMostOneKeyIsPersisted(s: State, events: seq<Event>)
    requires Consistent(s) && Feasible(s, events) && FaithfulRun(s, events)
    ensures CountRenames(s, events) <= if s.fs.keyFile.Valid? then 0 else 1
    decreases |events|
  {
    if events != [] {
      ConsistentStep(s, events[0]);
      AtMostOneKeyIsPersisted(Apply(s, events[0]), events[1..]);
    }
  }

  // ---------------------------------------------------------------------------
  // A lock nobody will release

  ghost predicate Stuck(s: State) {
    s.fs.lockExists && forall p <- s.procs :: !Critical(s.procs[p])
  }

  // With a left-over lock nothing on disk ever changes again, so no key is minted, and
  // whoever returns had either returned before or returns the key that is in the file.
  lemma {:induction false} StuckLockIsHarmless(s: State, events: seq<Event>)
    requires Stuck(s) && Feasible(s, events)
    ensures var t := After(s, events);
            && Stuck(t) && t.fs == s.fs && t.procs.Keys == s.procs.Keys
            && forall p <- t.procs :: t.procs[p].Returned? ==>
                 s.procs[p] == t.procs[p] || s.fs.keyFile == Valid(t.procs[p].key)
    decreases |events|
  {
    if events != [] {
      var u := Apply(s, events[0]);
      assert Stuck(u) && u.fs == s.fs;
      StuckLockIsHarmless(u, events[1..]);
    }
  }

  // ---------------------------------------------------------------------------
  // A lock that is not left over is released

  // No holder crashed and no unlink failed.
  predicate Clean(s: State, e: Event)
    requires Enabled(s, e)
  {
    && (e.Crash? ==> !Critical(s.procs[e.pid]))
    && (e.Act? && s.procs[e.pid].Unlink? ==> e.reply.Success?)
  }

  predicate CleanRun(s: State, events: seq<Event>)
    requires Feasible(s, events)
    decreases |events|
  {
    events == [] || (Clean(s, events[0]) && CleanRun(Apply(s, events[0]), events[1..]))
  }

  ghost predicate Owned(s: State) {
    s.fs.lockExists ==> exists p <- s.procs :: Critical(s.procs[p])
  }

  lemma OwnedStep(s: State, e: Event)
    requires Owned(s) && Enabled(s, e) && Clean(s, e)
    ensures Owned(Apply(s, e))
  {
    var t := Apply(s, e);
    if t.fs.lockExists {
      if Critical(t.procs[e.pid]) {
        assert e.pid in t.procs;
      } else {
        var p :| p in s.procs && Critical(s.procs[p]);
        assert t.procs[p] == s.procs[p];
      }
    }
  }

  // As long as no holder crashes and no unlink fails, the lock file exists only while some
  // process holds it; so once all have stopped it is gone.
  lemma {:induction false} LockIsReleased(s: State, events: seq<Event>)
    requires Owned(s) && Feasible(s, events) && CleanRun(s, events)
    ensures Owned(After(s, events))
    ensures (forall p <- After(s, events).procs :: Halted(After(s, events).procs[p])) ==> !After(s, events).fs.lockExists
    decreases |events|
  {
    if events != [] {
      OwnedStep(s, events[0]);
      LockIsReleased(Apply(s, events[0]), events[1..]);
    }
  }

  // ---------------------------------------------------------------------------
  // Bounded work: every process stops after a bounded number of its own steps

  function Rank(c: Control): int {
    match c
    case ReadExisting => 117
    case TryLock(attempt) => 116 - 2 * attempt
    case ReadConcurrent(attempt) => 115 - 2 * attempt
    case ReadWinner => 15
    case TryLockLast => 14
    case ReadLateWinner => 1
    case ReadCurrent => 13
    case Mint => 12
    case WriteTemporary(_) => 10
    case ChangeMode(_) => 9
    case Rename(_, attempt) => 8 - attempt
    case RemoveTemporary(_) => 3
    case Unlink(_) => 2
    case Returned(_) => 0
    case Failed => 0
    case Crashed => 0
  }

  predicate Bounded(c: Control) {
    && (c.TryLock? || c.ReadConcurrent? ==> c.attempt < LOCK_ATTEMPTS)
    && (c.Rename? ==> c.attempt < RENAME_ATTEMPTS)
  }

  lemma AdvanceDecreases(c: Control, r: Reply)
    requires Bounded(c) && !Halted(c)
    ensures Bounded(Advance(c, r)) && 0 <= Rank(Advance(c, r)) < Rank(c)
  {
  }

  function CountSteps(events: seq<Event>, p: Pid): nat {
    if events == [] then 0
    else (if events[0].Act? && events[0].pid == p then 1 else 0) + CountSteps(events[1..], p)
  }

  function CountCreates(s: State, events: seq<Event>, p: Pid): nat
    requires Feasible(s, events)
    decreases |events|
  {
    if events == [] then 0
    else
      (if events[0].Act? && events[0].pid == p && Locks(s.procs[p]) then 1 else 0)
      + CountCreates(Apply(s, events[0]), events[1..], p)
  }

  // Create attempts a process can still make.
  function CreatesLeft(c: Control): nat {
    match c
    case ReadExisting => LOCK_ATTEMPTS + 1
    case TryLock(attempt) => if attempt < LOCK_ATTEMPTS then LOCK_ATTEMPTS + 1 - attempt else 0
    case ReadConcurrent(attempt) => if attempt < LOCK_ATTEMPTS then LOCK_ATTEMPTS - attempt else 0
    case ReadWinner => 1
    case TryLockLast => 1
    case _ => 0
  }

  lemma {:induction false} WorkIsBounded(s: State, events: seq<Event>, p: Pid)
    requires Feasible(s, events) && p in s.procs && Bounded(s.procs[p])
    ensures CountSteps(events, p) <= Rank(s.procs[p])
    ensures CountCreates(s, events, p) <= CreatesLeft(s.procs[p])
    decreases |events|
  {
    if events != [] {
      var c := s.procs[p];
      if events[0].pid == p && events[0].Act? {
        AdvanceDecreases(c, events[0].reply);
      }
      WorkIsBounded(Apply(s, events[0]), events[1..], p);
    }
  }

  // No process makes more than 117 file operations, 51 of them exclusive creates.
  lemma WorkFromStart(s: State, events: seq<Event>, p: Pid)
    requires Initial(s) && Feasible(s, events) && p in s.procs
    ensures CountSteps(events, p) <= 117
    ensures CountCreates(s, events, p) <= 51
  {
    WorkIsBounded(s, events, p);
  }

  // ---------------------------------------------------------------------------
  // Why the read under the lock must be true

  lemma Prepend(s: State, e: Event, rest: seq<Event>)
    requires Enabled(s, e) && Feasible(Apply(s, e), rest)
    ensures Feasible(s, [e] + rest) && After(s, [e] + rest) == After(Apply(s, e), rest)
    ensures FaithfulRun(s, [e] + rest) <==> TrueUnderLock(s, e) && FaithfulRun(Apply(s, e), rest)
  {
    assert ([e] + rest)[1..] == rest;
  }

  lemma PersistSucceeds(s: State, p: Pid) returns (events: seq<Event>)
    requires p in s.procs && s.procs[p].WriteTemporary?
    ensures Feasible(s, events) && FaithfulRun(s, events)
    ensures After(s, events).procs == s.procs[p := Returned(s.procs[p].key)]
    ensures After(s, events).fs == FileSystem(Valid(s.procs[p].key), false)
  {
    var e := Act(p, Success);
    var s1 := Apply(s, e);
    var s2 := Apply(s1, e);
    var s3 := Apply(s2, e);
    var s4 := Apply(s3, e);
    var s5 := Apply(s4, e);
    Prepend(s4, e, []);
    Prepend(s3, e, [e]);
    Prepend(s2, e, [e] + [e]);
    Prepend(s1, e, [e] + ([e] + [e]));
    Prepend(s, e, [e] + ([e] + ([e] + [e])));
    events := [e] + ([e] + ([e] + ([e] + [e])));
  }

  // Wherever the read under the lock overlooks a valid key, the process can go on - with no
  // further read overlooking anything - to replace that key by any other and return it.
  lemma OverlookedKeyIsReplaced(s: State, p: Pid, key: Key) returns (rest: seq<Event>)
    requires p in s.procs && s.procs[p] == ReadCurrent && s.fs.keyFile.Valid?
    ensures Enabled(s, Act(p, NoKey))
    ensures var t := Apply(s, Act(p, NoKey));
            && Feasible(t, rest) && FaithfulRun(t, rest)
            && After(t, rest).procs == s.procs[p := Returned(key)] && After(t, rest).fs.keyFile == Valid(key)
    ensures Feasible(s, [Act(p, NoKey)] + rest)
    ensures After(s, [Act(p, NoKey)] + rest) == After(Apply(s, Act(p, NoKey)), rest)
  {
    var e0, e1 := Act(p, NoKey), Act(p, Minted(key));
    var s1 := Apply(s, e0);
    var s2 := Apply(s1, e1);
    var persist := PersistSucceeds(s2, p);
    Prepend(s1, e1, persist);
    rest := [e1] + persist;
    Prepend(s, e0, rest);
  }

  // The file keeps its content in whatever happens next, as long as no later read under the
  // lock overlooks a valid key.
  ghost predicate FileIsSafe(s: State) {
    forall events: seq<Event> :: Feasible(s, events) && FaithfulRun(s, events) ==>
      After(s, events).fs.keyFile == s.fs.keyFile
  }

  // So this one read decides: a valid key file is safe after it exactly when the read
  // returned its key.
  lemma ReadUnderLockDecides(s: State, p: Pid, r: Reply)
    requires Consistent(s) && s.fs.keyFile.Valid?
    requires p in s.procs && s.procs[p] == ReadCurrent && Enabled(s, Act(p, r))
    ensures r.KeyRead? <==> FileIsSafe(Apply(s, Act(p, r)))
  {
    var t := Apply(s, Act(p, r));
    if r.KeyRead? {
      ConsistentStep(s, Act(p, r));
      forall events: seq<Event> | Feasible(t, events) && FaithfulRun(t, events)
        ensures After(t, events).fs.keyFile == t.fs.keyFile
      {
        ValidKeyIsPermanent(t, events);
      }
    } else {
      assert r == NoKey && t.fs == s.fs;
      var rest := OverlookedKeyIsReplaced(s, p, s.fs.keyFile.key + 1);
      assert After(t, rest).fs.keyFile != t.fs.keyFile;
    }
  }

  // Such a read is reachable: one process returns a key, another takes the lock.
  lemma ReachReadCurrent(key: Key) returns (s: State, events: seq<Event>)
    ensures Initial(s) && s.fs.keyFile == Valid(key) && |events| == 3
    ensures Feasible(s, events) && After(s, events).fs.keyFile == Valid(key)
    ensures After(s, events).procs == map[0 := Returned(key), 1 := ReadCurrent]
  {
    s := State(FileSystem(Valid(key), false), map[0 := Start(), 1 := Start()]);
    var e0, e1, e2 := Act(0, KeyRead(key)), Act(1, NoKey), Act(1, Created);
    var s1 := Apply(s, e0);
    var s2 := Apply(s1, e1);
    Prepend(s2, e2, []);
    Prepend(s1, e1, [e2]);
    Prepend(s, e0, [e1] + [e2]);
    events := [e0] + ([e1] + [e2]);
  }

  lemma {:induction false} AfterConcat(s: State, early: seq<Event>, late: seq<Event>)
    requires Feasible(s, early) && Feasible(After(s, early), late)
    ensures Feasible(s, early + late) && After(s, early + late) == After(After(s, early), late)
    decreases |early|
  {
    if early == [] {
      assert early + late == late;
    } else {
      assert early + late == [early[0]] + (early[1..] + late);
      AfterConcat(Apply(s, early[0]), early[1..], late);
      Prepend(s, early[0], early[1..] + late);
    }
  }

  // So without true reads under the lock two processes can return different keys.
  lemma OverlookedKeyBreaksAgreement(key: Key, other: Key) returns (s: State, events: seq<Event>)
    ensures Initial(s) && Feasible(s, events)
    ensures After(s, events).procs == map[0 := Returned(key), 1 := Returned(other)]
  {
    var early;
    s, early := ReachReadCurrent(key);
    var rest := OverlookedKeyIsReplaced(After(s, early), 1, other);
    var late := [Act(1, NoKey)] + rest;
    AfterConcat(s, early, late);
    events := early + late;
  }

  // ---------------------------------------------------------------------------
  // The code of one process performs exactly the steps above

  // The operations of one process, and how it ends, given what each operation answers.
  // No operation is performed twice with the same attempt number, so a function of the
  // operation stands for any course of answers.
  function Operations(c: Control, answers: Control -> Reply): seq<Control>
    requires Bounded(c)
    decreases Rank(c)
  {
    if Halted(c) then [] else
      AdvanceDecreases(c, answers(c));
      [c] + Operations(Advance(c, answers(c)), answers)
  }

  function Ending(c: Control, answers: Control -> Reply): (end: Control)
    requires Bounded(c)
    ensures Halted(end)
    decreases Rank(c)
  {
    if Halted(c) then c else
      AdvanceDecreases(c, answers(c));
      Ending(Advance(c, answers(c)), answers)
  }

  lemma OneOperation(before: seq<Control>, c: Control, answers: Control -> Reply)
    requires Bounded(c) && !Halted(c)
    ensures var next := Advance(c, answers(c));
            && Bounded(next)
            && before + Operations(c, answers) == before + [c] + Operations(next, answers)
            && Ending(c, answers) == Ending(next, answers)
  {
    var next := Advance(c, answers(c));
    AdvanceDecreases(c, answers(c));
    assert before + ([c] + Operations(next, answers)) == before + [c] + Operations(next, answers);
  }

  // A lock that stays busy is tried 51 times, with a look for a key after every try.
  lemma {:induction false} BusyOperations(attempt: nat, answers: Control -> Reply)
    requires attempt < LOCK_ATTEMPTS
    requires forall c :: (Locks(c) ==> answers(c) == Busy) && (Reads(c) ==> answers(c) == NoKey)
    ensures |Operations(TryLock(attempt), answers)| == 2 * (LOCK_ATTEMPTS - attempt) + 3
    ensures CountLocks(Operations(TryLock(attempt), answers)) == LOCK_ATTEMPTS - attempt + 1
    ensures Ending(TryLock(attempt), answers) == Failed
    decreases LOCK_ATTEMPTS - attempt
  {
    hide Operations, Ending, CountLocks;
    assert Locks(TryLock(attempt)) && Reads(ReadConcurrent(attempt));
    FirstOperation(TryLock(attempt), answers);
    FirstOperation(ReadConcurrent(attempt), answers);
    if attempt + 1 < LOCK_ATTEMPTS {
      BusyOperations(attempt + 1, answers);
    } else {
      BusyLastTry(answers);
    }
  }

  lemma BusyLastTry(answers: Control -> Reply)
    requires forall c :: (Locks(c) ==> answers(c) == Busy) && (Reads(c) ==> answers(c) == NoKey)
    ensures |Operations(ReadWinner, answers)| == 3 && CountLocks(Operations(ReadWinner, answers)) == 1
    ensures Ending(ReadWinner, answers) == Failed
  {
    hide Operations, Ending, CountLocks;
    assert Reads(ReadWinner) && Locks(TryLockLast) && Reads(ReadLateWinner);
    FirstOperation(ReadWinner, answers);
    FirstOperation(TryLockLast, answers);
    FirstOperation(ReadLateWinner, answers);
    FailedHasNone(answers);
  }

  lemma BusyLockFails(answers: Control -> Reply)
    requires forall c :: (Locks(c) ==> answers(c) == Busy) && (Reads(c) ==> answers(c) == NoKey)
    ensures Ending(Start(), answers) == Failed
    ensures |Operations(Start(), answers)| == 104 && CountLocks(Operations(Start(), answers)) == 51
  {
    hide Operations, Ending, CountLocks;
    assert Reads(Start());
    FirstOperation(Start(), answers);
    BusyOperations(0, answers);
  }

  function CountLocks(operations: seq<Control>): nat {
    if operations == [] then 0 else (if Locks(operations[0]) then 1 else 0) + CountLocks(operations[1..])
  }

  lemma FailedHasNone(answers: Control -> Reply)
    ensures Operations(Failed, answers) == [] && Ending(Failed, answers) == Failed && CountLocks([]) == 0
  {
  }

  lemma FirstOperation(c: Control, answers: Control -> Reply)
    requires Bounded(c) && !Halted(c)
    ensures var next := Advance(c, answers(c));
            && Bounded(next)
            && |Operations(c, answers)| == 1 + |Operations(next, answers)|
            && CountLocks(Operations(c, answers)) == (if Locks(c) then 1 else 0) + CountLocks(Operations(next, answers))
            && Ending(c, answers) == Ending(next, answers)
  {
    OneOperation([], c, answers);
    var next := Advance(c, answers(c));
    assert [] + Operations(c, answers) == Operations(c, answers);
    assert [] + [c] + Operations(next, answers) == [c] + Operations(next, answers);
    hide Operations, Ending;
    assert ([c] + Operations(next, answers))[1..] == Operations(next, answers);
  }

  // ---------------------------------------------------------------------------
  // How a process ends, said from the answers alone

  // Every answer is one that its operation can give.
  ghost predicate Fitting(answers: Control -> Reply) {
    && (forall c :: Reads(c) ==> answers(c).NoKey? || answers(c).KeyRead?)
    && (forall c :: Locks(c) ==> answers(c).Created? || answers(c).Busy? || answers(c).Refused?)
  }

  const INQUIRIES := 2 * LOCK_ATTEMPTS + 4

  // What is asked, one after the other, as long as no key is read and the lock stays busy.
  function Inquiry(j: nat): Control
    requires j < INQUIRIES
  {
    if j == 0 then ReadExisting
    else if j <= 2 * LOCK_ATTEMPTS then if j % 2 == 1 then TryLock(j / 2) else ReadConcurrent(j / 2 - 1)
    else if j == 2 * LOCK_ATTEMPTS + 1 then ReadWinner
    else if j == 2 * LOCK_ATTEMPTS + 2 then TryLockLast
    else ReadLateWinner
  }

  ghost predicate Undecided(answers: Control -> Reply, n: nat)
    requires n <= INQUIRIES
  {
    forall i :: 0 <= i < n ==> answers(Inquiry(i)).NoKey? || answers(Inquiry(i)).Busy?
  }

  // The renames go through: one succeeds after nothing but retryable failures.
  ghost predicate Renamed(answers: Control -> Reply, key: Key) {
    exists a :: 0 <= a < RENAME_ATTEMPTS && answers(Rename(key, a)).Success?
                && forall b :: 0 <= b < a ==> answers(Rename(key, b)).Retryable?
  }

  // What comes of the work under the lock: the key that is there, the minted key once it is
  // written, given its mode and renamed into place, or nothing.
  ghost function Selection(answers: Control -> Reply): Outcome {
    if answers(ReadCurrent).KeyRead? then Selected(answers(ReadCurrent).key)
    else if !answers(Mint).Minted? then Thrown
    else
      var key := answers(Mint).key;
      if answers(WriteTemporary(key)).Success? && answers(ChangeMode(key)).Success? && Renamed(answers, key)
      then Selected(key) else Thrown
  }

  lemma EndsOneLater(c: Control, answers: Control -> Reply)
    requires Bounded(c) && !Halted(c)
    ensures Bounded(Advance(c, answers(c))) && Ending(c, answers) == Ending(Advance(c, answers(c)), answers)
  {
    AdvanceDecreases(c, answers(c));
  }

  lemma EndIsReached(c: Control, answers: Control -> Reply)
    requires Halted(c)
    ensures Bounded(c) && Ending(c, answers) == c
  {
  }

  lemma CleanUpEnds(outcome: Outcome, answers: Control -> Reply)
    ensures Ending(RemoveTemporary(outcome), answers) == Finish(outcome)
    ensures Ending(Unlink(outcome), answers) == Finish(outcome)
  {
    hide Ending;
    EndsOneLater(RemoveTemporary(outcome), answers);
    EndsOneLater(Unlink(outcome), answers);
    EndIsReached(Finish(outcome), answers);
  }

  lemma {:induction false} RenamesEnd(key: Key, attempt: nat, answers: Control -> Reply)
    requires attempt < RENAME_ATTEMPTS && forall b :: 0 <= b < attempt ==> answers(Rename(key, b)).Retryable?
    ensures Ending(Rename(key, attempt), answers) == Finish(if Renamed(answers, key) then Selected(key) else Thrown)
    decreases RENAME_ATTEMPTS - attempt
  {
    hide Ending;
    var reply := answers(Rename(key, attempt));
    EndsOneLater(Rename(key, attempt), answers);
    CleanUpEnds(Selected(key), answers);
    CleanUpEnds(Thrown, answers);
    if reply.Retryable? && attempt + 1 < RENAME_ATTEMPTS {
      RenamesEnd(key, attempt + 1, answers);
    } else if !reply.Success? {
      RenamesStopped(key, attempt, answers);
    }
  }

  lemma RenamesStopped(key: Key, attempt: nat, answers: Control -> Reply)
    requires attempt < RENAME_ATTEMPTS && forall b :: 0 <= b < attempt ==> answers(Rename(key, b)).Retryable?
    requires !answers(Rename(key, attempt)).Success?
    requires answers(Rename(key, attempt)).Retryable? ==> attempt + 1 == RENAME_ATTEMPTS
    ensures !Renamed(answers, key)
  {
    forall a | attempt < a < RENAME_ATTEMPTS && answers(Rename(key, a)).Success?
      ensures exists b :: 0 <= b < a && !answers(Rename(key, b)).Retryable?
    {
    }
  }

  lemma LockedEnds(answers: Control -> Reply)
    ensures Ending(ReadCurrent, answers) == Finish(Selection(answers))
  {
    hide Ending, Renamed;
    EndsOneLater(ReadCurrent, answers);
    if answers(ReadCurrent).KeyRead? {
      CleanUpEnds(Selected(answers(ReadCurrent).key), answers);
    } else {
      EndsOneLater(Mint, answers);
      CleanUpEnds(Thrown, answers);
      if answers(Mint).Minted? {
        var key := answers(Mint).key;
        EndsOneLater(WriteTemporary(key), answers);
        EndsOneLater(ChangeMode(key), answers);
        RenamesEnd(key, 0, answers);
      }
    }
  }

  // How inquiry `j` is followed up.
  lemma InquiryAdvances(j: nat, reply: Reply)
    requires j < INQUIRIES
    ensures Bounded(Inquiry(j)) && !Halted(Inquiry(j)) && (Reads(Inquiry(j)) || Locks(Inquiry(j)))
    ensures (Reads(Inquiry(j)) && reply.NoKey?) || (Locks(Inquiry(j)) && reply.Busy?) ==>
      Advance(Inquiry(j), reply) == if j + 1 < INQUIRIES then Inquiry(j + 1) else Failed
    ensures Reads(Inquiry(j)) && reply.KeyRead? ==> Advance(Inquiry(j), reply) == Returned(reply.key)
    ensures Locks(Inquiry(j)) && reply.Created? ==> Advance(Inquiry(j), reply) == ReadCurrent
    ensures Locks(Inquiry(j)) && reply.Refused? ==> Advance(Inquiry(j), reply) == Failed
  {
  }

  lemma {:induction false} AskedSoFar(answers: Control -> Reply, n: nat)
    requires Fitting(answers) && n <= INQUIRIES && Undecided(answers, n)
    ensures Bounded(if n < INQUIRIES then Inquiry(n) else Failed)
    ensures Ending(Start(), answers) == Ending(if n < INQUIRIES then Inquiry(n) else Failed, answers)
  {
    hide Ending, Inquiry;
    if n == 0 {
      FirstInquiry();
      InquiryAdvances(0, NoKey);
    } else {
      AskedSoFar(answers, n - 1);
      InquiryAdvances(n - 1, answers(Inquiry(n - 1)));
      EndsOneLater(Inquiry(n - 1), answers);
    }
  }

  lemma FirstInquiry()
    ensures Inquiry(0) == Start()
  {
  }

  // For every course of answers: a process to which nothing decisive is ever said fails;
  // else the first decisive answer decides - a key that is read is returned, whoever wrote
  // it, a create that is refused is an error, and one that succeeds leads to the work under
  // the lock and to what is selected there.
  lemma EndsAsAnswered(answers: Control -> Reply)
    requires Fitting(answers)
    ensures Undecided(answers, INQUIRIES) ==> Ending(Start(), answers) == Failed
    ensures forall j :: 0 <= j < INQUIRIES && Undecided(answers, j) ==>
      match answers(Inquiry(j))
      case KeyRead(key) => Ending(Start(), answers) == Returned(key)
      case Refused => Ending(Start(), answers) == Failed
      case Created => Ending(Start(), answers) == Finish(Selection(answers))
      case _ => true
  {
    hide Ending, Inquiry, Selection;
    if Undecided(answers, INQUIRIES) {
      AskedSoFar(answers, INQUIRIES);
      EndIsReached(Failed, answers);
    }
    forall j | 0 <= j < INQUIRIES && Undecided(answers, j)
      ensures match answers(Inquiry(j))
              case KeyRead(key) => Ending(Start(), answers) == Returned(key)
              case Refused => Ending(Start(), answers) == Failed
              case Created => Ending(Start(), answers) == Finish(Selection(answers))
              case _ => true
    {
      AskedSoFar(answers, j);
      InquiryAdvances(j, answers(Inquiry(j)));
      EndsOneLater(Inquiry(j), answers);
      EndIsReached(Failed, answers);
      LockedEnds(answers);
      if answers(Inquiry(j)).KeyRead? {
        EndIsReached(Returned(answers(Inquiry(j)).key), answers);
      }
    }
  }

  // The answer to inquiry `j` is the first decisive one.
  ghost predicate DecidedAt(answers: Control -> Reply, j: nat) {
    j < INQUIRIES && Undecided(answers, j) && !answers(Inquiry(j)).NoKey? && !answers(Inquiry(j)).Busy?
  }

  lemma {:induction false} SomeDecision(answers: Control -> Reply, n: nat) returns (j: nat)
    requires n <= INQUIRIES && !Undecided(answers, n)
    ensures DecidedAt(answers, j) && j < n
  {
    hide Inquiry;
    if Undecided(answers, n - 1) {
      j := n - 1;
    } else {
      j := SomeDecision(answers, n - 1);
    }
  }

  // So a process fails exactly when the lock stays busy with no key to read, when a create
  // is refused, or when the lock was taken with no key in the file and minting, writing,
  // setting the mode or renaming did not succeed.
  lemma FailsExactly(answers: Control -> Reply)
    requires Fitting(answers)
    ensures Ending(Start(), answers) == Failed <==>
              || Undecided(answers, INQUIRIES)
              || (exists j :: DecidedAt(answers, j) && answers(Inquiry(j)).Refused?)
              || ((exists j :: DecidedAt(answers, j) && answers(Inquiry(j)).Created?) && Selection(answers) == Thrown)
  {
    EndsAsAnswered(answers);
    hide Ending, Inquiry, Selection;
    if !Undecided(answers, INQUIRIES) {
      var j := SomeDecision(answers, INQUIRIES);
      assert DecidedAt(answers, j);
      ReplyFits(answers, j);
      forall i | DecidedAt(answers, i)
        ensures i == j
      {
        OneDecision(answers, i, j);
      }
    }
  }

  lemma OneDecision(answers: Control -> Reply, i: nat, j: nat)
    requires DecidedAt(answers, i) && DecidedAt(answers, j)
    ensures i == j
  {
    hide Inquiry;
  }

  lemma ReplyFits(answers: Control -> Reply, j: nat)
    requires Fitting(answers) && DecidedAt(answers, j)
    ensures answers(Inquiry(j)).KeyRead? || answers(Inquiry(j)).Created? || answers(Inquiry(j)).Refused?
  {
    InquiryAdvances(j, NoKey);
    hide Inquiry, Reads, Locks;
  }

  // ---------------------------------------------------------------------------
  // What a process leaves behind

  // From the write of the temporary file on.
  predicate Writing(c: Control) {
    c.WriteTemporary? || c.ChangeMode? || c.Rename? || c.RemoveTemporary?
  }

  lemma OperationsUnfold(c: Control, answers: Control -> Reply)
    requires Bounded(c) && !Halted(c)
    ensures var next := Advance(c, answers(c));
            Bounded(next) && Operations(c, answers) == [c] + Operations(next, answers)
  {
    AdvanceDecreases(c, answers(c));
  }

  // Whatever the answers: who has taken the lock unlinks it last of all, and who has begun
  // to write the temporary file removes it right before.
  lemma {:induction false} CleansUp(c: Control, answers: Control -> Reply)
    requires Bounded(c) && !Halted(c)
    ensures var operations := Operations(c, answers);
            var n := |operations|;
            && (Critical(c) || (exists i :: 0 <= i < n && Locks(operations[i]) && answers(operations[i]).Created?) ==>
                  n > 0 && operations[n - 1].Unlink?)
            && (Writing(c) || (exists i :: 0 <= i < n && operations[i].WriteTemporary?) ==>
                  n > 1 && operations[n - 2].RemoveTemporary?)
    decreases Rank(c)
  {
    hide Operations;
    var next := Advance(c, answers(c));
    OperationsUnfold(c, answers);
    AdvanceDecreases(c, answers(c));
    if Halted(next) {
      NoOperations(next, answers);
    } else {
      CleansUp(next, answers);
      OperationsUnfold(next, answers);
      if next.Unlink? {
        NoOperations(Finish(next.outcome), answers);
      }
    }
  }

  lemma NoOperations(c: Control, answers: Control -> Reply)
    requires Halted(c)
    ensures Bounded(c) && Operations(c, answers) == []
  {
  }

  class Process {
    const answers: Control -> Reply
    var performed: seq<Control>

    constructor (answers: Control -> Reply)
      ensures this.answers == answers && performed == []
    {
      this.answers := answers;
      performed := [];
    }

    // What was performed so far, followed by all that is left to do from `c`.
    ghost function Course(c: Control): (seq<Control>, Control)
      requires Bounded(c)
      reads this
    {
      (performed + Operations(c, answers), Ending(c, answers))
    }

    method Perform(c: Control) returns (r: Reply)
      requires Bounded(c) && !Halted(c)
      modifies this
      ensures r == answers(c) && performed == old(performed) + [c]
      ensures Bounded(Advance(c, r)) && Course(Advance(c, r)) == old(Course(c))
    {
      r := answers(c);
      performed := performed + [c];
      OneOperation(old(performed), c, answers);
    }

    // Returns ReadCurrent with the lock taken, or how the process ends.
    method AcquireKeyLock() returns (next: Control)
      modifies this
      ensures next.ReadCurrent? || next.Returned? || next.Failed?
      ensures Course(next) == old(Course(TryLock(0)))
    {
      hide Operations, Ending;
      for attempt := 0 to LOCK_ATTEMPTS
        invariant Course(if attempt < LOCK_ATTEMPTS then TryLock(attempt) else ReadWinner)
               == old(Course(TryLock(0)))
      {
        var created := Perform(TryLock(attempt));
        if created.Created? {
          return ReadCurrent;
        }
        if !created.Busy? {
          return Failed;
        }
        var concurrent := Perform(ReadConcurrent(attempt));
        if concurrent.KeyRead? {
          return Returned(concurrent.key);
        }
      }
      var winner := Perform(ReadWinner);
      if winner.KeyRead? {
        return Returned(winner.key);
      }
      var created := Perform(TryLockLast);
      if created.Created? {
        return ReadCurrent;
      }
      if !created.Busy? {
        return Failed;
      }
      var lateWinner := Perform(ReadLateWinner);
      if lateWinner.KeyRead? {
        return Returned(lateWinner.key);
      }
      return Failed;
    }

    // True when the rename happened, false when it throws.
    method RenameKeyFile(key: Key) returns (renamed: bool)
      modifies this
      ensures Course(RemoveTemporary(if renamed then Selected(key) else Thrown))
           == old(Course(Rename(key, 0)))
    {
      hide Operations, Ending;
      renamed := false;
      for attempt := 0 to RENAME_ATTEMPTS
        invariant Course(if attempt < RENAME_ATTEMPTS then Rename(key, attempt) else RemoveTemporary(Thrown))
               == old(Course(Rename(key, 0)))
      {
        var r := Perform(Rename(key, attempt));
        if r.Success? {
          return true;
        }
        if !r.Retryable? || attempt == RENAME_ATTEMPTS - 1 {
          return false;
        }
      }
    }

    // The part of persistKeyPair that may throw.
    method WriteAndRename(key: Key) returns (outcome: Outcome)
      modifies this
      ensures outcome == Selected(key) || outcome == Thrown
      ensures Course(RemoveTemporary(outcome)) == old(Course(WriteTemporary(key)))
    {
      hide Operations, Ending;
      var written := Perform(WriteTemporary(key));
      if !written.Success? {
        return Thrown;
      }
      var changed := Perform(ChangeMode(key));
      if !changed.Success? {
        return Thrown;
      }
      var renamed := RenameKeyFile(key);
      return if renamed then Selected(key) else Thrown;
    }

    // In any case the temporary file is removed.
    method PersistKeyPair(key: Key) returns (outcome: Outcome)
      modifies this
      ensures outcome == Selected(key) || outcome == Thrown
      ensures Course(Unlink(outcome)) == old(Course(WriteTemporary(key)))
    {
      hide Operations, Ending;
      outcome := WriteAndRename(key);
      var _ := Perform(RemoveTemporary(outcome));
    }

    // The work between taking and releasing the lock; the release always happens.
    method SelectUnderLock() returns (end: Control)
      modifies this
      ensures end.Returned? || end.Failed?
      ensures Course(end) == old(Course(ReadCurrent))
    {
      hide Operations, Ending;
      var outcome := Thrown;
      var current := Perform(ReadCurrent);
      if current.KeyRead? {
        outcome := Selected(current.key);
      } else {
        var minted := Perform(Mint);
        if minted.Minted? {
          outcome := PersistKeyPair(minted.key);
        }
      }
      var _ := Perform(Unlink(outcome));
      return Finish(outcome);
    }

    // The whole of loadOrCreateMockServerKeyPair for a given key file.
    method LoadOrCreate() returns (end: Control)
      modifies this
      ensures end == Ending(Start(), answers)
      ensures performed == old(performed) + Operations(Start(), answers)
    {
      var existing := Perform(ReadExisting);
      if existing.KeyRead? {
        return Returned(existing.key);
      }
      end := AcquireKeyLock();
      if end.ReadCurrent? {
        end := SelectUnderLock();
      }
    }
  }
}
