/** The key file of the mock server: any number of processes read one key file or, under an
    exclusive lock file, mint a key and install it by an atomic rename. Each file-system call
    is one step; processes interleave, fail and stop between any two of them. */
module KeyPairLock {
  import opened Options
  import opened Seqs

  const LOCK_ATTEMPTS: nat := 50
  const RENAME_ATTEMPTS: nat := 5

  // A key pair is opaque here; only its identity matters.
  type Key = nat

  // Unusable stands for empty, malformed, wrongly sized and unreadable contents.
  datatype KeyFile = Missing | Unusable | Valid(key: Key)

  // Stale is a lock file left behind by some earlier program.
  datatype Lock = Free | Stale | HeldBy(owner: nat)

  datatype Error = LockBusy | LockFailed | PersistFailed

  datatype Outcome = Returned(key: Key) | Threw(error: Error)

  /** Where a process stands: each live constructor is the file-system call it makes next. */
  datatype Pc =
    | ReadFirst
    | OpenLock(attempt: nat)
    | ReadRival(attempt: nat)
    | ReadWinner
    | OpenLast
    | ReadLate
    | ReadLocked
    | WriteTemp(key: Key)
    | SetMode(key: Key)
    | Rename(key: Key, attempt: nat)
    | RemoveTemp(outcome: Outcome)
    | CloseLock(outcome: Outcome)
    | Unlink(outcome: Outcome)
    | Done(outcome: Outcome)
    | Stopped

  // What a file-system call answers.
  datatype Reply = Opened | Exists | Read(key: Option<Key>) | Succeeded | Faulted(transient: bool)

  predicate Live(pc: Pc) {
    !pc.Done? && !pc.Stopped?
  }

  /** Between creating the lock file and unlinking it. */
  predicate InSection(pc: Pc) {
    || pc.ReadLocked? || pc.WriteTemp? || pc.SetMode? || pc.Rename?
    || pc.RemoveTemp? || pc.CloseLock? || pc.Unlink?
  }

  predicate Minting(pc: Pc) {
    pc.WriteTemp? || pc.SetMode? || pc.Rename?
  }

  /** The key a process has settled on, whether or not it has returned it yet. */
  function Settled(pc: Pc): Option<Key> {
    if (pc.RemoveTemp? || pc.CloseLock? || pc.Unlink? || pc.Done?) && pc.outcome.Returned?
    then Some(pc.outcome.key)
    else None
  }

  // ---------------------------------------------------------------- one process

  /** The control flow of one call of loadOrCreateMockServerKeyPair, from reply to reply;
      `minted` is the key it would mint. */
  function Advance(pc: Pc, reply: Reply, minted: Key): Pc
    requires Live(pc)
  {
    match pc
    case ReadFirst => if Got(reply) then Done(Returned(reply.key.value)) else OpenLock(0)
    case OpenLock(attempt) =>
      if reply.Opened? then ReadLocked
      else if reply.Exists? then ReadRival(attempt)
      else Done(Threw(LockFailed))
    case ReadRival(attempt) =>
      if Got(reply) then Done(Returned(reply.key.value))
      else if attempt + 1 < LOCK_ATTEMPTS then OpenLock(attempt + 1)
      else ReadWinner
    case ReadWinner => if Got(reply) then Done(Returned(reply.key.value)) else OpenLast
    case OpenLast =>
      if reply.Opened? then ReadLocked
      else if reply.Exists? then ReadLate
      else Done(Threw(LockFailed))
    case ReadLate =>
      if Got(reply) then Done(Returned(reply.key.value)) else Done(Threw(LockBusy))
    case ReadLocked =>
      if Got(reply) then CloseLock(Returned(reply.key.value)) else WriteTemp(minted)
    case WriteTemp(key) =>
      if reply.Succeeded? then SetMode(key) else RemoveTemp(Threw(PersistFailed))
    case SetMode(key) =>
      if reply.Succeeded? then Rename(key, 0) else RemoveTemp(Threw(PersistFailed))
    case Rename(key, attempt) =>
      if reply.Succeeded? then RemoveTemp(Returned(key))
      else if reply.Faulted? && reply.transient && attempt + 1 < RENAME_ATTEMPTS
      then Rename(key, attempt + 1)
      else RemoveTemp(Threw(PersistFailed))
    case RemoveTemp(outcome) => CloseLock(outcome)
    case CloseLock(outcome) => Unlink(outcome)
    case Unlink(outcome) => Done(outcome)
  }

  predicate Got(reply: Reply) {
    reply.Read? && reply.key.Some?
  }

  /** A process fed the given replies one after another; a finished one ignores the rest. */
  function Drive(pc: Pc, replies: seq<Reply>, minted: Key): Pc
    decreases |replies|
  {
    if replies == [] || !Live(pc) then pc
    else Drive(Advance(pc, replies[0], minted), replies[1..], minted)
  }

  lemma {:induction false} DriveOneMore(pc: Pc, replies: seq<Reply>, reply: Reply, minted: Key)
    requires Live(Drive(pc, replies, minted))
    ensures Drive(pc, replies + [reply], minted) == Advance(Drive(pc, replies, minted), reply, minted)
    decreases |replies|
  {
    var longer := replies + [reply];
    if replies == [] {
      assert longer[1..] == [];
    } else {
      assert longer[1..] == replies[1..] + [reply];
      DriveOneMore(Advance(pc, replies[0], minted), replies[1..], reply, minted);
    }
  }

  /** One file-system call, from where the process stands: its reply, or none if it is stopped
      before there is one. */
  method Ask(replies: seq<Reply>, used: nat, ghost at: Pc, minted: Key) returns (reply: Option<Reply>, next: nat)
    requires used <= |replies| && Live(at)
    requires at == Drive(ReadFirst, replies[..used], minted)
    ensures used == |replies| ==> reply == None && next == used
    ensures used < |replies| ==> reply == Some(replies[used]) && next == used + 1
    ensures used < |replies| ==> Drive(ReadFirst, replies[..next], minted) == Advance(at, replies[used], minted)
  {
    if used == |replies| { return None, used; }
    reply, next := Some(replies[used]), used + 1;
    assert replies[..next] == replies[..used] + [replies[used]];
    DriveOneMore(ReadFirst, replies[..used], replies[used], minted);
  }

  /** The program as it is written, with its two retry loops and its decisions on replies, is
      the control flow above. `replies` are the answers the process gets; running out of them
      is the process being stopped. */
  method LoadOrCreate(replies: seq<Reply>, minted: Key) returns (pc: Pc, used: nat)
    ensures used <= |replies|
    ensures pc == Drive(ReadFirst, replies[..used], minted)
    ensures Live(pc) ==> used == |replies|
  {
    var reply;
    reply, used := Ask(replies, 0, ReadFirst, minted);
    if reply.None? { return ReadFirst, used; }
    if Got(reply.value) { return Done(Returned(reply.value.key.value)), used; }
    pc, used := AcquireKeyLock(replies, used, minted);
    if !pc.ReadLocked? { return; }
    reply, used := Ask(replies, used, ReadLocked, minted);
    if reply.None? { return ReadLocked, used; }
    var outcome;
    if Got(reply.value) {
      outcome := Returned(reply.value.key.value);
    } else {
      pc, used := PersistKeyPair(replies, used, minted);
      if !pc.CloseLock? { return; }
      outcome := pc.outcome;
    }
    reply, used := Ask(replies, used, CloseLock(outcome), minted);
    if reply.None? { return CloseLock(outcome), used; }
    reply, used := Ask(replies, used, Unlink(outcome), minted);
    if reply.None? { return Unlink(outcome), used; }
    return Done(outcome), used;
  }

  method AcquireKeyLock(replies: seq<Reply>, used: nat, minted: Key) returns (pc: Pc, next: nat)
    requires used <= |replies|
    requires Drive(ReadFirst, replies[..used], minted) == OpenLock(0)
    ensures used <= next <= |replies| && pc == Drive(ReadFirst, replies[..next], minted)
    ensures pc.Done? || pc.ReadLocked? || (next == |replies| && !InSection(pc) && Live(pc))
  {
    next := used;
    var reply;
    var attempt := 0;
    while attempt < LOCK_ATTEMPTS
      invariant used <= next <= |replies| && attempt <= LOCK_ATTEMPTS
      invariant Drive(ReadFirst, replies[..next], minted)
             == if attempt < LOCK_ATTEMPTS then OpenLock(attempt) else ReadWinner
    {
      reply, next := Ask(replies, next, OpenLock(attempt), minted);
      if reply.None? { return OpenLock(attempt), next; }
      if reply.value.Opened? { return ReadLocked, next; }
      if !reply.value.Exists? { return Done(Threw(LockFailed)), next; }
      reply, next := Ask(replies, next, ReadRival(attempt), minted);
      if reply.None? { return ReadRival(attempt), next; }
      if Got(reply.value) { return Done(Returned(reply.value.key.value)), next; }
      attempt := attempt + 1;
    }
    reply, next := Ask(replies, next, ReadWinner, minted);
    if reply.None? { return ReadWinner, next; }
    if Got(reply.value) { return Done(Returned(reply.value.key.value)), next; }
    reply, next := Ask(replies, next, OpenLast, minted);
    if reply.None? { return OpenLast, next; }
    if reply.value.Opened? { return ReadLocked, next; }
    if !reply.value.Exists? { return Done(Threw(LockFailed)), next; }
    reply, next := Ask(replies, next, ReadLate, minted);
    if reply.None? { return ReadLate, next; }
    if Got(reply.value) { return Done(Returned(reply.value.key.value)), next; }
    return Done(Threw(LockBusy)), next;
  }

  /** Write, set the mode and rename; then, in every case, remove the temporary file. */
  method PersistKeyPair(replies: seq<Reply>, used: nat, key: Key) returns (pc: Pc, next: nat)
    requires used <= |replies|
    requires Drive(ReadFirst, replies[..used], key) == WriteTemp(key)
    ensures used <= next <= |replies| && pc == Drive(ReadFirst, replies[..next], key)
    ensures pc.CloseLock? || (next == |replies| && (Minting(pc) || pc.RemoveTemp?))
  {
    var reply;
    var outcome := Threw(PersistFailed);
    reply, next := Ask(replies, used, WriteTemp(key), key);
    if reply.None? { return WriteTemp(key), next; }
    if reply.value.Succeeded? {
      reply, next := Ask(replies, next, SetMode(key), key);
      if reply.None? { return SetMode(key), next; }
      if reply.value.Succeeded? {
        pc, next := RenameKeyFile(replies, next, key);
        if !pc.RemoveTemp? { return; }
        outcome := pc.outcome;
      }
    }
    reply, next := Ask(replies, next, RemoveTemp(outcome), key);
    if reply.None? { return RemoveTemp(outcome), next; }
    return CloseLock(outcome), next;
  }

  method RenameKeyFile(replies: seq<Reply>, used: nat, key: Key) returns (pc: Pc, next: nat)
    requires used <= |replies|
    requires Drive(ReadFirst, replies[..used], key) == Rename(key, 0)
    ensures used <= next <= |replies| && pc == Drive(ReadFirst, replies[..next], key)
    ensures pc.RemoveTemp? || (next == |replies| && Minting(pc))
  {
    next := used;
    var attempt := 0;
    while true
      invariant used <= next <= |replies| && attempt < RENAME_ATTEMPTS
      invariant Drive(ReadFirst, replies[..next], key) == Rename(key, attempt)
      decreases RENAME_ATTEMPTS - attempt
    {
      var reply;
      reply, next := Ask(replies, next, Rename(key, attempt), key);
      if reply.None? { return Rename(key, attempt), next; }
      if reply.value.Succeeded? { return RemoveTemp(Returned(key)), next; }
      if !reply.value.Faulted? || !reply.value.transient || attempt == RENAME_ATTEMPTS - 1 {
        return RemoveTemp(Threw(PersistFailed)), next;
      }
      attempt := attempt + 1;
    }
  }

  // ---------------------------------------------------------------- many processes

  datatype State = State(file: KeyFile, lock: Lock, procs: seq<Pc>, installed: seq<Key>)

  // How the environment disturbs one call.
  datatype Glitch = Fine | Misread | Transient | Fatal

  /** Call: process p makes its next call. Stop: it is killed where it stands. RemoveLock: an
      operator deletes the lock file, as the busy error advises. */
  datatype Event = Call(p: nat, glitch: Glitch, minted: Key) | Stop(p: nat) | RemoveLock

  predicate Breaks(glitch: Glitch) {
    glitch.Transient? || glitch.Fatal?
  }

  function KeyOf(file: KeyFile): Option<Key> {
    if file.Valid? then Some(file.key) else None
  }

  /** The reply to p's next call, with the key file and the lock file after it. Exclusive
      create and rename are atomic; unlinking goes by path, whoever made the lock file. */
  function Perform(file: KeyFile, lock: Lock, p: nat, pc: Pc, glitch: Glitch): (Reply, KeyFile, Lock)
    requires Live(pc)
  {
    match pc
    case ReadFirst | ReadRival(_) | ReadWinner | ReadLate | ReadLocked =>
      (Read(if glitch.Misread? then None else KeyOf(file)), file, lock)
    case OpenLock(_) | OpenLast =>
      if Breaks(glitch) then (Faulted(glitch.Transient?), file, lock)
      else if lock.Free? then (Opened, file, HeldBy(p))
      else (Exists, file, lock)
    case Rename(key, _) =>
      if Breaks(glitch) then (Faulted(glitch.Transient?), file, lock)
      else (Succeeded, Valid(key), lock)
    case Unlink(_) =>
      if Breaks(glitch) then (Faulted(glitch.Transient?), file, lock)
      else (Succeeded, file, Free)
    case _ =>
      (if Breaks(glitch) then Faulted(glitch.Transient?) else Succeeded, file, lock)
  }

  function Step(s: State, e: Event): State {
    match e
    case Call(p, glitch, minted) =>
      if p < |s.procs| && Live(s.procs[p]) then
        var (reply, file, lock) := Perform(s.file, s.lock, p, s.procs[p], glitch);
        State(file, lock, s.procs[p := Advance(s.procs[p], reply, minted)],
              if s.procs[p].Rename? && reply.Succeeded? then s.installed + [s.procs[p].key]
              else s.installed)
      else s
    case Stop(p) =>
      if p < |s.procs| && Live(s.procs[p]) then s.(procs := s.procs[p := Stopped]) else s
    case RemoveLock => s.(lock := Free)
  }

  /** The two things the environment must not do: make the read under the lock miss a valid
      key, and delete the lock file while some process is working under it. */
  predicate Permitted(s: State, e: Event) {
    match e
    case Call(p, glitch, _) =>
      p < |s.procs| && s.procs[p].ReadLocked? && s.file.Valid? ==> !glitch.Misread?
    case Stop(_) => true
    case RemoveLock => forall p | 0 <= p < |s.procs| :: !InSection(s.procs[p])
  }

  function Run(s: State, events: seq<Event>): State
    decreases |events|
  {
    if events == [] then s else Run(Step(s, events[0]), events[1..])
  }

  predicate PermittedRun(s: State, events: seq<Event>)
    decreases |events|
  {
    events != [] ==> Permitted(s, events[0]) && PermittedRun(Step(s, events[0]), events[1..])
  }

  /** Any number of processes about to start, any key file, any lock left behind. */
  predicate Initial(s: State) {
    && s.installed == []
    && !s.lock.HeldBy?
    && forall p | 0 <= p < |s.procs| :: s.procs[p] == ReadFirst
  }

  ghost predicate Invariant(start: KeyFile, s: State) {
    && (forall p | 0 <= p < |s.procs| && InSection(s.procs[p]) :: s.lock == HeldBy(p))
    && (forall p | 0 <= p < |s.procs| && Minting(s.procs[p]) :: !s.file.Valid?)
    && (forall p | 0 <= p < |s.procs| && Settled(s.procs[p]).Some? ::
          s.file == Valid(Settled(s.procs[p]).value))
    && (if s.installed == [] then s.file == start
        else !start.Valid? && |s.installed| == 1 && s.file == Valid(s.installed[0]))
  }

  lemma StepKeepsInvariant(start: KeyFile, s: State, e: Event)
    requires Invariant(start, s) && Permitted(s, e)
    ensures Invariant(start, Step(s, e))
    ensures s.file.Valid? ==> Step(s, e).file == s.file
  {
    if e.Call? && e.p < |s.procs| && Live(s.procs[e.p]) {
      var pc := s.procs[e.p];
      var t := Step(s, e);
      var next := t.procs[e.p];
      assert InSection(next) ==> t.lock == HeldBy(e.p);
      assert Settled(next).Some? ==> t.file == Valid(Settled(next).value);
      if pc.Rename? && t.file != s.file {
        assert s.installed == [];
      }
    }
  }

  lemma {:induction false} RunKeepsInvariant(start: KeyFile, s: State, events: seq<Event>)
    requires Invariant(start, s) && PermittedRun(s, events)
    ensures Invariant(start, Run(s, events))
    ensures s.file.Valid? ==> Run(s, events).file == s.file
    decreases |events|
  {
    if events != [] {
      StepKeepsInvariant(start, s, events[0]);
      RunKeepsInvariant(start, Step(s, events[0]), events[1..]);
    }
  }

  /** Agreement: in every run all processes that return, return the same key, which is the
      one in the file; at most one key is ever installed, and none over a valid one. */
  lemma Agreement(s: State, events: seq<Event>, p: nat, q: nat)
    requires Initial(s) && PermittedRun(s, events)
    requires p < |s.procs| && q < |s.procs|
    ensures var t := Run(s, events);
            && |t.procs| == |s.procs|
            && |t.installed| <= 1
            && (s.file.Valid? ==> t.file == s.file && t.installed == [])
            && (t.installed != [] ==> t.file == Valid(t.installed[0]))
            && (t.procs[p].Done? && t.procs[p].outcome.Returned? ==>
                  t.file == Valid(t.procs[p].outcome.key))
            && (t.procs[p].Done? && t.procs[p].outcome.Returned?
                && t.procs[q].Done? && t.procs[q].outcome.Returned? ==>
                  t.procs[p].outcome.key == t.procs[q].outcome.key)
  {
    assert Invariant(s.file, s);
    RunKeepsInvariant(s.file, s, events);
    RunKeepsCount(s, events);
    var t := Run(s, events);
    assert t.procs[p].Done? && t.procs[p].outcome.Returned? ==> Settled(t.procs[p]).Some?;
    assert t.procs[q].Done? && t.procs[q].outcome.Returned? ==> Settled(t.procs[q]).Some?;
  }

  lemma {:induction false} RunKeepsCount(s: State, events: seq<Event>)
    ensures |Run(s, events).procs| == |s.procs|
    decreases |events|
  {
    if events != [] {
      RunKeepsCount(Step(s, events[0]), events[1..]);
    }
  }

  /** A key file, once valid, is never replaced: not later in the same run either. */
  lemma ValidKeyIsFinal(s: State, before: seq<Event>, after: seq<Event>)
    requires Initial(s) && PermittedRun(s, before) && PermittedRun(Run(s, before), after)
    requires Run(s, before).file.Valid?
    ensures Run(Run(s, before), after).file == Run(s, before).file
  {
    assert Invariant(s.file, s);
    RunKeepsInvariant(s.file, s, before);
    RunKeepsInvariant(s.file, Run(s, before), after);
  }

  /** Mutual exclusion: no two processes are ever inside the locked section together. */
  lemma MutualExclusion(s: State, events: seq<Event>, p: nat, q: nat)
    requires Initial(s) && PermittedRun(s, events)
    requires p < |Run(s, events).procs| && q < |Run(s, events).procs|
    requires InSection(Run(s, events).procs[p]) && InSection(Run(s, events).procs[q])
    ensures p == q
  {
    assert Invariant(s.file, s);
    RunKeepsInvariant(s.file, s, events);
    assert Run(s, events).lock == HeldBy(p);
  }

  // ---------------------------------------------------------------- the program in the machine

  /** The replies process p gets in a run. */
  function Replies(s: State, events: seq<Event>, p: nat): seq<Reply>
    decreases |events|
  {
    if events == [] then []
    else
      var e := events[0];
      (if e.Call? && e.p == p && p < |s.procs| && Live(s.procs[p])
       then [Perform(s.file, s.lock, p, s.procs[p], e.glitch).0] else [])
      + Replies(Step(s, e), events[1..], p)
  }

  /** In any interleaving a process that is not killed is exactly where LoadOrCreate leaves it
      when fed the replies that process got: the machine runs the program. */
  lemma {:induction false} ProcessRunsProgram(s: State, events: seq<Event>, p: nat, minted: Key)
    requires p < |s.procs| && Stop(p) !in events
    requires forall e | e in events && e.Call? && e.p == p :: e.minted == minted
    ensures p < |Run(s, events).procs|
    ensures Run(s, events).procs[p] == Drive(s.procs[p], Replies(s, events, p), minted)
    decreases |events|
  {
    if events != [] {
      var e := events[0];
      assert e in events;
      ProcessRunsProgram(Step(s, e), events[1..], p, minted);
      var rest := Replies(Step(s, e), events[1..], p);
      if e.Call? && e.p == p && Live(s.procs[p]) {
        var reply := Perform(s.file, s.lock, p, s.procs[p], e.glitch).0;
        assert ([reply] + rest)[1..] == rest;
      } else {
        assert Replies(s, events, p) == rest;
      }
    }
  }

  // ---------------------------------------------------------------- the premises are needed

  lemma {:induction false} RunThen(s: State, events: seq<Event>, e: Event)
    ensures Run(s, events + [e]) == Step(Run(s, events), e)
    decreases |events|
  {
    var longer := events + [e];
    if events == [] {
      assert longer[1..] == [];
    } else {
      assert longer[1..] == events[1..] + [e];
      RunThen(Step(s, events[0]), events[1..], e);
    }
  }

  lemma OneProcessSteps(file: KeyFile, lock: Lock, pc: Pc, installed: seq<Key>, glitch: Glitch, minted: Key)
    requires Live(pc)
    ensures var (reply, after, held) := Perform(file, lock, 0, pc, glitch);
            Step(State(file, lock, [pc], installed), Call(0, glitch, minted)) ==
              State(after, held, [Advance(pc, reply, minted)],
                    if pc.Rename? && reply.Succeeded? then installed + [pc.key] else installed)
  {
    assert forall next :: [pc][0 := next] == [next];
  }

  /** A single process, call by call, up to its rename: it misreads the valid key twice. */
  function MisreadPc(minted: Key, i: nat): Pc {
    if i == 0 then ReadFirst
    else if i == 1 then OpenLock(0)
    else if i == 2 then ReadLocked
    else if i == 3 then WriteTemp(minted)
    else if i == 4 then SetMode(minted)
    else if i == 5 then Rename(minted, 0)
    else RemoveTemp(Returned(minted))
  }

  function MisreadState(key: Key, minted: Key, i: nat): State {
    State(if i < 6 then Valid(key) else Valid(minted), if i < 2 then Free else HeldBy(0), [MisreadPc(minted, i)],
          if i < 6 then [] else [minted])
  }

  function MisreadCall(minted: Key, i: nat): Event {
    Call(0, if i == 0 || i == 2 then Misread else Fine, minted)
  }

  lemma MisreadStep(key: Key, minted: Key, i: nat)
    requires i < 6
    ensures Step(MisreadState(key, minted, i), MisreadCall(minted, i)) == MisreadState(key, minted, i + 1)
    ensures Permitted(MisreadState(key, minted, i), MisreadCall(minted, i)) <==> i != 2
  {
    OneProcessSteps(Valid(key), if i < 2 then Free else HeldBy(0), MisreadPc(minted, i), [],
                    MisreadCall(minted, i).glitch, minted);
    Nothing([minted]);
  }

  lemma {:induction false} MisreadRun(key: Key, minted: Key, events: seq<Event>, i: nat)
    requires i <= |events| == 6 && forall k | 0 <= k < 6 :: events[k] == MisreadCall(minted, k)
    ensures Run(MisreadState(key, minted, 0), events[..i]) == MisreadState(key, minted, i)
    decreases i
  {
    if i > 0 {
      MisreadRun(key, minted, events, i - 1);
      assert events[..i] == events[..i - 1] + [events[i - 1]];
      RunThen(MisreadState(key, minted, 0), events[..i - 1], events[i - 1]);
      MisreadStep(key, minted, i - 1);
    }
  }

  /** One misread under the lock is enough to replace a valid key by any other. In the run
      everything else is permitted, the earlier misread outside the lock too. */
  lemma MisreadUnderLockReplacesKey(key: Key, minted: Key) returns (s: State, events: seq<Event>)
    ensures Initial(s) && s.file == Valid(key) && s.lock == Free && |s.procs| == 1
    ensures |events| == 6 && forall e | e in events :: e.Call?
    ensures forall i | 0 <= i < 6 :: Permitted(Run(s, events[..i]), events[i]) <==> i != 2
    ensures Run(s, events).file == Valid(minted) && Run(s, events).installed == [minted]
  {
    s := MisreadState(key, minted, 0);
    events := seq(6, k requires 0 <= k < 6 => MisreadCall(minted, k));
    forall i | 0 <= i < 6 ensures Permitted(Run(s, events[..i]), events[i]) <==> i != 2 {
      MisreadRun(key, minted, events, i);
      MisreadStep(key, minted, i);
    }
    MisreadRun(key, minted, events, 6);
    assert events[..6] == events;
  }

  /** So is deleting the lock file while its maker still works: two keys get installed. */
  lemma RemovingBusyLockInstallsTwoKeys(first: Key, second: Key) returns (s: State, events: seq<Event>)
    ensures Initial(s) && s.file == Missing && s.lock == Free && |s.procs| == 2
    ensures forall e | e in events && e.Call? :: e.glitch == Fine
    ensures Run(s, events).installed == [first, second]
  {
    s := State(Missing, Free, [ReadFirst, ReadFirst], []);
    var a, b := Call(0, Fine, first), Call(1, Fine, second);
    events := Enter(s, [], a);
    var t := Run(s, events);
    RunThen(s, events, RemoveLock);
    events := Enter(s, events + [RemoveLock], b);
    events := Install(s, events, a);
    events := Install(s, events, b);
  }

  /** A process that finds the lock free and no key goes on to mint one. */
  lemma Enter(s: State, events: seq<Event>, e: Event) returns (longer: seq<Event>)
    requires e.Call? && e.glitch == Fine
    requires var t := Run(s, events);
             e.p < |t.procs| && t.procs[e.p] == ReadFirst && !t.file.Valid? && t.lock.Free?
    ensures longer == events + [e, e, e]
    ensures var t := Run(s, events);
            Run(s, longer) == t.(procs := t.procs[e.p := WriteTemp(e.minted)], lock := HeldBy(e.p))
  {
    RunThrice(s, events, e);
    longer := events + [e, e, e];
  }

  lemma Install(s: State, events: seq<Event>, e: Event) returns (longer: seq<Event>)
    requires e.Call? && e.glitch == Fine
    requires e.p < |Run(s, events).procs| && Run(s, events).procs[e.p].WriteTemp?
    ensures longer == events + [e, e, e]
    ensures var t := Run(s, events);
            var key := t.procs[e.p].key;
            Run(s, longer) == State(Valid(key), t.lock, t.procs[e.p := RemoveTemp(Returned(key))],
                                    t.installed + [key])
  {
    RunThrice(s, events, e);
    longer := events + [e, e, e];
  }

  lemma RunThrice(s: State, events: seq<Event>, e: Event)
    ensures Run(s, events + [e, e, e]) == Step(Step(Step(Run(s, events), e), e), e)
  {
    RunThen(s, events, e);
    RunThen(s, events + [e], e);
    RunThen(s, events + [e] + [e], e);
    assert events + [e, e, e] == events + [e] + [e] + [e];
  }

  // ---------------------------------------------------------------- progress

  function Left(attempt: nat, limit: nat): nat {
    if attempt < limit then limit - attempt else 1
  }

  /** At least as many calls as a process standing here can still make. */
  function CallsLeft(pc: Pc): nat {
    match pc
    case ReadFirst => 2 * LOCK_ATTEMPTS + 14
    case OpenLock(attempt) => 2 * Left(attempt, LOCK_ATTEMPTS) + 13
    case ReadRival(attempt) => 2 * Left(attempt, LOCK_ATTEMPTS) + 12
    case ReadWinner => 13
    case OpenLast => 12
    case ReadLate => 1
    case ReadLocked => 6 + RENAME_ATTEMPTS
    case WriteTemp(_) => 5 + RENAME_ATTEMPTS
    case SetMode(_) => 4 + RENAME_ATTEMPTS
    case Rename(_, attempt) => 3 + Left(attempt, RENAME_ATTEMPTS)
    case RemoveTemp(_) => 3
    case CloseLock(_) => 2
    case Unlink(_) => 1
    case Done(_) | Stopped => 0
  }

  /** How many calls process p really makes in a run. */
  function CallsMade(s: State, events: seq<Event>, p: nat): nat
    decreases |events|
  {
    if events == [] then 0
    else
      (if events[0].Call? && events[0].p == p && p < |s.procs| && Live(s.procs[p]) then 1 else 0)
      + CallsMade(Step(s, events[0]), events[1..], p)
  }

  lemma AdvanceUsesACall(pc: Pc, reply: Reply, minted: Key)
    requires Live(pc)
    ensures CallsLeft(Advance(pc, reply, minted)) < CallsLeft(pc)
  {}

  lemma OneCallLess(s: State, e: Event, p: nat)
    requires p < |s.procs|
    ensures p < |Step(s, e).procs|
    ensures (if e.Call? && e.p == p && Live(s.procs[p]) then 1 else 0) + CallsLeft(Step(s, e).procs[p])
         <= CallsLeft(s.procs[p])
  {
    if e.Call? && e.p == p && Live(s.procs[p]) {
      AdvanceUsesACall(s.procs[p], Perform(s.file, s.lock, p, s.procs[p], e.glitch).0, e.minted);
    }
  }

  /** Every process ends by itself: whatever the others and the environment do, it makes at
      most 114 calls, and a process still live after fewer could not have made more. */
  lemma {:induction false} CallsAreBounded(s: State, events: seq<Event>, p: nat)
    requires p < |s.procs|
    ensures p < |Run(s, events).procs|
    ensures CallsMade(s, events, p) + CallsLeft(Run(s, events).procs[p]) <= CallsLeft(s.procs[p])
    ensures s.procs[p] == ReadFirst ==> CallsMade(s, events, p) <= 114
    decreases |events|
  {
    if events != [] {
      OneCallLess(s, events[0], p);
      CallsAreBounded(Step(s, events[0]), events[1..], p);
    }
  }

  // ---------------------------------------------------------------- what comes out

  /** What a process will end with, once that is decided. */
  function Decided(pc: Pc): Option<Outcome> {
    if pc.RemoveTemp? || pc.CloseLock? || pc.Unlink? || pc.Done? then Some(pc.outcome) else None
  }

  predicate Reading(pc: Pc) {
    pc.ReadFirst? || pc.ReadRival? || pc.ReadWinner? || pc.ReadLate? || pc.ReadLocked?
  }

  /** A process that reads a valid key, wherever it reads, has settled on that key; so has one
      whose rename works on the key it minted. */
  lemma GoodCallSettles(s: State, p: nat, glitch: Glitch, minted: Key)
    requires p < |s.procs| && Live(s.procs[p])
    ensures Reading(s.procs[p]) && s.file.Valid? && !glitch.Misread? ==>
              var next := Step(s, Call(p, glitch, minted)).procs[p];
              Settled(next) == Some(s.file.key) && (next.Done? <==> !s.procs[p].ReadLocked?)
    ensures s.procs[p].Rename? && !Breaks(glitch) ==>
              var t := Step(s, Call(p, glitch, minted));
              t.file == Valid(s.procs[p].key) && Settled(t.procs[p]) == Some(s.procs[p].key)
  {}

  /** The temporary file is removed whatever became of it, the lock file is closed before it is
      unlinked, and nothing else leaves the locked section. */
  lemma SectionIsLeftInOrder(pc: Pc, reply: Reply, minted: Key)
    requires InSection(pc)
    ensures var next := Advance(pc, reply, minted);
            && (Minting(pc) ==> Minting(next) || next.RemoveTemp?)
            && (next.Unlink? ==> pc.CloseLock?)
            && (!InSection(next) <==> pc.Unlink?)
  {}

  lemma StepKeepsDecision(s: State, e: Event, p: nat)
    requires p < |s.procs| && Decided(s.procs[p]).Some? && e != Stop(p)
    ensures p < |Step(s, e).procs|
    ensures Decided(Step(s, e).procs[p]) == Decided(s.procs[p])
  {}

  /** What is decided comes out: a process with an outcome keeps it through everything the
      others and the environment do, unless it is killed, and after three more calls of its own
      it has ended with it. In particular a process that has a key returns that key. */
  lemma {:induction false} DecidedComesOut(s: State, events: seq<Event>, p: nat)
    requires p < |s.procs| && Decided(s.procs[p]).Some? && Stop(p) !in events
    ensures p < |Run(s, events).procs|
    ensures Decided(Run(s, events).procs[p]) == Decided(s.procs[p])
    ensures Settled(Run(s, events).procs[p]) == Settled(s.procs[p])
    ensures CallsMade(s, events, p) >= 3 ==> Run(s, events).procs[p] == Done(s.procs[p].outcome)
    decreases |events|
  {
    CallsAreBounded(s, events, p);
    if events != [] {
      assert events[0] in events;
      StepKeepsDecision(s, events[0], p);
      DecidedComesOut(Step(s, events[0]), events[1..], p);
    }
  }

  lemma Leave(s: State, events: seq<Event>, e: Event) returns (longer: seq<Event>)
    requires e.Call? && e.glitch == Fine
    requires e.p < |Run(s, events).procs| && Run(s, events).procs[e.p].RemoveTemp?
    ensures longer == events + [e, e, e]
    ensures var t := Run(s, events);
            Run(s, longer) == t.(procs := t.procs[e.p := Done(t.procs[e.p].outcome)], lock := Free)
  {
    RunThrice(s, events, e);
    longer := events + [e, e, e];
  }

  /** An undisturbed process that finds neither a key nor a lock file mints a key, installs it,
      returns it and leaves no lock file behind, in nine calls; nothing else changes. */
  lemma UndisturbedCallMints(s: State, p: nat, minted: Key) returns (events: seq<Event>)
    requires p < |s.procs| && s.procs[p] == ReadFirst && !s.file.Valid? && s.lock.Free?
    ensures |events| == 9 && forall e | e in events :: e == Call(p, Fine, minted)
    ensures Run(s, events) == State(Valid(minted), Free, s.procs[p := Done(Returned(minted))],
                                    s.installed + [minted])
  {
    var e := Call(p, Fine, minted);
    events := Enter(s, [], e);
    events := Install(s, events, e);
    events := Leave(s, events, e);
  }

  lemma DriveTwo(pc: Pc, replies: seq<Reply>, minted: Key)
    requires |replies| >= 2 && Live(pc)
    ensures var next := Advance(pc, replies[0], minted);
            Drive(pc, replies, minted)
            == if Live(next) then Drive(Advance(next, replies[1], minted), replies[2..], minted) else next
  {
    assert replies[1..][1..] == replies[2..];
  }

  /** The i-th try to create the lock file found it there, and the read after it no key. */
  predicate Refused(replies: seq<Reply>, i: nat) {
    2 * i + 2 < |replies| && replies[2 * i + 1].Exists? && !Got(replies[2 * i + 2])
  }

  /** The last read before the last try, that try and the read after it came to nothing. */
  predicate RefusedLast(replies: seq<Reply>) {
    |replies| >= 104 && !Got(replies[101]) && replies[102].Exists? && !Got(replies[103])
  }

  /** The lock is reported busy exactly if it was there at 51 tries to create it and none of 53
      reads, one first, one after each try and one before the last, found a key. */
  lemma BusyExactlyIfRefused(replies: seq<Reply>, minted: Key)
    ensures Drive(ReadFirst, replies, minted) == Done(Threw(LockBusy)) <==>
              |replies| >= 104 && !Got(replies[0])
              && (forall i: nat | i < 50 :: Refused(replies, i)) && RefusedLast(replies)
  {
    if replies != [] && !Got(replies[0]) {
      BusyFrom(replies, 0, minted);
    }
  }

  lemma {:induction false} BusyFrom(replies: seq<Reply>, i: nat, minted: Key)
    requires i <= 50 && 2 * i < |replies|
    ensures Drive(if i < 50 then OpenLock(i) else ReadWinner, replies[2 * i + 1..], minted) == Done(Threw(LockBusy))
       <==> (forall k: nat | i <= k < 50 :: Refused(replies, k)) && RefusedLast(replies)
    decreases 50 - i
  {
    var rest := replies[2 * i + 1..];
    if i == 50 {
      BusyAtLast(rest, minted);
    } else if |rest| < 2 {
      assert !Refused(replies, i);
    } else {
      DriveTwo(OpenLock(i), rest, minted);
      assert rest[2..] == replies[2 * (i + 1) + 1..];
      if Refused(replies, i) {
        BusyFrom(replies, i + 1, minted);
      } else if rest[0].Opened? {
        InsideOnlyPersistingFails(ReadLocked, rest[1..], minted);
      }
    }
  }

  lemma BusyAtLast(rest: seq<Reply>, minted: Key)
    ensures Drive(ReadWinner, rest, minted) == Done(Threw(LockBusy))
       <==> |rest| >= 3 && !Got(rest[0]) && rest[1].Exists? && !Got(rest[2])
  {
    if |rest| >= 2 {
      DriveTwo(ReadWinner, rest, minted);
      if !Got(rest[0]) && rest[1].Opened? {
        InsideOnlyPersistingFails(ReadLocked, rest[2..], minted);
      }
    }
  }

  predicate NothingWrongWithLock(pc: Pc) {
    (InSection(pc) || pc.Done?)
    && (Decided(pc).Some? && Decided(pc).value.Threw? ==> Decided(pc) == Some(Threw(PersistFailed)))
  }

  /** Once inside, a process fails only with the error of persisting. */
  lemma {:induction false} InsideOnlyPersistingFails(pc: Pc, replies: seq<Reply>, minted: Key)
    requires NothingWrongWithLock(pc)
    ensures NothingWrongWithLock(Drive(pc, replies, minted))
    decreases |replies|
  {
    if replies != [] && Live(pc) {
      InsideOnlyPersistingFails(Advance(pc, replies[0], minted), replies[1..], minted);
    }
  }

  /** Where the reply to the i-th try to create the lock file stands among the replies. */
  function TryIndex(i: nat): nat {
    if i < 50 then 2 * i + 1 else 102
  }

  /** No read found a key, and every try before the i-th found the lock file there. */
  ghost predicate RefusedSoFar(replies: seq<Reply>, i: nat) {
    && |replies| >= TryIndex(i) && !Got(replies[0])
    && (forall k: nat | k < i :: Refused(replies, k))
    && (i == 50 ==> !Got(replies[101]))
  }

  lemma OneMoreReply(replies: seq<Reply>, n: nat, minted: Key)
    requires n < |replies| && Live(Drive(ReadFirst, replies[..n], minted))
    ensures Drive(ReadFirst, replies[..n + 1], minted)
         == Advance(Drive(ReadFirst, replies[..n], minted), replies[n], minted)
  {
    assert replies[..n + 1] == replies[..n] + [replies[n]];
    DriveOneMore(ReadFirst, replies[..n], replies[n], minted);
  }

  lemma {:induction false} StandsAtTry(replies: seq<Reply>, i: nat, minted: Key)
    requires i <= 50 && RefusedSoFar(replies, i)
    ensures Drive(ReadFirst, replies[..TryIndex(i)], minted) == if i < 50 then OpenLock(i) else OpenLast
    decreases i
  {
    if i == 0 {
      OneMoreReply(replies, 0, minted);
    } else {
      assert Refused(replies, i - 1);
      StandsAtTry(replies, i - 1, minted);
      OneMoreReply(replies, 2 * i - 1, minted);
      OneMoreReply(replies, 2 * i, minted);
      if i == 50 {
        OneMoreReply(replies, 101, minted);
      }
    }
  }

  /** The first try that is not refused decides: a lock file created lets the process in, and any
      error but that the file exists ends the call with the error of locking. */
  lemma FirstOtherReplyDecides(replies: seq<Reply>, i: nat, minted: Key)
    requires i <= 50 && RefusedSoFar(replies, i) && TryIndex(i) < |replies| && !replies[TryIndex(i)].Exists?
    ensures Drive(ReadFirst, replies[..TryIndex(i) + 1], minted)
         == if replies[TryIndex(i)].Opened? then ReadLocked else Done(Threw(LockFailed))
  {
    StandsAtTry(replies, i, minted);
    OneMoreReply(replies, TryIndex(i), minted);
  }

  /** The rename worked at its k-th try, every try before having failed for the moment. */
  predicate RenamedAt(replies: seq<Reply>, k: nat) {
    k < |replies| && replies[k].Succeeded? && forall j | 0 <= j < k :: replies[j] == Faulted(true)
  }

  /** Minting ends with the minted key exactly if writing and setting the mode worked and the
      rename did at one of five tries, all before it having failed for the moment; if it ends
      otherwise, it is with the error of persisting. */
  lemma MintsExactlyIfRenamed(replies: seq<Reply>, key: Key)
    ensures Settled(Drive(WriteTemp(key), replies, key)) ==
              if |replies| >= 2 && replies[0].Succeeded? && replies[1].Succeeded?
                 && exists k: nat :: k < 5 && RenamedAt(replies[2..], k)
              then Some(key) else None
    ensures var decided := Decided(Drive(WriteTemp(key), replies, key));
            decided.Some? && decided.value.Threw? ==> decided == Some(Threw(PersistFailed))
  {
    InsideOnlyPersistingFails(WriteTemp(key), replies, key);
    if |replies| >= 2 {
      DriveTwo(WriteTemp(key), replies, key);
      if !replies[0].Succeeded? {
        DriveKeepsDecision(RemoveTemp(Threw(PersistFailed)), replies[1..], key);
      } else if !replies[1].Succeeded? {
        DriveKeepsDecision(RemoveTemp(Threw(PersistFailed)), replies[2..], key);
      } else {
        RenameSettles(replies[2..], 0, key);
      }
    }
  }

  lemma {:induction false} DriveKeepsDecision(pc: Pc, replies: seq<Reply>, minted: Key)
    requires Decided(pc).Some?
    ensures Decided(Drive(pc, replies, minted)) == Decided(pc)
    decreases |replies|
  {
    if replies != [] && Live(pc) {
      DriveKeepsDecision(Advance(pc, replies[0], minted), replies[1..], minted);
    }
  }

  lemma {:induction false} RenameSettles(replies: seq<Reply>, attempt: nat, key: Key)
    requires attempt < 5
    ensures Settled(Drive(Rename(key, attempt), replies, key)) ==
              if exists k: nat :: attempt + k < 5 && RenamedAt(replies, k) then Some(key) else None
    decreases |replies|
  {
    if replies != [] {
      var rest := replies[1..];
      var next := Advance(Rename(key, attempt), replies[0], key);
      if next.Rename? {
        RenameSettles(rest, attempt + 1, key);
        forall k: nat | RenamedAt(rest, k) ensures RenamedAt(replies, k + 1) {
          assert forall j | 0 < j < k + 1 :: replies[j] == rest[j - 1];
        }
        forall k: nat | RenamedAt(replies, k) ensures k > 0 && RenamedAt(rest, k - 1) {
          assert forall j | 0 <= j < k - 1 :: rest[j] == replies[j + 1];
        }
      } else {
        DriveKeepsDecision(next, rest, key);
        if replies[0].Succeeded? {
          assert RenamedAt(replies, 0);
        } else {
          forall k: nat | attempt + k < 5 ensures !RenamedAt(replies, k) {}
        }
      }
    }
  }

  // ---------------------------------------------------------------- lock left behind or released

  /** A stale lock over an unusable key file: until an operator removes it, no process gets a
      key, the file stays as it was, and nobody can blame anything but the lock. */
  ghost predicate Blocked(start: State, s: State) {
    && s.lock == start.lock == Stale && s.file == start.file && !s.file.Valid?
    && forall p | 0 <= p < |s.procs| ::
         !InSection(s.procs[p])
         && (s.procs[p].Done? ==> s.procs[p].outcome in {Threw(LockBusy), Threw(LockFailed)})
  }

  lemma {:induction false} StaleLockBlocks(start: State, s: State, events: seq<Event>)
    requires Blocked(start, s)
    requires RemoveLock !in events
    ensures Blocked(start, Run(s, events))
    decreases |events|
  {
    if events != [] {
      var e := events[0];
      assert e in events;
      assert Blocked(start, Step(s, e)) by {
        if e.Call? && e.p < |s.procs| && Live(s.procs[e.p]) {
          var next := Step(s, e).procs[e.p];
          assert !InSection(next) && (next.Done? ==> next.outcome in {Threw(LockBusy), Threw(LockFailed)});
        }
      }
      StaleLockBlocks(start, Step(s, e), events[1..]);
    }
  }

  // An event that neither kills a process nor keeps the unlink from working.
  predicate Gentle(s: State, e: Event) {
    match e
    case Call(p, glitch, _) => p < |s.procs| && s.procs[p].Unlink? ==> !Breaks(glitch)
    case Stop(_) => false
    case RemoveLock => true
  }

  predicate GentleRun(s: State, events: seq<Event>)
    decreases |events|
  {
    events != [] ==> Gentle(s, events[0]) && GentleRun(Step(s, events[0]), events[1..])
  }

  /** Success or failure, the lock file goes away: if nobody is killed and unlinking works, a
      lock that exists belongs to a process that is still inside. */
  lemma {:induction false} LockIsReleased(start: KeyFile, s: State, events: seq<Event>)
    requires Invariant(start, s) && PermittedRun(s, events) && GentleRun(s, events)
    requires s.lock.HeldBy? ==> s.lock.owner < |s.procs| && InSection(s.procs[s.lock.owner])
    ensures var t := Run(s, events);
            t.lock.HeldBy? ==> t.lock.owner < |t.procs| && InSection(t.procs[t.lock.owner])
    decreases |events|
  {
    if events != [] {
      StepKeepsInvariant(start, s, events[0]);
      LockIsReleased(start, Step(s, events[0]), events[1..]);
    }
  }

  // ---------------------------------------------------------------- the shared directory

  /** The directory the processes share, updated in place call by call. */
  class KeyDirectory {
    var file: KeyFile
    var lock: Lock
    var procs: seq<Pc>
    var installed: seq<Key>

    ghost function View(): State
      reads this
    {
      State(file, lock, procs, installed)
    }

    constructor (file: KeyFile, stale: bool, n: nat)
      ensures Initial(View()) && |procs| == n
      ensures this.file == file && lock == if stale then Stale else Free
    {
      this.file := file;
      lock := if stale then Stale else Free;
      procs := seq(n, _ => ReadFirst);
      installed := [];
    }

    /** openSync with the exclusive flag. */
    method CreateLock(p: nat, glitch: Glitch) returns (reply: Reply)
      modifies this`lock
      ensures Breaks(glitch) ==> reply == Faulted(glitch.Transient?) && lock == old(lock)
      ensures !Breaks(glitch) ==>
                if old(lock) == Free then reply == Opened && lock == HeldBy(p)
                else reply == Exists && lock == old(lock)
    {
      if Breaks(glitch) {
        reply := Faulted(glitch.Transient?);
      } else if lock.Free? {
        lock := HeldBy(p);
        reply := Opened;
      } else {
        reply := Exists;
      }
    }

    /** One event, applied to the files and to the process it concerns. */
    method Apply(e: Event)
      modifies this
      ensures View() == Step(old(View()), e)
    {
      match e
      case Call(p, glitch, minted) =>
        if p < |procs| && Live(procs[p]) {
          var pc := procs[p];
          var reply;
          if pc.OpenLock? || pc.OpenLast? {
            reply := CreateLock(p, glitch);
          } else if pc.ReadFirst? || pc.ReadRival? || pc.ReadWinner? || pc.ReadLate? || pc.ReadLocked? {
            reply := Read(if glitch.Misread? then None else KeyOf(file));
          } else if Breaks(glitch) {
            reply := Faulted(glitch.Transient?);
          } else {
            reply := Succeeded;
            if pc.Rename? {
              file := Valid(pc.key);
              installed := installed + [pc.key];
            } else if pc.Unlink? {
              lock := Free;
            }
          }
          procs := procs[p := Advance(pc, reply, minted)];
        }
      case Stop(p) =>
        if p < |procs| && Live(procs[p]) {
          procs := procs[p := Stopped];
        }
      case RemoveLock =>
        lock := Free;
    }

    /** A whole interleaving. What it leaves in the directory never contradicts a returned key. */
    method Play(events: seq<Event>)
      requires Initial(View()) && PermittedRun(View(), events)
      modifies this
      ensures View() == Run(old(View()), events)
      ensures |installed| <= 1
      ensures forall p | 0 <= p < |procs| :: procs[p].Done? && procs[p].outcome.Returned? ==>
                file == Valid(procs[p].outcome.key)
    {
      ghost var start := View();
      assert Invariant(start.file, start);
      var i := 0;
      while i < |events|
        invariant i <= |events|
        invariant Run(start, events) == Run(View(), events[i..])
        invariant PermittedRun(View(), events[i..]) && Invariant(start.file, View())
      {
        assert events[i..][1..] == events[i + 1..];
        StepKeepsInvariant(start.file, View(), events[i]);
        Apply(events[i]);
        i := i + 1;
      }
      assert forall p | 0 <= p < |procs| ::
          procs[p].Done? && procs[p].outcome.Returned? ==> Settled(View().procs[p]).Some?;
    }
  }
}
