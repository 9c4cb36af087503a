/** The file-id interner: double-checked locking over a shared two-way map, a wrapping 16-bit counter and a flag.
    Threads interleave at the granularity of single lock, map and atomic operations. */
module FileIds {
  import opened Wrappers

  type Path = string
  type ThreadId = nat

  const U16_MAX: nat := 0xFFFF

  // ---------------------------------------------------------------------------
  // The two-way map
  // ---------------------------------------------------------------------------

  datatype BiMap = BiMap(byPath: map<Path, nat>, byId: map<nat, Path>) {
    /** Inserting drops every pair that shares a side with the new one. */
    function Insert(id: nat, path: Path): BiMap {
      var paths := if id in byId then byPath - {byId[id]} else byPath;
      var ids := if path in byPath then byId - {byPath[path]} else byId;
      BiMap(paths[path := id], ids[id := path])
    }

    predicate Bijective() {
      && (forall p | p in byPath :: byPath[p] in byId && byId[byPath[p]] == p)
      && (forall i | i in byId :: byId[i] in byPath && byPath[byId[i]] == i)
    }

    /** The ids in use are exactly 1 to `n`. */
    ghost predicate Issued(n: nat) {
      Bijective() && |byId| == n && forall i :: i in byId <==> 1 <= i <= n
    }

    function Lookup(path: Path): Option<nat> {
      if path in byPath then Some(byPath[path]) else None
    }
  }

  // ---------------------------------------------------------------------------
  // What one call means
  // ---------------------------------------------------------------------------

  /** Interning as one indivisible operation: a known path keeps its id, a new one gets the next id while ids last. */
  function Intern(m: BiMap, path: Path): (BiMap, Option<nat>) {
    if path in m.byPath then (m, Some(m.byPath[path]))
    else if |m.byId| >= U16_MAX then (m, None)
    else (m.Insert(|m.byId| + 1, path), Some(|m.byId| + 1))
  }

  // ---------------------------------------------------------------------------
  // Threads
  // ---------------------------------------------------------------------------

  /** Where a thread is inside a call. */
  datatype Phase =
    | Idle
    | Called(path: Path)
    | Reading(path: Path)
    | Missed(path: Path)
    | Locked(path: Path)
    | Rechecked(path: Path)
    | Cleared(path: Path)
    | Fetched(path: Path, id: nat)
    | Inserted(path: Path, id: nat)
    | Returning(path: Path, result: Option<nat>)
    | Panicked
  {
    predicate HoldsWriteLock() {
      Locked? || Rechecked? || Cleared? || Fetched? || Inserted? || Returning?
    }
  }

  datatype Return = Return(path: Path, result: Option<nat>)

  datatype System = System(
    ids: BiMap,
    nextId: nat,
    exhausted: bool,
    readers: set<ThreadId>,
    writer: Option<ThreadId>,
    threads: seq<Phase>,
    history: seq<Return>)
  {
    function At(t: ThreadId, p: Phase): System
      requires t < |threads|
    {
      this.(threads := threads[t := p])
    }

    function Done(t: ThreadId, path: Path, result: Option<nat>): System
      requires t < |threads|
    {
      this.(threads := threads[t := Idle], history := history + [Return(path, result)])
    }
  }

  function Start(threads: nat): System {
    System(BiMap(map[], map[]), 1, false, {}, None, seq(threads, i => Idle), [])
  }

  /** One move of one thread. An idle thread starts a call for the given path; a thread that must wait does nothing. */
  datatype Move = Move(thread: ThreadId, path: Path)

  function Step(s: System, m: Move): System {
    var t := m.thread;
    if t >= |s.threads| then s
    else
      match s.threads[t]
      case Idle => s.At(t, Called(m.path))
      case Called(path) =>
        if s.writer.Some? then s else s.At(t, Reading(path)).(readers := s.readers + {t})
      case Reading(path) =>
        var unlocked := s.(readers := s.readers - {t});
        var found := s.ids.Lookup(path);
        if found.Some? then unlocked.Done(t, path, found) else unlocked.At(t, Missed(path))
      case Missed(path) =>
        if s.writer.Some? || s.readers != {} then s else s.At(t, Locked(path)).(writer := Some(t))
      case Locked(path) =>
        var found := s.ids.Lookup(path);
        s.At(t, if found.Some? then Returning(path, found) else Rechecked(path))
      case Rechecked(path) => s.At(t, if s.exhausted then Returning(path, None) else Cleared(path))
      case Cleared(path) =>
        s.At(t, Fetched(path, s.nextId)).(nextId := if s.nextId == U16_MAX then 0 else s.nextId + 1)
      case Fetched(path, id) =>
        if id == 0 then s.At(t, Panicked) else s.At(t, Inserted(path, id)).(ids := s.ids.Insert(id, path))
      case Inserted(path, id) =>
        s.At(t, Returning(path, Some(id))).(exhausted := s.exhausted || id == U16_MAX)
      case Returning(path, result) => s.(writer := None).Done(t, path, result)
      case Panicked => s
  }

  function Run(s: System, moves: seq<Move>): System {
    if moves == [] then s else Step(Run(s, moves[..|moves| - 1]), moves[|moves| - 1])
  }

  // ---------------------------------------------------------------------------
  // Invariant
  // ---------------------------------------------------------------------------

  /** The locks say who is inside: any number of readers or one writer. */
  predicate LocksAgree(s: System) {
    && (forall t | 0 <= t < |s.threads| :: t in s.readers <==> s.threads[t].Reading?)
    && (forall t | t in s.readers :: t < |s.threads|)
    && (forall t | 0 <= t < |s.threads| :: s.threads[t].HoldsWriteLock() <==> s.writer == Some(t))
    && (s.writer.Some? ==> s.writer.value < |s.threads| && s.readers == {})
  }

  /** What the writer has established so far about the counter, the flag and the map. */
  ghost predicate WriterKnows(s: System, phase: Phase) {
    var n := |s.ids.byId|;
    && n <= U16_MAX
    && s.ids.Issued(n)
    && (phase.Fetched? ==> phase.id == n + 1 <= U16_MAX && phase.path !in s.ids.byPath)
    && (phase.Inserted? ==> phase.id == n && s.ids.Lookup(phase.path) == Some(n))
    && (phase.Rechecked? ==> phase.path !in s.ids.byPath)
    && (phase.Cleared? ==> phase.path !in s.ids.byPath && n < U16_MAX)
    && (phase.Returning? ==> Answers(s.ids, phase.path, phase.result))
    && s.nextId == (if phase.Fetched? then n + 2 else n + 1) % (U16_MAX + 1)
    && s.exhausted == (n == U16_MAX && !phase.Inserted?)
  }

  /** A result that is right now and forever: the path's id, or none for a path left out of a full map. */
  predicate Answers(m: BiMap, path: Path, result: Option<nat>) {
    m.Lookup(path) == result && (result.None? ==> |m.byId| == U16_MAX)
  }

  predicate HistoryHolds(s: System) {
    forall i | 0 <= i < |s.history| :: Answers(s.ids, s.history[i].path, s.history[i].result)
  }

  function WriterPhase(s: System): Phase
    requires LocksAgree(s)
  {
    if s.writer.Some? then s.threads[s.writer.value] else Idle
  }

  ghost predicate Valid(s: System) {
    && LocksAgree(s)
    && WriterKnows(s, WriterPhase(s))
    && HistoryHolds(s)
    && forall t | 0 <= t < |s.threads| :: !s.threads[t].Panicked?
  }

  lemma {:induction false} InsertFresh(m: BiMap, path: Path)
    requires m.Issued(|m.byId|) && path !in m.byPath
    ensures var n := |m.byId|; var after := m.Insert(n + 1, path);
      && after.Issued(n + 1)
      && after.byPath == m.byPath[path := n + 1]
  {
  }

  lemma {:induction false} KnownId(m: BiMap, path: Path)
    requires m.Issued(|m.byId|) && path in m.byPath
    ensures 1 <= m.byPath[path] <= |m.byId|
  {
  }

  /** Extending a map that is not full breaks no earlier answer. */
  lemma {:induction false} AnswersSurvive(m: BiMap, path: Path, asked: Path, result: Option<nat>)
    requires m.Issued(|m.byId|) && |m.byId| < U16_MAX && path !in m.byPath
    requires Answers(m, asked, result)
    ensures Answers(m.Insert(|m.byId| + 1, path), asked, result)
  {
    InsertFresh(m, path);
  }

  /** A thread that stays on its side of both locks disturbs nobody. */
  lemma {:induction false} SameSideAgrees(s: System, t: ThreadId, phase: Phase, after: System)
    requires LocksAgree(s) && t < |s.threads|
    requires phase.Reading? == s.threads[t].Reading? && phase.HoldsWriteLock() == s.threads[t].HoldsWriteLock()
    requires after.threads == s.threads[t := phase] && after.readers == s.readers && after.writer == s.writer
    ensures LocksAgree(after)
  {
  }

  lemma {:induction false} LocksStayAgreed(s: System, m: Move)
    requires Valid(s)
    ensures LocksAgree(Step(s, m))
  {
    hide BiMap.Insert, BiMap.Issued, BiMap.Lookup, HistoryHolds;
    var t := m.thread;
    var after := Step(s, m);
    if t < |s.threads| && !s.threads[t].Idle? {
      if s.threads[t].HoldsWriteLock() && !s.threads[t].Returning? {
        assert WriterPhase(s) == s.threads[t];
        SameSideAgrees(s, t, after.threads[t], after);
      }
    }
  }

  lemma {:induction false} StepKeepsHistory(s: System, m: Move)
    requires Valid(s)
    ensures HistoryHolds(Step(s, m)) && |Step(s, m).threads| == |s.threads|
  {
    var t := m.thread;
    if t < |s.threads| && s.threads[t].Fetched? {
      forall i | 0 <= i < |s.history|
        ensures Answers(s.ids.Insert(|s.ids.byId| + 1, s.threads[t].path), s.history[i].path, s.history[i].result)
      {
        AnswersSurvive(s.ids, s.threads[t].path, s.history[i].path, s.history[i].result);
      }
    }
  }

  lemma {:induction false} StepKeepsKnowledge(s: System, m: Move)
    requires Valid(s) && LocksAgree(Step(s, m))
    ensures WriterKnows(Step(s, m), WriterPhase(Step(s, m)))
  {
    hide BiMap.Insert, BiMap.Bijective, HistoryHolds;
    var t := m.thread;
    if t < |s.threads| && s.threads[t].Fetched? {
      InsertFresh(s.ids, s.threads[t].path);
    }
  }

  /** Every move of every thread keeps the invariant; in particular the counter never hands out zero. */
  lemma {:induction false} StepKeepsValid(s: System, m: Move)
    requires Valid(s)
    ensures Valid(Step(s, m))
  {
    hide BiMap.Insert, BiMap.Issued, BiMap.Lookup, HistoryHolds;
    LocksStayAgreed(s, m);
    StepKeepsHistory(s, m);
    StepKeepsKnowledge(s, m);
  }

  lemma {:induction false} ReachableValid(threads: nat, moves: seq<Move>)
    ensures Valid(Run(Start(threads), moves))
  {
    hide Valid, Step;
    if moves == [] {
      assert Valid(Start(threads)) by { StartValid(threads); }
    } else {
      ReachableValid(threads, moves[..|moves| - 1]);
      StepKeepsValid(Run(Start(threads), moves[..|moves| - 1]), moves[|moves| - 1]);
    }
  }

  lemma {:induction false} StartValid(threads: nat)
    ensures Valid(Start(threads))
  {
  }

  // ---------------------------------------------------------------------------
  // What callers see
  // ---------------------------------------------------------------------------

  /** Under every interleaving of any number of threads: equal paths get equal answers and different paths different
      ids, whenever their calls returned; ids are 1 to n with n at most 65535; an id always looks up to its path; no
      answer is given only to a path left out of a full map, and then every call for that path gives none. */
  lemma {:induction false} EveryRunInterns(threads: nat, moves: seq<Move>)
    ensures var s := Run(Start(threads), moves);
      && (forall i, j | 0 <= i < |s.history| && 0 <= j < |s.history| ::
            s.history[i].path == s.history[j].path ==> s.history[i].result == s.history[j].result)
      && (forall i, j | 0 <= i < |s.history| && 0 <= j < |s.history| && s.history[i].result.Some? ::
            s.history[i].result == s.history[j].result ==> s.history[i].path == s.history[j].path)
      && (forall i | 0 <= i < |s.history| && s.history[i].result.Some? ::
            s.history[i].result.value in s.ids.byId && s.ids.byId[s.history[i].result.value] == s.history[i].path)
      && (forall i | 0 <= i < |s.history| && s.history[i].result.None? :: |s.ids.byId| == 65535)
      && s.ids.Issued(|s.ids.byId|) && |s.ids.byId| <= 65535
  {
    ReachableValid(threads, moves);
  }

  /** Mutual exclusion and the absence of panics, in every reachable state. */
  lemma {:induction false} OneWriter(threads: nat, moves: seq<Move>, t: ThreadId, u: ThreadId)
    requires t < threads && u < threads
    ensures var s := Run(Start(threads), moves);
      && |s.threads| == threads
      && !s.threads[t].Panicked?
      && (s.threads[t].HoldsWriteLock() && t != u ==> !s.threads[u].HoldsWriteLock() && !s.threads[u].Reading?)
  {
    ReachableValid(threads, moves);
    RunKeepsThreads(Start(threads), moves);
  }

  lemma {:induction false} RunKeepsThreads(s: System, moves: seq<Move>)
    ensures |Run(s, moves).threads| == |s.threads|
  {
    if moves != [] {
      RunKeepsThreads(s, moves[..|moves| - 1]);
    }
  }

  /** Every call takes effect in one move: the map changes only by interning the moving thread's path as one
      indivisible operation, and a call returns what that operation returns. */
  lemma {:induction false} StepIsAtomicIntern(s: System, m: Move)
    requires Valid(s)
    ensures var after := Step(s, m);
      && (after.ids != s.ids ==>
            && m.thread < |s.threads| && s.threads[m.thread].Fetched?
            && Intern(s.ids, s.threads[m.thread].path) == (after.ids, Some(s.threads[m.thread].id)))
      && (after.history != s.history ==>
            && |after.history| == |s.history| + 1
            && var last := after.history[|s.history|];
              Intern(s.ids, last.path) == (s.ids, last.result))
  {
  }

  /** A thread that can move on its own: its step is not a wait. */
  predicate CanMove(s: System, t: ThreadId) {
    && t < |s.threads|
    && match s.threads[t]
       case Called(_) => s.writer.None?
       case Missed(_) => s.writer.None? && s.readers == {}
       case Idle => false
       case Panicked => false
       case _ => true
  }

  /** No deadlock: while any call is in progress, some thread inside a call can move, and its move changes its phase. */
  lemma {:induction false} NoDeadlock(s: System, waiting: ThreadId) returns (t: ThreadId)
    requires Valid(s) && waiting < |s.threads| && !s.threads[waiting].Idle?
    ensures CanMove(s, t) && forall path :: Step(s, Move(t, path)).threads[t] != s.threads[t]
  {
    if s.writer.Some? {
      t := s.writer.value;
    } else if s.readers != {} {
      t :| t in s.readers;
    } else {
      t := waiting;
    }
  }

  // ---------------------------------------------------------------------------
  // Progress
  // ---------------------------------------------------------------------------

  /** How many moves at most separate a thread from the end of its call. */
  function Rank(p: Phase): nat {
    match p
    case Idle => 0
    case Panicked => 0
    case Returning(_, _) => 1
    case Inserted(_, _) => 2
    case Fetched(_, _) => 3
    case Cleared(_) => 4
    case Rechecked(_) => 5
    case Locked(_) => 6
    case Missed(_) => 7
    case Reading(_) => 8
    case Called(_) => 9
  }

  /** Under every interleaving, each move inside a call that is not a wait brings the call nearer to its end and leaves
      every other thread where it is; so no call takes more than nine such moves. */
  lemma {:induction false} MoveLowersRank(s: System, t: ThreadId, path: Path)
    requires Valid(s) && CanMove(s, t)
    ensures var after := Step(s, Move(t, path));
      && |after.threads| == |s.threads|
      && Rank(after.threads[t]) < Rank(s.threads[t])
      && forall u | 0 <= u < |s.threads| && u != t :: after.threads[u] == s.threads[u]
  {
    hide BiMap.Insert, BiMap.Lookup, Valid;
  }

  /** What the call a thread is in returns, and the map it leaves, when no other thread interferes from now on. */
  function Outcome(s: System, p: Phase): (BiMap, Option<nat>)
    requires !p.Idle? && !p.Panicked?
  {
    match p
    case Inserted(_, id) => (s.ids, Some(id))
    case Returning(_, result) => (s.ids, result)
    case _ => Intern(s.ids, p.path)
  }

  predicate OthersIdle(s: System, t: ThreadId) {
    forall u | 0 <= u < |s.threads| && u != t :: s.threads[u].Idle?
  }

  /** One move of a thread that is alone neither changes what its call will return nor lets anyone else in. */
  lemma {:induction false} MoveKeepsOutcome(s: System, t: ThreadId)
    requires Valid(s) && t < |s.threads| && !s.threads[t].Idle? && OthersIdle(s, t)
    ensures CanMove(s, t)
    ensures var after := Step(s, Move(t, s.threads[t].path));
      var outcome := Outcome(s, s.threads[t]);
      && t < |after.threads| && OthersIdle(after, t)
      && if after.threads[t].Idle?
         then after.ids == outcome.0 && after.history == s.history + [Return(s.threads[t].path, outcome.1)]
         else after.history == s.history && !after.threads[t].Panicked? && Outcome(after, after.threads[t]) == outcome
              && after.threads[t].path == s.threads[t].path
  {
    hide BiMap.Insert, BiMap.Bijective, HistoryHolds;
    if s.threads[t].Fetched? {
      InsertFresh(s.ids, s.threads[t].path);
    }
  }

  /** A call that no other thread interferes with ends within nine moves: it leaves the map of one indivisible interning
      and returns its answer. */
  lemma {:induction false} CallAloneEnds(s: System, t: ThreadId) returns (moves: seq<Move>)
    requires Valid(s) && t < |s.threads| && !s.threads[t].Idle? && OthersIdle(s, t)
    ensures |moves| <= Rank(s.threads[t]) && forall i | 0 <= i < |moves| :: moves[i].thread == t
    ensures var after := Run(s, moves);
      var outcome := Outcome(s, s.threads[t]);
      && t < |after.threads| && after.threads[t].Idle? && OthersIdle(after, t)
      && after.ids == outcome.0
      && after.history == s.history + [Return(s.threads[t].path, outcome.1)]
    decreases Rank(s.threads[t])
  {
    var m := Move(t, s.threads[t].path);
    hide Valid, Step, Outcome, OthersIdle;
    var next := Step(s, m);
    MoveKeepsOutcome(s, t);
    MoveLowersRank(s, t, m.path);
    StepKeepsValid(s, m);
    if next.threads[t].Idle? {
      moves := [m];
      assert moves[..0] == [];
    } else {
      var rest := CallAloneEnds(next, t);
      moves := [m] + rest;
      RunFirst(s, m, rest);
    }
  }

  /** For a fresh call: at most nine moves, the map of `Intern`, and its answer appended to the history. */
  lemma {:induction false} FreshCallInterns(s: System, t: ThreadId) returns (moves: seq<Move>)
    requires Valid(s) && t < |s.threads| && s.threads[t].Called? && OthersIdle(s, t)
    ensures |moves| <= 9
    ensures var after := Run(s, moves);
      var path := s.threads[t].path;
      var (ids, answer) := Intern(s.ids, path);
      t < |after.threads| && after.threads[t].Idle? && after.ids == ids && after.history == s.history + [Return(path, answer)]
  {
    hide Valid, Step, OthersIdle, Intern;
    moves := CallAloneEnds(s, t);
  }

  /** A call for a known path never takes the write lock: whenever no writer is inside it takes the read lock, beside any
      other readers, and with its next move it returns the id, wherever all other threads are. */
  lemma {:induction false} KnownPathOnlyReads(s: System, t: ThreadId, path: Path)
    requires Valid(s) && t < |s.threads| && path in s.ids.byPath
    ensures s.threads[t] == Called(path) && s.writer.None? ==>
            Step(s, Move(t, path)) == s.(threads := s.threads[t := Reading(path)], readers := s.readers + {t})
    ensures s.threads[t] == Reading(path) ==>
            Step(s, Move(t, path)) ==
            s.(threads := s.threads[t := Idle], readers := s.readers - {t},
               history := s.history + [Return(path, Some(s.ids.byPath[path]))])
  {
    hide Valid;
  }

  lemma {:induction false} RunFirst(s: System, m: Move, moves: seq<Move>)
    ensures Run(s, [m] + moves) == Run(Step(s, m), moves)
    decreases |moves|
  {
    hide Step;
    var all := [m] + moves;
    if moves == [] {
      assert all == [m] && all[..0] == [];
    } else {
      assert all[..|all| - 1] == [m] + moves[..|moves| - 1];
      RunFirst(s, m, moves[..|moves| - 1]);
    }
  }

  // ---------------------------------------------------------------------------
  // One thread
  // ---------------------------------------------------------------------------

  /** The store as the code sees it between its locks: a call that is not interrupted is exactly one interning. */
  class FileIdStore {
    var ids: BiMap
    var nextId: nat
    var exhausted: bool

    ghost predicate Consistent()
      reads this
    {
      var n := |ids.byId|;
      n <= U16_MAX && ids.Issued(n) && nextId == (n + 1) % (U16_MAX + 1) && exhausted == (n == U16_MAX)
    }

    constructor ()
      ensures Consistent() && ids == BiMap(map[], map[])
    {
      ids, nextId, exhausted := BiMap(map[], map[]), 1, false;
    }

    method GetOrCreate(path: Path) returns (r: Option<nat>)
      requires Consistent()
      modifies this
      ensures Consistent()
      ensures (ids, r) == Intern(old(ids), path)
      ensures r.Some? ==> 1 <= r.value <= U16_MAX
    {
      hide BiMap.Insert, BiMap.Bijective;
      var found := ids.Lookup(path);
      if found.Some? {
        KnownId(ids, path);
        return found;
      }
      if exhausted {
        return None;
      }
      var newId := nextId;
      nextId := if nextId == U16_MAX then 0 else nextId + 1;
      InsertFresh(ids, path);
      ids := ids.Insert(newId, path);
      if newId == U16_MAX {
        exhausted := true;
      }
      return Some(newId);
    }

    method LookupPath(id: nat) returns (r: Option<Path>)
      requires Consistent()
      ensures r.Some? <==> 1 <= id <= |ids.byId|
      ensures r.Some? ==> ids.Lookup(r.value) == Some(id)
    {
      return if id in ids.byId then Some(ids.byId[id]) else None;
    }
  }
}
