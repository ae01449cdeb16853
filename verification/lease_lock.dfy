/** The lease lock kept in a database row (internal/models/lock.go). Reading the row, checking the expiry
    against the clock, computing the new expiry and the compare-and-swap are separate steps; any number
    of clients interleave them. All read one clock, in seconds, that never goes back. */
module LeaseLock {
  import opened Options

  const TIMEOUT := 15

  // The columns the compare-and-swap compares, besides the id.
  datatype Row = Row(token: int, expireTime: int)

  const FREE := Row(0, 0)

  /** Where a client is. `mine` is the lock a guard remembers, `seen` the row a client has read or
      remembers, `next` what it is about to write. */
  datatype Client =
    | Idle
    | HasRead(seen: Row)                      // AcquireByName, before the check
    | MayAcquire(seen: Row)                   // the row had expired
    | Acquiring(seen: Row, next: Row)         // new token and expiry computed
    | Holding(mine: Row)                      // a guard
    | MayPing(mine: Row)                      // the guard had not expired
    | Updating(mine: Row, next: Row)          // new expiry computed, or releasing

  // Rows by lock id; clients by number, each with the id of the lock it is about.
  datatype State = State(now: int, rows: map<int, Row>, clients: map<int, (int, Client)>)

  datatype Step =
    | Tick(now: int)
    | Read(client: int, id: int)
    | Check(client: int)           // ErrLockAcquired or go on
    | Prepare(client: int, token: int)
    | Swap(client: int)            // AcquireByName's update
    | GuardCheck(client: int)      // Ping and Release: ErrLockReleased or go on
    | PreparePing(client: int)
    | PrepareRelease(client: int)
    | GuardSwap(client: int)
    | Forget(client: int)

  function At(s: State, c: int): Client {
    if c in s.clients then s.clients[c].1 else Idle
  }

  function Move(s: State, c: int, to: Client): State
    requires c in s.clients
  {
    s.(clients := s.clients[c := (s.clients[c].0, to)])
  }

  // LockGuard.Expired.
  predicate Expired(s: State, r: Row) {
    r.expireTime < s.now
  }

  ghost predicate Next(s: State, step: Step, s': State) {
    match step
    case Tick(now) => now >= s.now && s' == s.(now := now)
    case Read(c, id) =>
      id in s.rows && At(s, c).Idle? && s' == s.(clients := s.clients[c := (id, HasRead(s.rows[id]))])
    case Check(c) =>
      && At(s, c).HasRead?
      && s' == Move(s, c, if At(s, c).seen.expireTime >= s.now then Idle else MayAcquire(At(s, c).seen))
    case Prepare(c, token) =>
      && At(s, c).MayAcquire? && token >= 1
      && s' == Move(s, c, Acquiring(At(s, c).seen, Row(token, s.now + TIMEOUT)))
    case Swap(c) =>
      && At(s, c).Acquiring?
      && var id := s.clients[c].0;
      if id in s.rows && s.rows[id] == At(s, c).seen
      then s' == Move(s, c, Holding(At(s, c).next)).(rows := s.rows[id := At(s, c).next])
      else s' == Move(s, c, Idle)
    case GuardCheck(c) =>
      && At(s, c).Holding?
      && s' == if At(s, c).mine.expireTime < s.now then s else Move(s, c, MayPing(At(s, c).mine))
    case PreparePing(c) =>
      && At(s, c).MayPing?
      && s' == Move(s, c, Updating(At(s, c).mine, Row(At(s, c).mine.token, s.now + TIMEOUT)))
    case PrepareRelease(c) =>
      At(s, c).MayPing? && s' == Move(s, c, Updating(At(s, c).mine, FREE))
    case GuardSwap(c) =>
      && At(s, c).Updating?
      && var id := s.clients[c].0;
      if id in s.rows && s.rows[id] == At(s, c).mine
      then s' == Move(s, c, Holding(At(s, c).next)).(rows := s.rows[id := At(s, c).next])
      else s' == Move(s, c, Holding(At(s, c).mine))
    case Forget(c) =>
      c in s.clients && s' == s.(clients := s.clients - {c})
  }

  ghost predicate Initial(s: State) {
    s.now > 0 && s.clients == map[] && forall id :: id in s.rows ==> s.rows[id] == FREE
  }

  // ---- Mutual exclusion ----

  // The client has a guard, whatever it is doing with it.
  predicate HasGuard(s: State, c: int) {
    c in s.clients && (At(s, c).Holding? || At(s, c).MayPing? || At(s, c).Updating?)
  }

  function LockOf(s: State, c: int): Row
    requires HasGuard(s, c)
  {
    At(s, c).mine
  }

  /** The client has a guard on the lock that has not expired. */
  predicate Owns(s: State, c: int, id: int) {
    HasGuard(s, c) && s.clients[c].0 == id && !Expired(s, LockOf(s, c))
  }

  // An owner's lock is the row, and no other guard remembers the same lock.
  ghost predicate OwnerIsRow(s: State, c: int, id: int) {
    Owns(s, c, id) ==>
      && id in s.rows && s.rows[id] == LockOf(s, c)
      && forall d :: d != c && HasGuard(s, d) && s.clients[d].0 == id ==> LockOf(s, d) != LockOf(s, c)
  }

  // A client past its expiry check remembers a row that had expired, and still has.
  ghost predicate SawExpired(s: State, c: int) {
    At(s, c).MayAcquire? || At(s, c).Acquiring? ==> Expired(s, At(s, c).seen)
  }

  ghost predicate Inv(s: State) {
    && s.now > 0
    && (forall c, id :: OwnerIsRow(s, c, id))
    && (forall c :: SawExpired(s, c))
  }

  /** One step keeps the invariant. Tokens play no part: a new lock differs from every lock that is not
      expired because the row it replaces had expired. */
  lemma StepKeeps(s: State, step: Step, s': State)
    requires Inv(s) && Next(s, step, s')
    ensures Inv(s')
  {
    forall c
      ensures SawExpired(s', c)
    {
      assert SawExpired(s, c);
    }
    forall c, id
      ensures OwnerIsRow(s', c, id)
    {
      if Owns(s', c, id) {
        OwnerKept(s, step, s', c, id);
      }
    }
  }

  lemma OwnerKept(s: State, step: Step, s': State, c: int, id: int)
    requires Inv(s) && Next(s, step, s') && Owns(s', c, id)
    ensures OwnerIsRow(s', c, id)
  {
    assert OwnerIsRow(s, c, id) && SawExpired(s, c);
    match step
    case Swap(d) =>
      assert SawExpired(s, d);
      SwapKeeps(s, d, s', c, id);
    case GuardSwap(d) =>
      SwapKeeps(s, d, s', c, id);
    case Tick(_) =>
    case Read(_, _) =>
    case Check(_) =>
    case Prepare(_, _) =>
    case GuardCheck(_) =>
    case PreparePing(_) =>
    case PrepareRelease(_) =>
    case Forget(_) =>
  }

  // A swap of client d that succeeds takes the lock from nobody who owns it.
  lemma SwapKeeps(s: State, d: int, s': State, c: int, id: int)
    requires Inv(s) && (Next(s, Swap(d), s') || Next(s, GuardSwap(d), s')) && Owns(s', c, id)
    ensures OwnerIsRow(s', c, id)
  {
    assert OwnerIsRow(s, c, id) && SawExpired(s, d);
    forall e | e != c && HasGuard(s', e) && s'.clients[e].0 == id
      ensures LockOf(s', e) != LockOf(s', c)
    {
      assert OwnerIsRow(s, e, id);
    }
  }

  ghost predicate IsPath(run: seq<State>, steps: seq<Step>) {
    |run| == |steps| + 1 && forall i :: 0 <= i < |steps| ==> Next(run[i], steps[i], run[i + 1])
  }

  ghost predicate IsRun(run: seq<State>, steps: seq<Step>) {
    IsPath(run, steps) && Initial(run[0])
  }

  lemma {:induction false} RunKeeps(run: seq<State>, steps: seq<Step>, i: nat)
    requires IsRun(run, steps) && i < |run|
    ensures Inv(run[i])
  {
    if i > 0 {
      RunKeeps(run, steps, i - 1);
      StepKeeps(run[i - 1], steps[i - 1], run[i]);
    }
  }

  /** In every state of every run at most one client owns a lock. */
  lemma MutualExclusion(run: seq<State>, steps: seq<Step>, i: nat, c: int, d: int, id: int)
    requires IsRun(run, steps) && i < |run|
    requires Owns(run[i], c, id) && Owns(run[i], d, id)
    ensures c == d
  {
    RunKeeps(run, steps, i);
    assert OwnerIsRow(run[i], c, id) && OwnerIsRow(run[i], d, id);
  }

  /** While a client owns a lock, nobody else changes its row: an unexpired lock cannot be taken, and a
      guard that lost it cannot write any more. */
  lemma OwnerIsUndisturbed(run: seq<State>, steps: seq<Step>, i: nat, c: int, id: int)
    requires IsRun(run, steps) && i < |steps| && Owns(run[i], c, id)
    requires !(steps[i].GuardSwap? && steps[i].client == c)
    ensures id in run[i + 1].rows && run[i + 1].rows[id] == run[i].rows[id] == LockOf(run[i], c)
  {
    RunKeeps(run, steps, i);
    assert Next(run[i], steps[i], run[i + 1]);
    assert OwnerIsRow(run[i], c, id);
    if steps[i].Swap? {
      assert SawExpired(run[i], steps[i].client);
    }
  }

  /** The swap of a guard that owns the lock never fails: ErrLockReleased is only ever reported to a
    guard whose lease has run out. */
  lemma OwnerNeverLoses(run: seq<State>, steps: seq<Step>, i: nat, c: int, id: int)
    requires IsRun(run, steps) && i < |steps| && steps[i] == GuardSwap(c)
    requires At(run[i], c).Updating? && Owns(run[i], c, id)
    ensures At(run[i + 1], c) == Holding(At(run[i], c).next)
    ensures id in run[i + 1].rows && run[i + 1].rows[id] == At(run[i], c).next
  {
    RunKeeps(run, steps, i);
    assert Next(run[i], steps[i], run[i + 1]);
    assert OwnerIsRow(run[i], c, id);
  }

  // While the others move, a client stays where it is, and time goes on.
  lemma {:induction false} StaysPut(run: seq<State>, steps: seq<Step>, i: nat, j: nat, c: int)
    requires IsRun(run, steps) && i <= j < |run| && c in run[i].clients
    requires forall k :: i <= k < j ==> steps[k].Tick? || steps[k].client != c
    ensures c in run[j].clients && run[j].clients[c] == run[i].clients[c] && run[i].now <= run[j].now
    decreases j
  {
    if i < j {
      StaysPut(run, steps, i, j - 1, c);
      assert Next(run[j - 1], steps[j - 1], run[j]);
      OthersDoNotMove(run[j - 1], steps[j - 1], run[j], c);
    }
  }

  /** However the others interleave, a Release whose swap succeeds leaves a row that has expired, so that
      the next check lets a client in, and a guard that owns nothing. */
  lemma ReleaseFrees(run: seq<State>, steps: seq<Step>, i: nat, j: nat, c: int)
    requires IsRun(run, steps) && i < j < |steps| && steps[i] == PrepareRelease(c) && steps[j] == GuardSwap(c)
    requires forall k :: i < k < j ==> steps[k].Tick? || steps[k].client != c
    ensures c in run[j].clients && HasGuard(run[j], c)
    ensures var id, s := run[j].clients[c].0, run[j + 1];
            id in run[j].rows && run[j].rows[id] == LockOf(run[j], c) ==>
              id in s.rows && s.rows[id].expireTime < s.now && !Owns(s, c, id)
  {
    RunKeeps(run, steps, j);
    assert Next(run[i], steps[i], run[i + 1]) && Next(run[j], steps[j], run[j + 1]);
    StaysPut(run, steps, i + 1, j, c);
  }

  /** What a client remembers does not change by the steps of the others. */
  lemma OthersDoNotMove(s: State, step: Step, s': State, c: int)
    requires Next(s, step, s') && (step.Tick? || step.client != c)
    ensures c in s.clients <==> c in s'.clients
    ensures c in s.clients ==> s'.clients[c] == s.clients[c]
  {
  }

  // ---- The code: each call below is one step of its client, between any steps of the others ----

  class LockTable {
    var rows: map<int, Row>

    // GetByName.
    method Get(id: int, ghost s: State, ghost c: int) returns (row: Option<Row>, ghost s': State)
      requires s.rows == rows && At(s, c).Idle?
      ensures row.Some? <==> id in rows
      ensures row.Some? ==> row.value == rows[id] && Next(s, Read(c, id), s')
      ensures row.Some? ==> s'.rows == rows && s'.now == s.now && c in s'.clients && s'.clients[c] == (id, HasRead(row.value))
      ensures row.Some? ==> s'.clients == s.clients[c := s'.clients[c]]
      ensures row.None? ==> s' == s
    {
      if id !in rows {
        return None, s;
      }
      row := Some(rows[id]);
      s' := s.(clients := s.clients[c := (id, HasRead(rows[id]))]);
    }

    /** UPDATE ... WHERE id = ? AND token = ? AND expire_time = ?, and the number of rows it changed. */
    method UpdateWhere(id: int, expected: Row, next: Row) returns (affected: nat)
      modifies this
      ensures affected == (if id in old(rows) && old(rows)[id] == expected then 1 else 0)
      ensures rows == if affected == 1 then old(rows)[id := next] else old(rows)
    {
      affected := 0;
      if id in rows && rows[id] == expected {
        rows := rows[id := next];
        affected := 1;
      }
    }
  }

  class LockGuard {
    const store: LockTable
    const id: int
    var lock: Row

    /** The client with this guard is at `at`, and the table is that of the state. */
    ghost predicate Stands(s: State, c: int, at: Client)
      reads store
    {
      s.rows == store.rows && c in s.clients && s.clients[c] == (id, at)
    }

    constructor (store: LockTable, id: int, lock: Row)
      ensures this.store == store && this.id == id && this.lock == lock
    {
      this.store, this.id, this.lock := store, id, lock;
    }

    /** The expiry check of Ping and Release. */
    method Check(clock: int, ghost s: State, ghost c: int) returns (ok: bool, ghost s': State)
      requires Stands(s, c, Holding(lock)) && clock == s.now
      ensures ok <==> !Expired(s, lock)
      ensures Next(s, GuardCheck(c), s') && s'.now == clock
      ensures Stands(s', c, if ok then MayPing(lock) else Holding(lock)) && s'.clients == s.clients[c := s'.clients[c]]
    {
      ok := lock.expireTime >= clock;
      s' := if ok then Move(s, c, MayPing(lock)) else s;
    }

    // The new expiry of Ping.
    method PreparePing(clock: int, ghost s: State, ghost c: int) returns (next: Row, ghost s': State)
      requires Stands(s, c, MayPing(lock)) && clock == s.now
      ensures next == Row(lock.token, clock + 15)
      ensures Next(s, Step.PreparePing(c), s') && s'.now == clock && Stands(s', c, Updating(lock, next))
    {
      next := Row(lock.token, clock + TIMEOUT);
      s' := Move(s, c, Updating(lock, next));
    }

    method PrepareRelease(ghost s: State, ghost c: int) returns (next: Row, ghost s': State)
      requires Stands(s, c, MayPing(lock))
      ensures next == FREE
      ensures Next(s, Step.PrepareRelease(c), s') && s'.now == s.now && Stands(s', c, Updating(lock, next))
      ensures s'.clients == s.clients[c := s'.clients[c]]
    {
      next := FREE;
      s' := Move(s, c, Updating(lock, FREE));
    }

    /** The swap. The guard's lock follows the row, or nothing changes. For a client that is acquiring the
        lock it is the step that makes it a holder or sends it away. */
    method Update(next: Row, ghost s: State, ghost c: int) returns (ok: bool, ghost s': State)
      requires Stands(s, c, Updating(lock, next)) || Stands(s, c, Acquiring(lock, next))
      modifies this, store
      ensures ok <==> id in old(store.rows) && old(store.rows)[id] == old(lock)
      ensures ok ==> lock == next && store.rows == old(store.rows)[id := lock]
      ensures !ok ==> lock == old(lock) && store.rows == old(store.rows)
      ensures Next(s, if s.clients[c].1.Updating? then GuardSwap(c) else Swap(c), s') && s'.now == s.now
      ensures Stands(s', c, if ok || s.clients[c].1.Updating? then Holding(lock) else Idle)
      ensures s'.clients == s.clients[c := s'.clients[c]]
    {
      ghost var acquiring := s.clients[c].1.Acquiring?;
      var affected := store.UpdateWhere(id, lock, next);
      ok := affected == 1;
      if ok {
        lock := next;
      }
      s' := Move(s, c, if ok || !acquiring then Holding(lock) else Idle).(rows := store.rows);
    }

    /** Ping, when nobody interrupts it: `checked` is the clock at the expiry check, `computed` when the
        new expiry is computed. */
    method Ping(checked: int, computed: int, ghost s: State, ghost c: int)
      returns (ok: bool, ghost run: seq<State>, ghost steps: seq<Step>)
      requires Stands(s, c, Holding(lock)) && checked == s.now && checked <= computed
      modifies this, store
      ensures ok <==> old(lock).expireTime >= checked && id in old(store.rows) && old(store.rows)[id] == old(lock)
      ensures ok ==> lock == Row(old(lock).token, computed + 15) && store.rows == old(store.rows)[id := lock]
      ensures !ok ==> lock == old(lock) && store.rows == old(store.rows)
      ensures IsPath(run, steps) && run[0] == s && Stands(run[|steps|], c, Holding(lock))
      ensures steps == if old(lock).expireTime < checked then [GuardCheck(c)]
                       else [GuardCheck(c), Tick(computed), Step.PreparePing(c), GuardSwap(c)]
    {
      ghost var s1, s2, s3;
      ok, s1 := Check(checked, s, c);
      run, steps := [s, s1], [GuardCheck(c)];
      if !ok {
        return;
      }
      ghost var later := s1.(now := computed);
      var next;
      next, s2 := PreparePing(computed, later, c);
      ok, s3 := Update(next, s2, c);
      run, steps := [s, s1, later, s2, s3], [GuardCheck(c), Tick(computed), Step.PreparePing(c), GuardSwap(c)];
    }

    method Release(checked: int, ghost s: State, ghost c: int)
      returns (ok: bool, ghost run: seq<State>, ghost steps: seq<Step>)
      requires Stands(s, c, Holding(lock)) && checked == s.now
      modifies this, store
      ensures ok <==> old(lock).expireTime >= checked && id in old(store.rows) && old(store.rows)[id] == old(lock)
      ensures ok ==> lock == Row(0, 0) && store.rows == old(store.rows)[id := lock]
      ensures !ok ==> lock == old(lock) && store.rows == old(store.rows)
      ensures IsPath(run, steps) && run[0] == s && Stands(run[|steps|], c, Holding(lock))
      ensures steps == if old(lock).expireTime < checked then [GuardCheck(c)]
                       else [GuardCheck(c), Step.PrepareRelease(c), GuardSwap(c)]
      ensures ok && checked > 0 ==> store.rows[id].expireTime < checked && !Owns(run[|steps|], c, id)
      ensures run[|steps|].now == checked && run[|steps|].clients == s.clients[c := (id, Holding(lock))]
    {
      ghost var s1, s2, s3;
      ok, s1 := Check(checked, s, c);
      run, steps := [s, s1], [GuardCheck(c)];
      if !ok {
        return;
      }
      var next;
      next, s2 := PrepareRelease(s1, c);
      ok, s3 := Update(next, s2, c);
      run, steps := [s, s1, s2, s3], [GuardCheck(c), Step.PrepareRelease(c), GuardSwap(c)];
    }
  }

  // AcquireByName's check of the row it has read.
  method CheckFree(seen: Row, clock: int, ghost s: State, ghost c: int) returns (free: bool, ghost s': State)
    requires c in s.clients && At(s, c) == HasRead(seen) && clock == s.now
    ensures free <==> Expired(s, seen)
    ensures Next(s, Check(c), s') && s' == Move(s, c, if free then MayAcquire(seen) else Idle)
  {
    free := seen.expireTime < clock;
    s' := Move(s, c, if free then MayAcquire(seen) else Idle);
  }

  // AcquireByName's new token and expiry.
  method NewLock(random: nat, clock: int, ghost s: State, ghost c: int) returns (next: Row, ghost s': State)
    requires At(s, c).MayAcquire? && clock == s.now
    ensures next == Row(random + 1, clock + 15)
    ensures Next(s, Prepare(c, random + 1), s') && s' == Move(s, c, Acquiring(At(s, c).seen, next))
  {
    next := Row(random + 1, clock + TIMEOUT);
    s' := Move(s, c, Acquiring(At(s, c).seen, next));
  }

  /** AcquireByName from the row it has read, when nobody interrupts it. The row it has read may have
      changed since: then the swap fails. */
  method Acquire(
      store: LockTable, id: int, seen: Row, checked: int, random: nat, computed: int, ghost s: State, ghost c: int)
    returns (guard: LockGuard?, ghost run: seq<State>, ghost steps: seq<Step>)
    requires s.rows == store.rows && c in s.clients && s.clients[c] == (id, HasRead(seen))
    requires checked == s.now && checked <= computed
    modifies store
    ensures guard != null <==> seen.expireTime < checked && id in old(store.rows) && old(store.rows)[id] == seen
    ensures guard != null ==>
              fresh(guard) && guard.store == store && guard.id == id && guard.lock.token >= 1 &&
              guard.lock == Row(random + 1, computed + 15) && store.rows == old(store.rows)[id := guard.lock]
    ensures guard == null ==> store.rows == old(store.rows)
    ensures IsPath(run, steps) && run[0] == s
    ensures guard != null ==> guard.Stands(run[|steps|], c, Holding(guard.lock))
    ensures guard == null ==> At(run[|steps|], c).Idle? && run[|steps|].rows == store.rows
    ensures steps == if seen.expireTime >= checked then [Check(c)]
                     else [Check(c), Tick(computed), Prepare(c, random + 1), Swap(c)]
  {
    guard := null;
    ghost var s1, s2, s3;
    var ok, next;
    ok, s1 := CheckFree(seen, checked, s, c);
    run, steps := [s, s1], [Check(c)];
    if !ok {
      return;
    }
    ghost var later := s1.(now := computed);
    next, s2 := NewLock(random, computed, later, c);
    var candidate := new LockGuard(store, id, seen);
    ok, s3 := candidate.Update(next, s2, c);
    if ok {
      guard := candidate;
    }
    run, steps := [s, s1, later, s2, s3], [Check(c), Tick(computed), Prepare(c, random + 1), Swap(c)];
  }

  /** A lock that a guard has released can be taken at once: with nobody in between, the next client that
      asks for it gets it. */
  method TakeReleased(
      guard: LockGuard, checked: int, random: nat, computed: int, ghost s: State, ghost c: int, ghost d: int)
    returns (released: bool, next: LockGuard?)
    requires guard.Stands(s, c, Holding(guard.lock)) && c != d && At(s, d).Idle?
    requires checked == s.now && 0 < checked <= computed
    modifies guard, guard.store
    ensures released <==>
              && old(guard.lock).expireTime >= checked
              && guard.id in old(guard.store.rows) && old(guard.store.rows)[guard.id] == old(guard.lock)
    ensures released ==> next != null && fresh(next) && next.store == guard.store && next.id == guard.id
    ensures released ==> guard.id in guard.store.rows && guard.store.rows[guard.id] == next.lock
    ensures released ==> computed <= next.lock.expireTime
  {
    ghost var run, steps, t;
    released, run, steps := guard.Release(checked, s, c);
    next := null;
    if released {
      var row;
      row, t := guard.store.Get(guard.id, run[|steps|], d);
      next, run, steps := Acquire(guard.store, guard.id, row.value, checked, random, computed, t, d);
    }
  }
}
