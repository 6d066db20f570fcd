/** The file-name lock manager (fio4emu/filelock.c) as a step relation.

    A session is one call of fio_lock_file or fio_trylock_file together with the
    fio_unlock_file that ends it. Any number of sessions run interleaved; a thread that
    holds several locks at once is several sessions. Between two steps of one session any
    other session may move. Semaphores are atomic counters here; module FioSem shows that
    the mutex and condition variable code behaves like that. */
module FileLock {
  import opened Counting
  import opened Lists
  import opened Options

  const MAX_FILELOCKS: nat := 1024

  type Slot = k: nat | k < MAX_FILELOCKS
  type Hash = h: nat | h < 0x1_0000_0000

  /** What the program counter of a session stands before. */
  datatype PC =
    | Idle
    | WantGlobal                        // down on the global lock
    | Lookup                            // fio_hash_find
    | GetSlot(retry: bool)              // take a slot off the free list
    | Dropped                           // global lock released, about to retake it
    | InHand(slot: Slot, retry: bool)   // re-check, then publish the slot
    | AddRef(slot: Slot)                // references++, release the global lock
    | TakeLock(slot: Slot)              // blocking down on the slot
    | TryLock(slot: Slot)               // non-blocking down on the slot
    | Raced(slot: Slot)                 // failed, wants the global lock again
    | RaceCheck(slot: Slot)             // references != 1 ?
    | Holding(slot: Slot)               // the lock call returned false
    | WantUnlock(slot: Slot)            // unlock: down on the global lock
    | UnlockFind(slot: Slot)            // unlock: fio_hash_find, references--
    | UnlockUp(slot: Slot, refs: int)   // unlock: up on the slot
    | UnlockPut(slot: Slot, refs: int)  // unlock: recycle if unreferenced, release global

  datatype Session = Session(hash: Hash, trylock: bool, pc: PC)
  datatype SlotState = SlotState(hash: Hash, references: int, value: int)

  type SlotTable = t: seq<SlotState> | |t| == MAX_FILELOCKS
    witness seq(MAX_FILELOCKS, i => SlotState(0, 0, 1))

  datatype State = State(
    global: int,
    active: seq<Slot>,
    free: seq<Slot>,
    slots: SlotTable,
    sessions: map<nat, Session>)

  // ----- operations on the state -----

  function Go(s: State, t: nat, pc: PC): State
    requires t in s.sessions
  {
    s.(sessions := s.sessions[t := s.sessions[t].(pc := pc)])
  }

  function SetSlot(s: State, k: Slot, x: SlotState): State {
    s.(slots := s.slots[k := x])
  }

  function Release(s: State): State {
    s.(global := s.global + 1)
  }

  /** fio_hash_find: the first active slot carrying the hash. */
  function Find(active: seq<Slot>, slots: SlotTable, h: Hash): (r: Option<Slot>)
    ensures r.Some? ==> r.value in active && slots[r.value].hash == h
    ensures r.None? ==> forall k :: k in active ==> slots[k].hash != h
  {
    if active == [] then None
    else if slots[active[0]].hash == h then Some(active[0])
    else Find(active[1..], slots, h)
  }

  predicate Acquiring(p: PC) {
    p.WantGlobal? || p.Lookup? || p.GetSlot? || p.Dropped?
  }

  predicate Taking(p: PC) {
    p.AddRef? || p.TakeLock? || p.TryLock? || p.Raced? || p.RaceCheck?
  }

  predicate Ending(p: PC) {
    !Acquiring(p) && !p.InHand? && !Taking(p)
  }

  /** fio_hash_get under the global lock, up to the point where a slot is chosen. */
  function AcquireStep(s: State, t: nat): Option<State>
    requires t in s.sessions && Acquiring(s.sessions[t].pc)
  {
    var me := s.sessions[t];
    match me.pc
    case WantGlobal =>
      if s.global <= 0 then None else Some(Go(s.(global := s.global - 1), t, Lookup))
    case Lookup =>
      (match Find(s.active, s.slots, me.hash)
       case Some(k) => Some(Go(s, t, AddRef(k)))
       case None => Some(Go(s, t, GetSlot(false))))
    case GetSlot(retry) =>
      if s.free != [] then Some(Go(s.(free := s.free[1..]), t, InHand(s.free[0], retry)))
      else if me.trylock then Some(Go(Release(s), t, Idle))
      else Some(Go(Release(s), t, Dropped))
    case Dropped =>
      if s.global <= 0 then None else Some(Go(s.(global := s.global - 1), t, GetSlot(true)))
  }

  /** The slot in hand is put back if the hash turned up meanwhile, else published. */
  function PublishStep(s: State, t: nat): (r: State)
    requires t in s.sessions && s.sessions[t].pc.InHand?
  {
    var me := s.sessions[t];
    var k := me.pc.slot;
    var found := if me.pc.retry then Find(s.active, s.slots, me.hash) else None;
    match found
    case Some(other) => Go(s.(free := [k] + s.free), t, AddRef(other))
    case None =>
      Go(SetSlot(s, k, s.slots[k].(hash := me.hash, references := 0)).(active := [k] + s.active), t, AddRef(k))
  }

  /** The rest of __fio_lock_file: reference the slot, then take its semaphore. */
  function TakeStep(s: State, t: nat): Option<State>
    requires t in s.sessions && Taking(s.sessions[t].pc)
  {
    var me := s.sessions[t];
    match me.pc
    case AddRef(k) =>
      Some(Go(Release(SetSlot(s, k, s.slots[k].(references := s.slots[k].references + 1))),
              t, if me.trylock then TryLock(k) else TakeLock(k)))
    case TakeLock(k) =>
      if s.slots[k].value <= 0 then None
      else Some(Go(SetSlot(s, k, s.slots[k].(value := s.slots[k].value - 1)), t, Holding(k)))
    case TryLock(k) =>
      if s.slots[k].value <= 0 then Some(Go(s, t, Raced(k)))
      else Some(Go(SetSlot(s, k, s.slots[k].(value := s.slots[k].value - 1)), t, Holding(k)))
    case Raced(k) =>
      if s.global <= 0 then None else Some(Go(s.(global := s.global - 1), t, RaceCheck(k)))
    case RaceCheck(k) =>
      if s.slots[k].references != 1
      then Some(Go(Release(SetSlot(s, k, s.slots[k].(references := s.slots[k].references - 1))), t, Idle))
      else Some(Go(Release(s), t, TakeLock(k)))
  }

  /** fio_unlock_file. */
  function UnlockStep(s: State, t: nat): Option<State>
    requires t in s.sessions && Ending(s.sessions[t].pc)
  {
    var me := s.sessions[t];
    match me.pc
    case Idle => None
    case Holding(k) => Some(Go(s, t, WantUnlock(k)))
    case WantUnlock(k) =>
      if s.global <= 0 then None else Some(Go(s.(global := s.global - 1), t, UnlockFind(k)))
    case UnlockFind(_) =>
      (match Find(s.active, s.slots, me.hash)
       case None => Some(Go(Release(s), t, Idle))  // "file not found for unlocking"
       case Some(k) =>
         var refs := s.slots[k].references - 1;
         Some(Go(SetSlot(s, k, s.slots[k].(references := refs)), t, UnlockUp(k, refs))))
    case UnlockUp(k, refs) =>
      Some(Go(SetSlot(s, k, s.slots[k].(value := s.slots[k].value + 1)), t, UnlockPut(k, refs)))
    case UnlockPut(k, refs) =>
      if refs == 0
      then Some(Go(Release(s.(active := Without(s.active, k), free := [k] + s.free)), t, Idle))
      else Some(Go(Release(s), t, Idle))
  }

  /** One step of session `t`; None when the session cannot move by itself. */
  function Advance(s: State, t: nat): Option<State>
    requires t in s.sessions
  {
    var pc := s.sessions[t].pc;
    if Acquiring(pc) then AcquireStep(s, t)
    else if pc.InHand? then Some(PublishStep(s, t))
    else if Taking(pc) then TakeStep(s, t)
    else UnlockStep(s, t)
  }

  /** fio_filelock_init: every slot on the free list, all semaphores unlocked. */
  ghost predicate Init(s: State) {
    && s.global == 1
    && s.active == []
    && s.free == seq(MAX_FILELOCKS, i requires 0 <= i < MAX_FILELOCKS => i)
    && s.slots == seq(MAX_FILELOCKS, i => SlotState(0, 0, 1))
    && s.sessions == map[]
  }

  /** A caller enters fio_lock_file or fio_trylock_file. */
  ghost predicate Begins(s: State, s': State, t: nat, h: Hash, trylock: bool) {
    && (t in s.sessions ==> s.sessions[t].pc == Idle)
    && s' == s.(sessions := s.sessions[t := Session(h, trylock, WantGlobal)])
  }

  ghost predicate Next(s: State, s': State) {
    || (exists t, h, trylock :: Begins(s, s', t, h, trylock))
    || (exists t :: t in s.sessions && Advance(s, t) == Some(s'))
  }

  ghost predicate IsRun(run: seq<State>) {
    && run != []
    && Init(run[0])
    && forall i :: 0 <= i < |run| - 1 ==> Next(run[i], run[i+1])
  }

  // ----- what a program counter stands for -----

  predicate InCritical(p: PC) {
    p.Lookup? || p.GetSlot? || p.InHand? || p.AddRef? || p.RaceCheck? || p.UnlockFind? || p.UnlockUp? || p.UnlockPut?
  }

  /** Holders and waiters of slot `k`: the sessions its reference count stands for. */
  predicate Refers(p: PC, k: Slot) {
    (p.TakeLock? || p.TryLock? || p.Raced? || p.RaceCheck? || p.Holding? || p.WantUnlock? || p.UnlockFind?)
    && p.slot == k
  }

  /** The session has taken the slot's semaphore and not yet given it back. */
  predicate Owns(p: PC, k: Slot) {
    (p.Holding? || p.WantUnlock? || p.UnlockFind? || p.UnlockUp?) && p.slot == k
  }

  /** An active slot the critical section is about to reference or to recycle. */
  predicate Pending(p: PC, k: Slot) {
    p == AddRef(k) || p == UnlockUp(k, 0) || p == UnlockPut(k, 0)
  }

  ghost function Critical(): Session -> bool {
    (x: Session) => InCritical(x.pc)
  }
  ghost function RefersTo(k: Slot): Session -> bool {
    (x: Session) => Refers(x.pc, k)
  }
  ghost function OwnerOf(k: Slot): Session -> bool {
    (x: Session) => Owns(x.pc, k)
  }
  ghost function HandOf(k: Slot): Session -> bool {
    (x: Session) => x.pc.InHand? && x.pc.slot == k
  }
  ghost function PendingOn(k: Slot): Session -> bool {
    (x: Session) => Pending(x.pc, k)
  }

  // ----- the invariant -----

  ghost predicate GlobalInv(s: State) {
    s.global >= 0 && s.global + Count(s.sessions, Critical()) == 1
  }

  ghost predicate SlotInv(s: State, k: Slot) {
    && s.slots[k].value >= 0
    && s.slots[k].value + Count(s.sessions, OwnerOf(k)) == 1
    && One(k in s.active) + One(k in s.free) + Count(s.sessions, HandOf(k)) == 1
    && (if k in s.active then s.slots[k].references else 0) == Count(s.sessions, RefersTo(k))
    && (k in s.active ==> s.slots[k].references + Count(s.sessions, PendingOn(k)) >= 1)
  }

  ghost predicate ListInv(s: State) {
    && NoDup(s.active) && NoDup(s.free)
    && (forall k, l :: k in s.active && l in s.active && s.slots[k].hash == s.slots[l].hash ==> k == l)
  }

  ghost predicate Absent(s: State, h: Hash) {
    forall k :: k in s.active ==> s.slots[k].hash != h
  }

  /** What a session knows about the slot it works on. */
  ghost predicate SessionInv(s: State, t: nat)
    requires t in s.sessions
  {
    var me := s.sessions[t];
    match me.pc
    case GetSlot(retry) => !retry ==> Absent(s, me.hash)
    case InHand(_, retry) => !retry ==> Absent(s, me.hash)
    case UnlockUp(k, refs) => k in s.active && s.slots[k].references == refs && s.slots[k].hash == me.hash
    case UnlockPut(k, refs) => k in s.active && s.slots[k].references == refs
    case Idle => true
    case WantGlobal => true
    case Lookup => true
    case Dropped => true
    case _ => me.pc.slot in s.active && s.slots[me.pc.slot].hash == me.hash
  }

  ghost predicate Inv(s: State) {
    && GlobalInv(s)
    && ListInv(s)
    && (forall k: Slot :: SlotInv(s, k))
    && (forall t :: t in s.sessions ==> SessionInv(s, t))
  }

  // ----- every step keeps the invariant -----

  lemma InitInv(s: State)
    requires Init(s)
    ensures Inv(s)
  {
    forall k: Slot ensures SlotInv(s, k) {
      assert s.free[k] == k;
      CountZero(s.sessions, OwnerOf(k));
      CountZero(s.sessions, HandOf(k));
      CountZero(s.sessions, RefersTo(k));
    }
    CountZero(s.sessions, Critical());
  }

  lemma BeginKeepsInv(s: State, s': State, t: nat, h: Hash, trylock: bool)
    requires Inv(s) && Begins(s, s', t, h, trylock)
    ensures Inv(s')
  {
    var x := Session(h, trylock, WantGlobal);
    CountUpdate(s.sessions, t, x, Critical());
    forall k: Slot ensures SlotInv(s', k) {
      assert SlotInv(s, k);
      SlotCounts(s, t, x, k);
    }
    forall u | u in s'.sessions ensures SessionInv(s', u) {
      if u != t { assert SessionInv(s, u); }
    }
  }

  lemma SlotCounts(s: State, t: nat, x: Session, k: Slot)
    ensures Count(s.sessions[t := x], OwnerOf(k))
         == Count(s.sessions, OwnerOf(k)) - One(t in s.sessions && Owns(s.sessions[t].pc, k)) + One(Owns(x.pc, k))
    ensures Count(s.sessions[t := x], HandOf(k))
         == Count(s.sessions, HandOf(k)) - One(t in s.sessions && HandOf(k)(s.sessions[t])) + One(HandOf(k)(x))
    ensures Count(s.sessions[t := x], RefersTo(k))
         == Count(s.sessions, RefersTo(k)) - One(t in s.sessions && Refers(s.sessions[t].pc, k)) + One(Refers(x.pc, k))
    ensures Count(s.sessions[t := x], PendingOn(k))
         == Count(s.sessions, PendingOn(k)) - One(t in s.sessions && Pending(s.sessions[t].pc, k)) + One(Pending(x.pc, k))
  {
    CountUpdate(s.sessions, t, x, OwnerOf(k));
    CountUpdate(s.sessions, t, x, HandOf(k));
    CountUpdate(s.sessions, t, x, RefersTo(k));
    CountUpdate(s.sessions, t, x, PendingOn(k));
  }

  /** fio_hash_find in fio_unlock_file returns the very slot the session has locked. */
  lemma UnlockFindsOwnSlot(s: State, t: nat)
    requires t in s.sessions && s.sessions[t].pc.UnlockFind? && ListInv(s) && SessionInv(s, t)
    ensures Find(s.active, s.slots, s.sessions[t].hash) == Some(s.sessions[t].pc.slot)
  {}

  lemma OnlyOneCritical(s: State, t: nat, u: nat)
    requires GlobalInv(s) && t in s.sessions && u in s.sessions
    requires InCritical(s.sessions[t].pc) && InCritical(s.sessions[u].pc)
    ensures t == u
  {
    CountPositive(s.sessions, t, Critical());
    CountUnique(s.sessions, t, u, Critical());
  }

  /** A slot in hand is on neither list. */
  lemma InHandIsNowhere(s: State, t: nat)
    requires t in s.sessions && s.sessions[t].pc.InHand? && SlotInv(s, s.sessions[t].pc.slot)
    ensures s.sessions[t].pc.slot !in s.active && s.sessions[t].pc.slot !in s.free
  {
    CountPositive(s.sessions, t, HandOf(s.sessions[t].pc.slot));
  }

  /** A referenced slot's count is positive. */
  lemma ReferencedIsCounted(s: State, t: nat, k: Slot)
    requires t in s.sessions && Refers(s.sessions[t].pc, k) && SlotInv(s, k)
    ensures k in s.active && s.slots[k].references >= 1
  {
    CountPositive(s.sessions, t, RefersTo(k));
  }

  lemma AcquireKeepsGlobal(s: State, s': State, t: nat)
    requires t in s.sessions && Acquiring(s.sessions[t].pc) && AcquireStep(s, t) == Some(s')
    requires GlobalInv(s)
    ensures GlobalInv(s')
  {
    CountUpdate(s.sessions, t, s'.sessions[t], Critical());
  }

  lemma GetSlotKeepsSlot(s: State, s': State, t: nat, k: Slot)
    requires t in s.sessions && s.sessions[t].pc.GetSlot? && AcquireStep(s, t) == Some(s')
    requires NoDup(s.free) && SlotInv(s, k)
    ensures SlotInv(s', k)
  {
    SlotCounts(s, t, s'.sessions[t], k);
    assert s.free != [] ==> (k in s.free <==> k == s.free[0] || k in s.free[1..]);
  }

  lemma LookupKeepsSlot(s: State, s': State, t: nat, k: Slot)
    requires t in s.sessions && s.sessions[t].pc.Lookup? && AcquireStep(s, t) == Some(s')
    requires SlotInv(s, k)
    ensures SlotInv(s', k)
  {
    SlotCounts(s, t, s'.sessions[t], k);
  }

  lemma AcquireKeepsSlot(s: State, s': State, t: nat, k: Slot)
    requires t in s.sessions && Acquiring(s.sessions[t].pc) && AcquireStep(s, t) == Some(s')
    requires NoDup(s.free) && SlotInv(s, k)
    ensures SlotInv(s', k)
  {
    if s.sessions[t].pc.GetSlot? {
      GetSlotKeepsSlot(s, s', t, k);
    } else if s.sessions[t].pc.Lookup? {
      LookupKeepsSlot(s, s', t, k);
    } else {
      SlotCounts(s, t, s'.sessions[t], k);
    }
  }

  lemma AcquireKeepsLists(s: State, s': State, t: nat)
    requires t in s.sessions && Acquiring(s.sessions[t].pc) && AcquireStep(s, t) == Some(s')
    requires SessionInv(s, t) && ListInv(s) && (forall k: Slot :: SlotInv(s, k))
    ensures ListInv(s')
  {
  }

  lemma AcquireKeepsSession(s: State, s': State, t: nat, u: nat)
    requires t in s.sessions && Acquiring(s.sessions[t].pc) && AcquireStep(s, t) == Some(s')
    requires u in s.sessions && SessionInv(s, t) && SessionInv(s, u) && GlobalInv(s) && ListInv(s)
    requires forall k: Slot :: SlotInv(s, k)
    ensures SessionInv(s', u)
  {
    if u != t && InCritical(s.sessions[t].pc) && InCritical(s.sessions[u].pc) {
      OnlyOneCritical(s, t, u);
    }
  }

  lemma PublishKeepsGlobal(s: State, s': State, t: nat)
    requires t in s.sessions && s.sessions[t].pc.InHand? && PublishStep(s, t) == s'
    requires GlobalInv(s)
    ensures GlobalInv(s')
  {
    CountUpdate(s.sessions, t, s'.sessions[t], Critical());
  }

  lemma PublishKeepsSlot(s: State, s': State, t: nat, k: Slot)
    requires t in s.sessions && s.sessions[t].pc.InHand? && PublishStep(s, t) == s'
    requires SessionInv(s, t) && SlotInv(s, k)
    ensures SlotInv(s', k)
  {
    SlotCounts(s, t, s'.sessions[t], k);
  }

  lemma PublishKeepsLists(s: State, s': State, t: nat)
    requires t in s.sessions && s.sessions[t].pc.InHand? && PublishStep(s, t) == s'
    requires SessionInv(s, t) && ListInv(s) && (forall k: Slot :: SlotInv(s, k))
    ensures ListInv(s')
  {
    InHandIsNowhere(s, t);
  }

  lemma PublishKeepsSession(s: State, s': State, t: nat, u: nat)
    requires t in s.sessions && s.sessions[t].pc.InHand? && PublishStep(s, t) == s'
    requires u in s.sessions && SessionInv(s, t) && SessionInv(s, u) && GlobalInv(s) && ListInv(s)
    requires forall k: Slot :: SlotInv(s, k)
    ensures SessionInv(s', u)
  {
    InHandIsNowhere(s, t);
    if u != t && InCritical(s.sessions[t].pc) && InCritical(s.sessions[u].pc) {
      OnlyOneCritical(s, t, u);
    }
  }

  lemma TakeKeepsGlobal(s: State, s': State, t: nat)
    requires t in s.sessions && Taking(s.sessions[t].pc) && TakeStep(s, t) == Some(s')
    requires GlobalInv(s)
    ensures GlobalInv(s')
  {
    CountUpdate(s.sessions, t, s'.sessions[t], Critical());
  }

  lemma AddRefKeepsSlot(s: State, s': State, t: nat, k: Slot)
    requires t in s.sessions && s.sessions[t].pc.AddRef? && TakeStep(s, t) == Some(s')
    requires SessionInv(s, t) && SlotInv(s, k)
    ensures SlotInv(s', k)
  {
    SlotCounts(s, t, s'.sessions[t], k);
  }

  lemma TakeLockKeepsSlot(s: State, s': State, t: nat, k: Slot)
    requires t in s.sessions && (s.sessions[t].pc.TakeLock? || s.sessions[t].pc.TryLock?) && TakeStep(s, t) == Some(s')
    requires SessionInv(s, t) && SlotInv(s, k)
    ensures SlotInv(s', k)
  {
    SlotCounts(s, t, s'.sessions[t], k);
  }

  lemma RaceKeepsSlot(s: State, s': State, t: nat, k: Slot)
    requires t in s.sessions && (s.sessions[t].pc.Raced? || s.sessions[t].pc.RaceCheck?) && TakeStep(s, t) == Some(s')
    requires SessionInv(s, t) && SlotInv(s, k)
    ensures SlotInv(s', k)
  {
    SlotCounts(s, t, s'.sessions[t], k);
  }

  lemma TakeKeepsSlot(s: State, s': State, t: nat, k: Slot)
    requires t in s.sessions && Taking(s.sessions[t].pc) && TakeStep(s, t) == Some(s')
    requires SessionInv(s, t) && SlotInv(s, k)
    ensures SlotInv(s', k)
  {
    var p := s.sessions[t].pc;
    if p.AddRef? {
      AddRefKeepsSlot(s, s', t, k);
    } else if p.TakeLock? || p.TryLock? {
      TakeLockKeepsSlot(s, s', t, k);
    } else {
      RaceKeepsSlot(s, s', t, k);
    }
  }

  lemma TakeKeepsLists(s: State, s': State, t: nat)
    requires t in s.sessions && Taking(s.sessions[t].pc) && TakeStep(s, t) == Some(s')
    requires SessionInv(s, t) && ListInv(s) && (forall k: Slot :: SlotInv(s, k))
    ensures ListInv(s')
  {
  }

  lemma TakeKeepsSession(s: State, s': State, t: nat, u: nat)
    requires t in s.sessions && Taking(s.sessions[t].pc) && TakeStep(s, t) == Some(s')
    requires u in s.sessions && SessionInv(s, t) && SessionInv(s, u) && GlobalInv(s) && ListInv(s)
    requires forall k: Slot :: SlotInv(s, k)
    ensures SessionInv(s', u)
  {
    if u != t && InCritical(s.sessions[t].pc) && InCritical(s.sessions[u].pc) {
      OnlyOneCritical(s, t, u);
    }
  }

  lemma UnlockKeepsGlobal(s: State, s': State, t: nat)
    requires t in s.sessions && Ending(s.sessions[t].pc) && UnlockStep(s, t) == Some(s')
    requires GlobalInv(s)
    ensures GlobalInv(s')
  {
    CountUpdate(s.sessions, t, s'.sessions[t], Critical());
  }

  lemma UnlockFindKeepsSlot(s: State, s': State, t: nat, k: Slot)
    requires t in s.sessions && s.sessions[t].pc.UnlockFind? && UnlockStep(s, t) == Some(s')
    requires SessionInv(s, t) && ListInv(s) && SlotInv(s, k)
    ensures SlotInv(s', k)
  {
    SlotCounts(s, t, s'.sessions[t], k);
  }

  lemma UnlockUpKeepsSlot(s: State, s': State, t: nat, k: Slot)
    requires t in s.sessions && s.sessions[t].pc.UnlockUp? && UnlockStep(s, t) == Some(s')
    requires SessionInv(s, t) && ListInv(s) && SlotInv(s, k)
    ensures SlotInv(s', k)
  {
    SlotCounts(s, t, s'.sessions[t], k);
  }

  lemma UnlockPutKeepsSlot(s: State, s': State, t: nat, k: Slot)
    requires t in s.sessions && s.sessions[t].pc.UnlockPut? && UnlockStep(s, t) == Some(s')
    requires SessionInv(s, t) && ListInv(s) && SlotInv(s, k)
    ensures SlotInv(s', k)
  {
    SlotCounts(s, t, s'.sessions[t], k);
  }

  lemma UnlockingKeepsSlot(s: State, s': State, t: nat, k: Slot)
    requires t in s.sessions && Ending(s.sessions[t].pc) && UnlockStep(s, t) == Some(s')
    requires var pc := s.sessions[t].pc; !pc.UnlockFind? && !pc.UnlockUp? && !pc.UnlockPut?
    requires SessionInv(s, t) && ListInv(s) && SlotInv(s, k)
    ensures SlotInv(s', k)
  {
    SlotCounts(s, t, s'.sessions[t], k);
  }

  lemma UnlockKeepsSlot(s: State, s': State, t: nat, k: Slot)
    requires t in s.sessions && Ending(s.sessions[t].pc) && UnlockStep(s, t) == Some(s')
    requires SessionInv(s, t) && ListInv(s) && SlotInv(s, k)
    ensures SlotInv(s', k)
  {
    var p := s.sessions[t].pc;
    if p.UnlockFind? {
      UnlockFindKeepsSlot(s, s', t, k);
    } else if p.UnlockUp? {
      UnlockUpKeepsSlot(s, s', t, k);
    } else if p.UnlockPut? {
      UnlockPutKeepsSlot(s, s', t, k);
    } else {
      UnlockingKeepsSlot(s, s', t, k);
    }
  }

  lemma UnlockKeepsLists(s: State, s': State, t: nat)
    requires t in s.sessions && Ending(s.sessions[t].pc) && UnlockStep(s, t) == Some(s')
    requires SessionInv(s, t) && ListInv(s) && (forall k: Slot :: SlotInv(s, k))
    ensures ListInv(s')
  {
    if s.sessions[t].pc.UnlockPut? {
      var k := s.sessions[t].pc.slot;
      assert SlotInv(s, k);
      WithoutNoDup(s.active, k);
    }
  }

  lemma UnlockKeepsSession(s: State, s': State, t: nat, u: nat)
    requires t in s.sessions && Ending(s.sessions[t].pc) && UnlockStep(s, t) == Some(s')
    requires u in s.sessions && SessionInv(s, t) && SessionInv(s, u) && GlobalInv(s) && ListInv(s)
    requires forall k: Slot :: SlotInv(s, k)
    ensures SessionInv(s', u)
  {
    if u != t && InCritical(s.sessions[t].pc) && InCritical(s.sessions[u].pc) {
      OnlyOneCritical(s, t, u);
    }
    if u != t && s.sessions[t].pc.UnlockPut? && Refers(s.sessions[u].pc, s.sessions[t].pc.slot) {
      ReferencedIsCounted(s, u, s.sessions[t].pc.slot);
    }
  }

  lemma AcquireKeepsInv(s: State, s': State, t: nat)
    requires Inv(s) && t in s.sessions && Acquiring(s.sessions[t].pc) && AcquireStep(s, t) == Some(s')
    ensures Inv(s')
  {
    assert SessionInv(s, t) && s'.sessions.Keys == s.sessions.Keys;
    AcquireKeepsGlobal(s, s', t);
    AcquireKeepsLists(s, s', t);
    forall k: Slot ensures SlotInv(s', k) { AcquireKeepsSlot(s, s', t, k); }
    forall u | u in s.sessions ensures SessionInv(s', u) { AcquireKeepsSession(s, s', t, u); }
  }

  lemma PublishKeepsInv(s: State, s': State, t: nat)
    requires Inv(s) && t in s.sessions && s.sessions[t].pc.InHand? && PublishStep(s, t) == s'
    ensures Inv(s')
  {
    assert SessionInv(s, t) && s'.sessions.Keys == s.sessions.Keys;
    PublishKeepsGlobal(s, s', t);
    PublishKeepsLists(s, s', t);
    forall k: Slot ensures SlotInv(s', k) { PublishKeepsSlot(s, s', t, k); }
    forall u | u in s.sessions ensures SessionInv(s', u) { PublishKeepsSession(s, s', t, u); }
  }

  lemma TakeKeepsInv(s: State, s': State, t: nat)
    requires Inv(s) && t in s.sessions && Taking(s.sessions[t].pc) && TakeStep(s, t) == Some(s')
    ensures Inv(s')
  {
    assert SessionInv(s, t) && s'.sessions.Keys == s.sessions.Keys;
    TakeKeepsGlobal(s, s', t);
    TakeKeepsLists(s, s', t);
    forall k: Slot ensures SlotInv(s', k) { TakeKeepsSlot(s, s', t, k); }
    forall u | u in s.sessions ensures SessionInv(s', u) { TakeKeepsSession(s, s', t, u); }
  }

  lemma UnlockKeepsInv(s: State, s': State, t: nat)
    requires Inv(s) && t in s.sessions && Ending(s.sessions[t].pc) && UnlockStep(s, t) == Some(s')
    ensures Inv(s')
  {
    assert SessionInv(s, t) && s'.sessions.Keys == s.sessions.Keys;
    UnlockKeepsGlobal(s, s', t);
    UnlockKeepsLists(s, s', t);
    forall k: Slot ensures SlotInv(s', k) { UnlockKeepsSlot(s, s', t, k); }
    forall u | u in s.sessions ensures SessionInv(s', u) { UnlockKeepsSession(s, s', t, u); }
  }

  lemma AdvanceKeepsInv(s: State, s': State, t: nat)
    requires Inv(s) && t in s.sessions && Advance(s, t) == Some(s')
    ensures Inv(s')
  {
    var pc := s.sessions[t].pc;
    if Acquiring(pc) {
      AcquireKeepsInv(s, s', t);
    } else if pc.InHand? {
      PublishKeepsInv(s, s', t);
    } else if Taking(pc) {
      TakeKeepsInv(s, s', t);
    } else {
      UnlockKeepsInv(s, s', t);
    }
  }

  lemma {:induction false} RunInv(run: seq<State>, i: nat)
    requires IsRun(run) && i < |run|
    ensures Inv(run[i])
  {
    if i == 0 {
      InitInv(run[0]);
    } else {
      RunInv(run, i - 1);
      var s, s' := run[i-1], run[i];
      assert Next(run[i-1], run[i-1+1]);
      if t, h, trylock :| Begins(s, s', t, h, trylock) {
        BeginKeepsInv(s, s', t, h, trylock);
      } else {
        var t :| t in s.sessions && Advance(s, t) == Some(s');
        AdvanceKeepsInv(s, s', t);
      }
    }
  }

  // ----- what every interleaving guarantees -----

  /** The lock call of session `t` has returned with the lock and its unlock has not yet given it back. */
  predicate HoldsLock(s: State, t: nat) {
    && t in s.sessions
    && var p := s.sessions[t].pc;
       p.Holding? || p.WantUnlock? || p.UnlockFind? || p.UnlockUp?
  }

  lemma OneOwner(s: State, t: nat, u: nat, k: Slot)
    requires SlotInv(s, k) && t in s.sessions && u in s.sessions
    requires Owns(s.sessions[t].pc, k) && Owns(s.sessions[u].pc, k)
    ensures t == u
  {
    CountPositive(s.sessions, t, OwnerOf(k));
    CountUnique(s.sessions, t, u, OwnerOf(k));
  }

  /** Mutual exclusion: at most one session at a time holds the lock of a name hash. */
  lemma MutualExclusion(run: seq<State>, i: nat, t: nat, u: nat)
    requires IsRun(run) && i < |run|
    requires HoldsLock(run[i], t) && HoldsLock(run[i], u)
    requires run[i].sessions[t].hash == run[i].sessions[u].hash
    ensures t == u
  {
    RunInv(run, i);
    var s := run[i];
    assert SessionInv(s, t) && SessionInv(s, u);
    assert SlotInv(s, s.sessions[t].pc.slot);
    OneOwner(s, t, u, s.sessions[t].pc.slot);
  }

  /** Every slot is in exactly one place; no two active slots share a hash; a slot's references are
      its holders and waiters; a free slot is unlocked and nobody refers to it. */
  lemma SlotAccounting(run: seq<State>, i: nat, k: Slot)
    requires IsRun(run) && i < |run|
    ensures var s := run[i];
      && One(k in s.active) + One(k in s.free) + Count(s.sessions, HandOf(k)) == 1
      && NoDup(s.active) && NoDup(s.free)
      && (k in s.active ==> forall l :: l in s.active && s.slots[l].hash == s.slots[k].hash ==> l == k)
      && (k in s.active ==> s.slots[k].references == Count(s.sessions, RefersTo(k)))
      && (k !in s.active ==> s.slots[k].value == 1)
      && (k !in s.active ==> forall t :: t in s.sessions ==> !Refers(s.sessions[t].pc, k) && !Owns(s.sessions[t].pc, k))
  {
    RunInv(run, i);
    var s := run[i];
    assert SlotInv(s, k);
    if k !in s.active {
      forall t | t in s.sessions
        ensures !Refers(s.sessions[t].pc, k) && !Owns(s.sessions[t].pc, k)
      {
        assert SessionInv(s, t);
        if Refers(s.sessions[t].pc, k) { ReferencedIsCounted(s, t, k); }
      }
      CountZero(s.sessions, OwnerOf(k));
    }
  }

  /** fio_unlock_file by a session that holds the lock always finds its slot. */
  lemma UnlockNeverMisses(run: seq<State>, i: nat, t: nat)
    requires IsRun(run) && i < |run|
    requires t in run[i].sessions && run[i].sessions[t].pc.UnlockFind?
    ensures Find(run[i].active, run[i].slots, run[i].sessions[t].hash) == Some(run[i].sessions[t].pc.slot)
  {
    RunInv(run, i);
    assert SessionInv(run[i], t);
    UnlockFindsOwnSlot(run[i], t);
  }

  /** Whoever has the global lock can always move, and a waiter is blocked only by an owner:
      no state of any run is stuck on a lock nobody holds. */
  lemma NobodyWaitsForNothing(run: seq<State>, i: nat, t: nat)
    requires IsRun(run) && i < |run| && t in run[i].sessions && run[i].sessions[t].pc != Idle
    requires Advance(run[i], t) == None
    ensures var s := run[i]; var p := s.sessions[t].pc;
      || (p.TakeLock? && exists u :: u != t && u in s.sessions && Owns(s.sessions[u].pc, p.slot))
      || (!p.TakeLock? && exists u :: u != t && u in s.sessions && InCritical(s.sessions[u].pc) && Advance(s, u).Some?)
  {
    RunInv(run, i);
    var s := run[i];
    var p := s.sessions[t].pc;
    if p.TakeLock? {
      assert SlotInv(s, p.slot);
      var u :| u in Those(s.sessions, OwnerOf(p.slot));
    } else {
      var u :| u in Those(s.sessions, Critical());
      CriticalMoves(s, u);
    }
  }

  lemma CriticalMoves(s: State, u: nat)
    requires u in s.sessions && InCritical(s.sessions[u].pc)
    ensures Advance(s, u).Some?
  {}

  /** The slot is active and a session other than t refers to it. */
  ghost predicate InUse(s: State, k: Slot, t: nat) {
    k in s.active && exists u :: u != t && u in s.sessions && Refers(s.sessions[u].pc, k)
  }

  /** A trylock gives up only under contention: on the raced path another session refers to the slot,
      and without a free slot all of them are active and in use. Only then does a blocking call let go of the
      global lock to try again. */
  lemma TrylockFailsOnlyUnderContention(run: seq<State>, i: nat, t: nat)
    requires IsRun(run) && i < |run| && t in run[i].sessions
    requires var s := run[i]; InCritical(s.sessions[t].pc) && (s.sessions[t].pc.RaceCheck? || s.sessions[t].pc.GetSlot?)
    requires var r := Advance(run[i], t);
      r.Some? && t in r.value.sessions && (r.value.sessions[t].pc == Idle || r.value.sessions[t].pc == Dropped)
    ensures var s := run[i]; var p := s.sessions[t].pc;
      && (p.RaceCheck? ==> exists u :: u != t && u in s.sessions && Refers(s.sessions[u].pc, p.slot))
      && (p.GetSlot? ==> forall k: Slot :: InUse(s, k, t))
  {
    RunInv(run, i);
    var s := run[i];
    var p := s.sessions[t].pc;
    if p.RaceCheck? {
      assert SlotInv(s, p.slot);
      var others := Those(s.sessions, RefersTo(p.slot)) - {t};
      ReferencedIsCounted(s, t, p.slot);
      Split(Those(s.sessions, RefersTo(p.slot)), t);
      var u :| u in others;
    } else {
      assert s.free == [];
      forall k: Slot ensures InUse(s, k, t) { FullPoolInUse(s, t, k); }
    }
  }

  lemma FullPoolInUse(s: State, t: nat, k: Slot)
    requires Inv(s) && t in s.sessions && s.sessions[t].pc.GetSlot? && s.free == []
    ensures InUse(s, k, t)
  {
    assert SlotInv(s, k);
    forall u | u in s.sessions
      ensures !HandOf(k)(s.sessions[u]) && !PendingOn(k)(s.sessions[u])
    {
      if InCritical(s.sessions[u].pc) { OnlyOneCritical(s, t, u); }
    }
    CountZero(s.sessions, HandOf(k));
    CountZero(s.sessions, PendingOn(k));
    var u :| u in Those(s.sessions, RefersTo(k));
  }

  /** Once every session is idle, all slots are back on the free list: the assertion in
      fio_filelock_exit holds. */
  lemma AllIdleMeansAllFree(run: seq<State>, i: nat)
    requires IsRun(run) && i < |run|
    requires forall t :: t in run[i].sessions ==> run[i].sessions[t].pc == Idle
    ensures run[i].active == [] && forall k: Slot :: k in run[i].free
  {
    RunInv(run, i);
    var s := run[i];
    forall k: Slot ensures k !in s.active && k in s.free {
      assert SlotInv(s, k);
      CountZero(s.sessions, RefersTo(k));
      CountZero(s.sessions, PendingOn(k));
      CountZero(s.sessions, HandOf(k));
    }
    FirstIsMember(s.active);
  }

  // ----- how a call ends, in every interleaving -----

  /** Only a trylock takes the way through the non-blocking down. */
  ghost predicate PathInv(s: State) {
    forall t :: t in s.sessions ==>
      var me := s.sessions[t]; me.pc.TryLock? || me.pc.Raced? || me.pc.RaceCheck? ==> me.trylock
  }

  /** From s to s' only the counter of session t has moved. */
  ghost predicate MovesOne(s: State, s': State, t: nat)
    requires t in s.sessions
  {
    t in s'.sessions && s'.sessions == s.sessions[t := s.sessions[t].(pc := s'.sessions[t].pc)]
  }

  lemma AcquireMovesOne(s: State, s': State, t: nat)
    requires t in s.sessions && Acquiring(s.sessions[t].pc) && AcquireStep(s, t) == Some(s')
    ensures MovesOne(s, s', t)
  {}

  lemma TakeMovesOne(s: State, s': State, t: nat)
    requires t in s.sessions && Taking(s.sessions[t].pc) && TakeStep(s, t) == Some(s')
    ensures MovesOne(s, s', t)
  {}

  lemma UnlockMovesOne(s: State, s': State, t: nat)
    requires t in s.sessions && Ending(s.sessions[t].pc) && UnlockStep(s, t) == Some(s')
    ensures MovesOne(s, s', t)
  {}

  /** A step moves one session and changes neither its hash nor its kind. */
  lemma AdvanceMovesOne(s: State, s': State, t: nat)
    requires t in s.sessions && Advance(s, t) == Some(s')
    ensures MovesOne(s, s', t)
  {
    var pc := s.sessions[t].pc;
    if Acquiring(pc) {
      AcquireMovesOne(s, s', t);
    } else if Taking(pc) {
      TakeMovesOne(s, s', t);
    } else if !pc.InHand? {
      UnlockMovesOne(s, s', t);
    }
  }

  lemma AdvanceKeepsPath(s: State, s': State, t: nat)
    requires PathInv(s) && t in s.sessions && Advance(s, t) == Some(s')
    ensures PathInv(s')
  {
    AdvanceMovesOne(s, s', t);
  }

  lemma {:induction false} RunPathInv(run: seq<State>, i: nat)
    requires IsRun(run) && i < |run|
    ensures PathInv(run[i])
  {
    if i > 0 {
      RunPathInv(run, i - 1);
      var s, s' := run[i-1], run[i];
      assert Next(run[i-1], run[i-1+1]);
      if t :| t in s.sessions && Advance(s, t) == Some(s') {
        AdvanceKeepsPath(s, s', t);
      }
    }
  }

  /** A session whose counter changes from one state of a run to the next has made a step. */
  lemma WhoMoved(run: seq<State>, i: nat, t: nat)
    requires IsRun(run) && i + 1 < |run| && t in run[i].sessions && t in run[i+1].sessions
    requires run[i].sessions[t].pc != run[i+1].sessions[t].pc && !run[i+1].sessions[t].pc.WantGlobal?
    ensures Advance(run[i], t) == Some(run[i+1])
  {
    assert Next(run[i], run[i+1]);
    if u :| u in run[i].sessions && Advance(run[i], u) == Some(run[i+1]) {
      AdvanceMovesOne(run[i], run[i+1], u);
    }
  }

  /** A blocking call returns with the lock: only a trylock becomes idle without an unlock. */
  lemma OnlyTrylockGivesUp(run: seq<State>, i: nat, t: nat)
    requires IsRun(run) && i + 1 < |run| && t in run[i].sessions && t in run[i+1].sessions
    requires run[i].sessions[t].pc != Idle && run[i+1].sessions[t].pc == Idle
    ensures run[i].sessions[t].trylock || run[i].sessions[t].pc.UnlockPut?
  {
    RunInv(run, i);
    RunPathInv(run, i);
    WhoMoved(run, i, t);
    assert SessionInv(run[i], t);
    if run[i].sessions[t].pc.UnlockFind? { UnlockFindsOwnSlot(run[i], t); }
  }

  /** A trylock waits for a slot only after its non-blocking attempt failed and nobody else referred to the
      slot. */
  lemma TrylockWaitsOnlyAlone(run: seq<State>, i: nat, t: nat)
    requires IsRun(run) && i + 1 < |run| && t in run[i].sessions && t in run[i+1].sessions
    requires run[i].sessions[t].trylock && !run[i].sessions[t].pc.TakeLock? && run[i+1].sessions[t].pc.TakeLock?
    ensures var k := run[i+1].sessions[t].pc.slot;
      && run[i].sessions[t].pc == RaceCheck(k)
      && forall u :: u in run[i].sessions && u != t ==> !Refers(run[i].sessions[u].pc, k)
  {
    RunInv(run, i);
    WhoMoved(run, i, t);
    var s, k := run[i], run[i+1].sessions[t].pc.slot;
    EntersTakeLock(s, run[i+1], t);
    assert SlotInv(s, k);
    SoleReference(s, t, k);
  }

  lemma EntersTakeLock(s: State, s': State, t: nat)
    requires t in s.sessions && t in s'.sessions && Advance(s, t) == Some(s')
    requires s.sessions[t].trylock && !s.sessions[t].pc.TakeLock? && s'.sessions[t].pc.TakeLock?
    ensures var k := s'.sessions[t].pc.slot; s.sessions[t].pc == RaceCheck(k) && s.slots[k].references == 1
  {}

  lemma SoleReference(s: State, t: nat, k: Slot)
    requires SlotInv(s, k) && t in s.sessions && Refers(s.sessions[t].pc, k) && s.slots[k].references == 1
    ensures forall u :: u in s.sessions && u != t ==> !Refers(s.sessions[u].pc, k)
  {
    ReferencedIsCounted(s, t, k);
    forall u | u in s.sessions && Refers(s.sessions[u].pc, k) ensures u == t {
      CountUnique(s.sessions, t, u, RefersTo(k));
    }
  }

  /** The first attempt of a trylock never waits: it takes the slot exactly if nobody owns it. */
  lemma FirstAttempt(run: seq<State>, i: nat, t: nat)
    requires IsRun(run) && i < |run| && t in run[i].sessions && run[i].sessions[t].pc.TryLock?
    ensures var s := run[i]; var k := s.sessions[t].pc.slot;
      var owned := exists u :: u in s.sessions && Owns(s.sessions[u].pc, k);
      && Advance(s, t).Some? && t in Advance(s, t).value.sessions
      && Advance(s, t).value.sessions[t].pc == if owned then Raced(k) else Holding(k)
  {
    RunInv(run, i);
    var s := run[i];
    var k := s.sessions[t].pc.slot;
    assert SlotInv(s, k);
    if u :| u in s.sessions && Owns(s.sessions[u].pc, k) {
      CountPositive(s.sessions, u, OwnerOf(k));
    } else {
      CountZero(s.sessions, OwnerOf(k));
    }
  }

  /** How many steps of its own a session has before it, at most, until it is idle. */
  function Left(p: PC): nat {
    match p
    case WantGlobal => 14
    case Lookup => 13
    case Dropped => 13
    case GetSlot(_) => 12
    case InHand(_, _) => 11
    case AddRef(_) => 10
    case TryLock(_) => 9
    case Raced(_) => 8
    case RaceCheck(_) => 7
    case TakeLock(_) => 6
    case Holding(_) => 5
    case WantUnlock(_) => 4
    case UnlockFind(_) => 3
    case UnlockUp(_, _) => 2
    case UnlockPut(_, _) => 1
    case Idle => 0
  }

  lemma AcquireLeadsOn(s: State, s': State, t: nat)
    requires t in s.sessions && Acquiring(s.sessions[t].pc) && AcquireStep(s, t) == Some(s') && t in s'.sessions
    ensures var me, me' := s.sessions[t], s'.sessions[t];
      Left(me'.pc) < Left(me.pc) || (me.pc.GetSlot? && s.free == [] && !me.trylock && me'.pc == Dropped)
  {}

  lemma TakeLeadsOn(s: State, s': State, t: nat)
    requires t in s.sessions && Taking(s.sessions[t].pc) && TakeStep(s, t) == Some(s') && t in s'.sessions
    ensures Left(s'.sessions[t].pc) < Left(s.sessions[t].pc)
  {}

  lemma UnlockLeadsOn(s: State, s': State, t: nat)
    requires t in s.sessions && Ending(s.sessions[t].pc) && UnlockStep(s, t) == Some(s') && t in s'.sessions
    ensures Left(s'.sessions[t].pc) < Left(s.sessions[t].pc)
  {}

  /** Every step of a session brings it nearer to its end, unless a blocking call finds all slots taken. */
  lemma EveryStepLeadsOn(s: State, s': State, t: nat)
    requires t in s.sessions && t in s'.sessions && Advance(s, t) == Some(s')
    ensures var me, me' := s.sessions[t], s'.sessions[t];
      Left(me'.pc) < Left(me.pc) || (me.pc.GetSlot? && s.free == [] && !me.trylock && me'.pc == Dropped)
  {
    var pc := s.sessions[t].pc;
    if Acquiring(pc) {
      AcquireLeadsOn(s, s', t);
    } else if Taking(pc) {
      TakeLeadsOn(s, s', t);
    } else if !pc.InHand? {
      UnlockLeadsOn(s, s', t);
    }
  }

  // ----- a call that runs undisturbed -----

  ghost predicate IsSolo(run: seq<State>, t: nat) {
    && run != []
    && forall i :: 0 <= i < |run| - 1 ==> t in run[i].sessions && Advance(run[i], t) == Some(run[i+1])
  }

  /** Some session has the lock of the name hash. */
  ghost predicate Locked(s: State, h: Hash) {
    exists u :: HoldsLock(s, u) && s.sessions[u].hash == h
  }

  ghost predicate Known(s: State, h: Hash) {
    exists k :: k in s.active && s.slots[k].hash == h
  }

  /** The slot of a name hash is taken exactly while the hash is locked. */
  lemma TakenExactlyWhenLocked(s: State, k: Slot)
    requires Inv(s) && k in s.active
    ensures s.slots[k].value == if Locked(s, s.slots[k].hash) then 0 else 1
  {
    var h := s.slots[k].hash;
    assert SlotInv(s, k);
    if u :| HoldsLock(s, u) && s.sessions[u].hash == h {
      assert SessionInv(s, u);
      CountPositive(s.sessions, u, OwnerOf(k));
    } else {
      forall u | u in s.sessions ensures !Owns(s.sessions[u].pc, k) {
        assert SessionInv(s, u);
        if Owns(s.sessions[u].pc, k) { assert HoldsLock(s, u); }
      }
      CountZero(s.sessions, OwnerOf(k));
    }
  }

  lemma LockedIsKnown(s: State, h: Hash)
    requires Inv(s) && Locked(s, h)
    ensures Known(s, h)
  {
    var u :| HoldsLock(s, u) && s.sessions[u].hash == h;
    assert SessionInv(s, u);
    assert s.sessions[u].pc.slot in s.active;
  }

  /** A free slot is unlocked. */
  lemma FreeIsUnlocked(s: State, k: Slot)
    requires Inv(s) && k in s.free
    ensures k !in s.active && s.slots[k].value == 1
  {
    assert SlotInv(s, k);
    forall u | u in s.sessions ensures !Owns(s.sessions[u].pc, k) { assert SessionInv(s, u); }
    CountZero(s.sessions, OwnerOf(k));
  }

  /** With nobody inside the global lock, a locked slot is referenced. */
  lemma LockedIsReferenced(s: State, k: Slot)
    requires Inv(s) && s.global == 1 && k in s.active && Locked(s, s.slots[k].hash)
    ensures s.slots[k].references >= 1
  {
    var u :| HoldsLock(s, u) && s.sessions[u].hash == s.slots[k].hash;
    assert SessionInv(s, u) && SlotInv(s, k);
    if s.sessions[u].pc.UnlockUp? {
      CountPositive(s.sessions, u, Critical());
      assert false;
    }
    ReferencedIsCounted(s, u, k);
  }

  /** From the reference on: the lock of a known or published slot. */
  lemma TakeAlone(s: State, t: nat, k: Slot) returns (run: seq<State>)
    requires t in s.sessions && s.global == 0 && s.sessions[t].pc == AddRef(k)
    requires s.slots[k].value == 0 || s.slots[k].value == 1
    requires s.slots[k].value == 0 ==> s.slots[k].references >= 1
    ensures IsSolo(run, t) && run[0] == s
    ensures var e := run[|run| - 1];
      && t in e.sessions && e.global == 1
      && (s.slots[k].value == 1 ==> e.sessions[t].pc == Holding(k))
      && (s.slots[k].value == 0 && s.sessions[t].trylock ==> e == Go(Release(s), t, Idle))
      && (s.slots[k].value == 0 && !s.sessions[t].trylock ==> e.sessions[t].pc == TakeLock(k) && Advance(e, t).None?)
  {
    var s1 := Advance(s, t).value;
    run := [s, s1];
    if s.slots[k].value == 1 {
      run := run + [Advance(s1, t).value];
    } else if s.sessions[t].trylock {
      var s2 := Advance(s1, t).value;
      var s3 := Advance(s2, t).value;
      var s4 := Advance(s3, t).value;
      run := [s, s1, s2, s3, s4];
      assert s4.slots == s.slots;
      assert s4.sessions == s.sessions[t := s.sessions[t].(pc := Idle)];
    }
  }

  lemma SoloJoin(a: seq<State>, b: seq<State>, t: nat)
    requires IsSolo(a, t) && IsSolo(b, t) && a[|a| - 1] == b[0]
    ensures IsSolo(a + b[1..], t) && (a + b[1..])[|a + b[1..]| - 1] == b[|b| - 1]
  {
    var c := a + b[1..];
    forall i | 0 <= i < |c| - 1 ensures t in c[i].sessions && Advance(c[i], t) == Some(c[i+1]) {
      if i < |a| - 1 {
        assert c[i] == a[i] && c[i+1] == a[i+1];
      } else {
        var j := i - (|a| - 1);
        assert c[i] == b[j] && c[i+1] == b[j+1];
      }
    }
  }

  /** An undisturbed call leaves the other sessions where they are. */
  lemma {:induction false} SoloMovesOne(run: seq<State>, t: nat)
    requires IsSolo(run, t)
    ensures var e := run[|run| - 1];
      e.sessions.Keys == run[0].sessions.Keys
      && forall u :: u in e.sessions ==>
           if u == t then e.sessions[u] == run[0].sessions[u].(pc := e.sessions[u].pc)
           else e.sessions[u] == run[0].sessions[u]
  {
    if |run| > 1 {
      AdvanceMovesOne(run[0], run[1], t);
      var rest := run[1..];
      forall i | 0 <= i < |rest| - 1 ensures t in rest[i].sessions && Advance(rest[i], t) == Some(rest[i+1]) {
        assert t in run[i+1].sessions && Advance(run[i+1], t) == Some(run[i+1+1]);
      }
      SoloMovesOne(rest, t);
    }
  }

  /** The way to a slot for a hash that no active slot carries. */
  lemma PublishAlone(s: State, t: nat) returns (run: seq<State>)
    requires t in s.sessions && s.sessions[t].pc == Lookup && !Known(s, s.sessions[t].hash) && s.free != []
    ensures IsSolo(run, t) && run[0] == s
    ensures var e, k := run[|run| - 1], s.free[0];
      && t in e.sessions && e.sessions[t] == s.sessions[t].(pc := AddRef(k)) && e.global == s.global
      && e.slots[k].value == s.slots[k].value
  {
    var s1 := Advance(s, t).value;
    var s2 := Advance(s1, t).value;
    var s3 := Advance(s2, t).value;
    run := [s, s1, s2, s3];
  }

  /** How an undisturbed lock call ends: with the lock if the name is not locked and there is a slot for it;
      otherwise a trylock returns and leaves no trace, and a blocking call waits for the holder, or lets go of
      the global lock until a slot is free. */
  ghost predicate LockOutcome(s: State, e: State, t: nat)
    requires t in s.sessions
  {
    var me := s.sessions[t];
    var slot, locked := Known(s, me.hash) || s.free != [], Locked(s, me.hash);
    && t in e.sessions && e.global == 1
    && (slot && !locked ==> e.sessions[t].pc.Holding?)
    && ((!slot || locked) && me.trylock ==> e == Go(s, t, Idle))
    && (locked && !me.trylock ==> e.sessions[t].pc.TakeLock? && Advance(e, t).None?)
    && (!slot && !locked && !me.trylock ==> e.sessions[t].pc.Dropped?)
  }

  lemma KnownAlone(s: State, s1: State, t: nat) returns (run: seq<State>)
    requires Inv(s) && s.global == 1 && t in s.sessions && Known(s, s.sessions[t].hash)
    requires s1 == Go(s.(global := 0), t, Lookup)
    ensures IsSolo(run, t) && run[0] == s1 && LockOutcome(s, run[|run| - 1], t)
  {
    var h := s.sessions[t].hash;
    var k := Find(s.active, s.slots, h).value;
    var s2 := Go(s1, t, AddRef(k));
    assert Advance(s1, t) == Some(s2);
    TakenExactlyWhenLocked(s, k);
    if Locked(s, h) { LockedIsReferenced(s, k); }
    assert Go(Release(s2), t, Idle) == Go(s, t, Idle) by {
      assert Go(Release(s2), t, Idle).sessions == Go(s, t, Idle).sessions;
    }
    run := TakeAlone(s2, t, k);
    run := SoloStep(s1, run, t);
  }

  /** One more step in front. */
  lemma SoloStep(s: State, rest: seq<State>, t: nat) returns (run: seq<State>)
    requires IsSolo(rest, t) && t in s.sessions && Advance(s, t) == Some(rest[0])
    ensures IsSolo(run, t) && run[0] == s && run[|run| - 1] == rest[|rest| - 1]
  {
    SoloJoin([s, rest[0]], rest, t);
    run := [s, rest[0]] + rest[1..];
  }

  lemma NewAlone(s: State, s1: State, t: nat) returns (run: seq<State>)
    requires Inv(s) && s.global == 1 && t in s.sessions && s.free != []
    requires !Known(s, s.sessions[t].hash) && !Locked(s, s.sessions[t].hash)
    requires s1 == Go(s.(global := 0), t, Lookup)
    ensures IsSolo(run, t) && run[0] == s1 && LockOutcome(s, run[|run| - 1], t)
  {
    run := PublishAlone(s1, t);
    FreeIsUnlocked(s, s.free[0]);
    var rest := TakeAlone(run[|run| - 1], t, s.free[0]);
    SoloJoin(run, rest, t);
    run := run + rest[1..];
  }

  lemma FullAlone(s: State, s1: State, t: nat) returns (run: seq<State>)
    requires s.global == 1 && t in s.sessions && s.free == []
    requires !Known(s, s.sessions[t].hash) && !Locked(s, s.sessions[t].hash)
    requires s1 == Go(s.(global := 0), t, Lookup)
    ensures IsSolo(run, t) && run[0] == s1 && LockOutcome(s, run[|run| - 1], t)
  {
    var s2 := Advance(s1, t).value;
    var s3 := Advance(s2, t).value;
    run := [s1, s2, s3];
    assert s.sessions[t].trylock ==> s3.sessions == Go(s, t, Idle).sessions;
  }

  /** A lock call that nobody disturbs comes to the outcome its name and kind call for. */
  lemma LockAlone(s: State, t: nat) returns (run: seq<State>)
    requires Inv(s) && s.global == 1 && t in s.sessions && s.sessions[t].pc == WantGlobal
    ensures IsSolo(run, t) && run[0] == s && LockOutcome(s, run[|run| - 1], t)
  {
    var h := s.sessions[t].hash;
    var s1 := Go(s.(global := 0), t, Lookup);
    assert Advance(s, t) == Some(s1);
    if Locked(s, h) { LockedIsKnown(s, h); }
    if Known(s, h) {
      run := KnownAlone(s, s1, t);
    } else if s.free != [] {
      run := NewAlone(s, s1, t);
    } else {
      run := FullAlone(s, s1, t);
    }
    run := SoloStep(s, run, t);
  }

  lemma UnlockFirstSteps(s: State, t: nat, k: Slot) returns (run: seq<State>)
    requires s.global == 1 && t in s.sessions && s.sessions[t].pc == Holding(k)
    ensures IsSolo(run, t) && run[0] == s
    ensures run[|run| - 1] == s.(global := 0, sessions := s.sessions[t := s.sessions[t].(pc := UnlockFind(k))])
  {
    var s1 := Advance(s, t).value;
    var s2 := Advance(s1, t).value;
    run := [s, s1, s2];
    assert s2.sessions == s.sessions[t := s.sessions[t].(pc := UnlockFind(k))];
  }

  lemma UnlockLastSteps(s: State, t: nat, k: Slot) returns (run: seq<State>)
    requires s.global == 0 && t in s.sessions && s.sessions[t].pc == UnlockFind(k)
    requires Find(s.active, s.slots, s.sessions[t].hash) == Some(k)
    ensures IsSolo(run, t) && run[0] == s
    ensures var e := run[|run| - 1];
      && t in e.sessions && e.sessions[t].pc == Idle && e.global == 1
      && e.slots[k].value == s.slots[k].value + 1
      && e.free == if s.slots[k].references == 1 then [k] + s.free else s.free
  {
    var s1 := Advance(s, t).value;
    var s2 := Advance(s1, t).value;
    var s3 := Advance(s2, t).value;
    run := [s, s1, s2, s3];
  }

  /** An unlock that nobody disturbs returns, unlocks the slot, and frees it exactly if nobody else refers to it. */
  lemma UnlockAlone(s: State, t: nat) returns (run: seq<State>)
    requires Inv(s) && s.global == 1 && t in s.sessions && s.sessions[t].pc.Holding?
    ensures IsSolo(run, t) && run[0] == s
    ensures var e, k := run[|run| - 1], s.sessions[t].pc.slot;
      && t in e.sessions && e.sessions[t].pc == Idle && e.global == 1 && e.slots[k].value == 1
      && (k in e.free <==> forall u :: u in s.sessions && u != t ==> !Refers(s.sessions[u].pc, k))
  {
    var k := s.sessions[t].pc.slot;
    assert SessionInv(s, t) && SlotInv(s, k);
    run := UnlockFirstSteps(s, t, k);
    var rest := UnlockLastSteps(run[|run| - 1], t, k);
    SoloJoin(run, rest, t);
    run := run + rest[1..];
    CountPositive(s.sessions, t, OwnerOf(k));
    ReferencedIsCounted(s, t, k);
    if s.slots[k].references == 1 {
      SoleReference(s, t, k);
    } else {
      OtherReference(s, t, k);
    }
  }

  lemma OtherReference(s: State, t: nat, k: Slot)
    requires SlotInv(s, k) && t in s.sessions && Refers(s.sessions[t].pc, k) && s.slots[k].references != 1
    ensures k in s.active && exists u :: u in s.sessions && u != t && Refers(s.sessions[u].pc, k)
  {
    ReferencedIsCounted(s, t, k);
    Split(Those(s.sessions, RefersTo(k)), t);
    var u :| u in Those(s.sessions, RefersTo(k)) - {t};
  }
}
