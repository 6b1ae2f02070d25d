/** The lock protocol of shared-cache Btrees, as interleaved steps of any number of connections.

    A mutex is the address of its BtShared. A connection lists its sharable Btrees in the order of
    `pNext`. Every step is one access to shared state: one try, one acquisition, one release. */
module BtreeMutex {

  /** A Btree handle: its BtShared, `locked` and `wantToLock`. */
  datatype Btree = Btree(pBt: int, locked: bool, want: nat)

  /** Where a connection is inside sqlite3BtreeEnter(), for its Btree number `k`. */
  datatype Pc =
    | Idle
    | Trying(k: nat)               // about to call sqlite3_mutex_try()
    | Releasing(k: nat, j: nat)    // about to look at later Btree j, to unlock it
    | Blocking(k: nat)             // about to block on the mutex of Btree k
    | Relocking(k: nat, j: nat)    // about to look at later Btree j, to lock it again

  datatype Conn = Conn(pc: Pc, bts: seq<Btree>)

  /** `owner` has the mutexes that are held, `db` is BtShared.db. */
  datatype State = State(conns: seq<Conn>, owner: map<int, nat>, db: map<int, nat>)

  /** sqlite3_mutex_try() may fail on a free mutex too. */
  datatype Action = Enter(k: nat) | Leave(k: nat) | Continue | TryFails

  // -------------------- the steps --------------------

  function Lock(s: State, c: nat, k: nat, pc: Pc): State
    requires c < |s.conns| && k < |s.conns[c].bts|
  {
    var x := s.conns[c];
    var m := x.bts[k].pBt;
    State(s.conns[c := Conn(pc, x.bts[k := x.bts[k].(locked := true)])], s.owner[m := c], s.db[m := c])
  }

  function Unlock(s: State, c: nat, k: nat, pc: Pc): State
    requires c < |s.conns| && k < |s.conns[c].bts|
  {
    var x := s.conns[c];
    State(s.conns[c := Conn(pc, x.bts[k := x.bts[k].(locked := false)])], s.owner - {x.bts[k].pBt}, s.db)
  }

  function Goto(s: State, c: nat, pc: Pc): State
    requires c < |s.conns|
  {
    s.(conns := s.conns[c := s.conns[c].(pc := pc)])
  }

  function Want(s: State, c: nat, k: nat, want: nat, pc: Pc): State
    requires c < |s.conns| && k < |s.conns[c].bts|
  {
    var x := s.conns[c];
    s.(conns := s.conns[c := Conn(pc, x.bts[k := x.bts[k].(want := want)])])
  }

  /** The mutex that a connection is about to acquire by blocking. */
  function WaitsFor(x: Conn): set<int> {
    match x.pc
    case Blocking(k) => if k < |x.bts| then {x.bts[k].pBt} else {}
    case Relocking(_, j) => if j < |x.bts| && x.bts[j].want > 0 then {x.bts[j].pBt} else {}
    case _ => {}
  }

  predicate Enabled(s: State, c: nat, a: Action) {
    c < |s.conns| &&
    var x := s.conns[c];
    match a
    case Enter(k) => x.pc.Idle? && k < |x.bts|
    case Leave(k) => x.pc.Idle? && k < |x.bts| && x.bts[k].want > 0
    case TryFails => x.pc.Trying? && x.pc.k < |x.bts|
    case Continue =>
      match x.pc
      case Idle => false
      case Trying(k) => k < |x.bts|
      case Releasing(k, j) => k < |x.bts| && j <= |x.bts|
      case Blocking(k) => k < |x.bts| && WaitsFor(x) !! s.owner.Keys
      case Relocking(k, j) => k < |x.bts| && j <= |x.bts| && WaitsFor(x) !! s.owner.Keys
  }

  function Next(s: State, c: nat, a: Action): State
    requires Enabled(s, c, a)
  {
    var x := s.conns[c];
    match a
    case Enter(k) => Want(s, c, k, x.bts[k].want + 1, if x.bts[k].locked then Idle else Trying(k))
    case Leave(k) =>
      var s1 := Want(s, c, k, x.bts[k].want - 1, Idle);
      if x.bts[k].want == 1 then Unlock(s1, c, k, Idle) else s1
    case TryFails => Goto(s, c, Releasing(x.pc.k, x.pc.k + 1))
    case Continue =>
      match x.pc
      case Idle => s
      case Trying(k) =>
        if x.bts[k].pBt !in s.owner then Lock(s, c, k, Idle) else Goto(s, c, Releasing(k, k + 1))
      case Releasing(k, j) =>
        if j == |x.bts| then Goto(s, c, Blocking(k))
        else if x.bts[j].locked then Unlock(s, c, j, Releasing(k, j + 1))
        else Goto(s, c, Releasing(k, j + 1))
      case Blocking(k) => Lock(s, c, k, Relocking(k, k + 1))
      case Relocking(k, j) =>
        if j == |x.bts| then Goto(s, c, Idle)
        else if x.bts[j].want > 0 then Lock(s, c, j, Relocking(k, j + 1))
        else Goto(s, c, Relocking(k, j + 1))
  }

  /** Nobody has entered anything. */
  ghost predicate Initial(s: State) {
    s.owner == map[] && s.db == map[] &&
    (forall c | 0 <= c < |s.conns| :: s.conns[c].pc.Idle? && Ascending(s.conns[c].bts)) &&
    (forall c, k | 0 <= c < |s.conns| && 0 <= k < |s.conns[c].bts| ::
      !s.conns[c].bts[k].locked && s.conns[c].bts[k].want == 0)
  }

  /** The list of a connection is in the order of BtShared addresses. */
  ghost predicate Ascending(bts: seq<Btree>) {
    forall i, j | 0 <= i < j < |bts| :: bts[i].pBt < bts[j].pBt
  }

  /** A run: each step is by one connection. */
  ghost predicate Run(states: seq<State>, who: seq<nat>, what: seq<Action>) {
    |states| == |who| + 1 == |what| + 1 && Initial(states[0]) &&
    forall t | 0 <= t < |who| ::
      Enabled(states[t], who[t], what[t]) && states[t + 1] == Next(states[t], who[t], what[t])
  }

  // -------------------- the invariant --------------------

  /** Which Btrees a connection holds, by where it is. */
  ghost predicate Holding(x: Conn) {
    (forall i | 0 <= i < |x.bts| :: x.bts[i].locked ==> x.bts[i].want > 0) &&
    match x.pc
    case Idle => forall i | 0 <= i < |x.bts| :: x.bts[i].want > 0 ==> x.bts[i].locked
    case Trying(k) =>
      k < |x.bts| && !x.bts[k].locked && x.bts[k].want > 0 &&
      forall i | 0 <= i < |x.bts| && i != k :: x.bts[i].want > 0 ==> x.bts[i].locked
    case Releasing(k, j) =>
      k < j <= |x.bts| && x.bts[k].want > 0 && (forall i | k <= i < j :: !x.bts[i].locked) &&
      forall i | 0 <= i < |x.bts| && !(k <= i < j) :: x.bts[i].want > 0 ==> x.bts[i].locked
    case Blocking(k) =>
      k < |x.bts| && x.bts[k].want > 0 && (forall i | k <= i < |x.bts| :: !x.bts[i].locked) &&
      forall i | 0 <= i < k :: x.bts[i].want > 0 ==> x.bts[i].locked
    case Relocking(k, j) =>
      k < j <= |x.bts| && (forall i | j <= i < |x.bts| :: !x.bts[i].locked) &&
      forall i | 0 <= i < j :: x.bts[i].want > 0 ==> x.bts[i].locked
  }

  ghost predicate Holds(x: Conn, m: int) {
    exists k :: 0 <= k < |x.bts| && x.bts[k].pBt == m && x.bts[k].locked
  }

  /** A mutex is held exactly by the connection that has it locked, and BtShared.db is that connection. */
  ghost predicate Owned(s: State) {
    (forall c | 0 <= c < |s.conns| :: Ascending(s.conns[c].bts)) &&
    (forall c, k | 0 <= c < |s.conns| && 0 <= k < |s.conns[c].bts| ::
      s.conns[c].bts[k].locked <==> s.conns[c].bts[k].pBt in s.owner && s.owner[s.conns[c].bts[k].pBt] == c) &&
    (forall m | m in s.owner :: s.owner[m] < |s.conns| && Holds(s.conns[s.owner[m]], m)) &&
    (forall m | m in s.owner :: m in s.db && s.db[m] == s.owner[m])
  }

  ghost predicate Inv(s: State) {
    Owned(s) && forall c | 0 <= c < |s.conns| :: Holding(s.conns[c])
  }

  lemma InitialInv(s: State)
    requires Initial(s)
    ensures Inv(s)
  {
  }

  lemma LockedHolds(x: Conn, k: nat)
    requires k < |x.bts| && x.bts[k].locked
    ensures Holds(x, x.bts[k].pBt)
  {
  }

  lemma LockOwned(s: State, c: nat, k: nat, pc: Pc)
    requires Owned(s) && c < |s.conns| && k < |s.conns[c].bts| && s.conns[c].bts[k].pBt !in s.owner
    ensures Owned(Lock(s, c, k, pc))
  {
    hide Holds, Holding;
    var t := Lock(s, c, k, pc);
    forall m | m in t.owner ensures t.owner[m] < |t.conns| && Holds(t.conns[t.owner[m]], m) {
      if m == s.conns[c].bts[k].pBt {
        LockedHolds(t.conns[c], k);
      } else {
        HolderKept(s, t, c, m);
      }
    }
  }

  lemma UnlockOwned(s: State, c: nat, k: nat, pc: Pc)
    requires Owned(s) && c < |s.conns| && k < |s.conns[c].bts| && s.conns[c].bts[k].locked
    ensures Owned(Unlock(s, c, k, pc))
  {
    var t := Unlock(s, c, k, pc);
    forall m | m in t.owner ensures t.owner[m] < |t.conns| && Holds(t.conns[t.owner[m]], m) {
      HolderKept(s, t, c, m);
    }
  }

  lemma WantOwned(s: State, c: nat, k: nat, want: nat, pc: Pc)
    requires Owned(s) && c < |s.conns| && k < |s.conns[c].bts|
    ensures Owned(Want(s, c, k, want, pc))
  {
    var t := Want(s, c, k, want, pc);
    forall m | m in t.owner ensures t.owner[m] < |t.conns| && Holds(t.conns[t.owner[m]], m) {
      HolderKept(s, t, c, m);
    }
  }

  lemma GotoOwned(s: State, c: nat, pc: Pc)
    requires Owned(s) && c < |s.conns|
    ensures Owned(Goto(s, c, pc))
  {
    var t := Goto(s, c, pc);
    forall m | m in t.owner ensures t.owner[m] < |t.conns| && Holds(t.conns[t.owner[m]], m) {
      HolderKept(s, t, c, m);
    }
  }

  /** A held mutex stays among the locked Btrees of its holder, if that holder has not unlocked it. */
  lemma HolderKept(s: State, t: State, c: nat, m: int)
    requires Owned(s) && c < |s.conns| && |t.conns| == |s.conns| && m in s.owner
    requires forall d | 0 <= d < |s.conns| && d != c :: t.conns[d] == s.conns[d]
    requires |t.conns[c].bts| == |s.conns[c].bts|
    requires forall k | 0 <= k < |s.conns[c].bts| && s.conns[c].bts[k].pBt == m ::
               t.conns[c].bts[k].pBt == m && (s.conns[c].bts[k].locked ==> t.conns[c].bts[k].locked)
    ensures s.owner[m] < |t.conns| && Holds(t.conns[s.owner[m]], m)
  {
    var d := s.owner[m];
    var k :| 0 <= k < |s.conns[d].bts| && s.conns[d].bts[k].pBt == m && s.conns[d].bts[k].locked;
    assert t.conns[d].bts[k].pBt == m && t.conns[d].bts[k].locked;
  }

  lemma StepOwned(s: State, c: nat, a: Action)
    requires Inv(s) && Enabled(s, c, a)
    ensures Owned(Next(s, c, a))
  {
    hide Owned, Ascending;
    var x := s.conns[c];
    match a
    case Enter(k) => WantOwned(s, c, k, x.bts[k].want + 1, if x.bts[k].locked then Idle else Trying(k));
    case Leave(k) =>
      WantOwned(s, c, k, x.bts[k].want - 1, Idle);
      if x.bts[k].want == 1 { UnlockOwned(Want(s, c, k, 0, Idle), c, k, Idle); }
    case TryFails => GotoOwned(s, c, Releasing(x.pc.k, x.pc.k + 1));
    case Continue =>
      match x.pc
      case Idle =>
      case Trying(k) =>
        if x.bts[k].pBt !in s.owner { LockOwned(s, c, k, Idle); } else { GotoOwned(s, c, Releasing(k, k + 1)); }
      case Releasing(k, j) =>
        if j == |x.bts| { GotoOwned(s, c, Blocking(k)); }
        else if x.bts[j].locked { UnlockOwned(s, c, j, Releasing(k, j + 1)); }
        else { GotoOwned(s, c, Releasing(k, j + 1)); }
      case Blocking(k) => LockOwned(s, c, k, Relocking(k, k + 1));
      case Relocking(k, j) =>
        if j == |x.bts| { GotoOwned(s, c, Idle); }
        else if x.bts[j].want > 0 { LockOwned(s, c, j, Relocking(k, j + 1)); }
        else { GotoOwned(s, c, Relocking(k, j + 1)); }
  }

  lemma OutsideHolding(s: State, c: nat, a: Action)
    requires Inv(s) && Enabled(s, c, a) && !a.Continue?
    ensures Holding(Next(s, c, a).conns[c])
  {
    hide Owned;
    assert Holding(s.conns[c]);
  }

  lemma TryHolding(s: State, c: nat)
    requires Inv(s) && Enabled(s, c, Continue) && (s.conns[c].pc.Trying? || s.conns[c].pc.Blocking?)
    ensures Holding(Next(s, c, Continue).conns[c])
  {
    hide Owned;
    assert Holding(s.conns[c]);
  }

  lemma ReleaseHolding(s: State, c: nat)
    requires Inv(s) && Enabled(s, c, Continue) && s.conns[c].pc.Releasing?
    ensures Holding(Next(s, c, Continue).conns[c])
  {
    hide Owned;
    assert Holding(s.conns[c]);
  }

  lemma RelockHolding(s: State, c: nat)
    requires Inv(s) && Enabled(s, c, Continue) && s.conns[c].pc.Relocking?
    ensures Holding(Next(s, c, Continue).conns[c])
  {
    hide Owned;
    assert Holding(s.conns[c]);
  }

  lemma StepHolding(s: State, c: nat, a: Action, d: nat)
    requires Inv(s) && Enabled(s, c, a) && d < |Next(s, c, a).conns|
    ensures Holding(Next(s, c, a).conns[d])
  {
    if d != c {
      hide Owned, Holding;
      assert Next(s, c, a).conns[d] == s.conns[d];
    } else if !a.Continue? {
      hide *;
      OutsideHolding(s, c, a);
    } else {
      ContinueHolding(s, c);
    }
  }

  lemma ContinueHolding(s: State, c: nat)
    requires Inv(s) && Enabled(s, c, Continue)
    ensures Holding(Next(s, c, Continue).conns[c])
  {
    hide Owned, Holding, Next;
    match s.conns[c].pc
    case Idle =>
    case Trying(_) => TryHolding(s, c);
    case Blocking(_) => TryHolding(s, c);
    case Releasing(_, _) => ReleaseHolding(s, c);
    case Relocking(_, _) => RelockHolding(s, c);
  }

  lemma StepInv(s: State, c: nat, a: Action)
    requires Inv(s) && Enabled(s, c, a)
    ensures Inv(Next(s, c, a))
  {
    hide Next, Owned, Holding, Enabled;
    StepOwned(s, c, a);
    forall d | 0 <= d < |Next(s, c, a).conns| ensures Holding(Next(s, c, a).conns[d]) {
      StepHolding(s, c, a, d);
    }
  }

  /** Every state of every run satisfies the invariant. */
  lemma {:induction false} RunInv(states: seq<State>, who: seq<nat>, what: seq<Action>, t: nat)
    requires Run(states, who, what) && t < |states|
    ensures Inv(states[t])
  {
    if t == 0 {
      InitialInv(states[0]);
    } else {
      RunInv(states, who, what, t - 1);
      StepInv(states[t - 1], who[t - 1], what[t - 1]);
      assert states[t - 1 + 1] == states[t];
    }
  }

  // -------------------- no deadlock --------------------

  /** The mutexes that connection `c` holds. */
  ghost function Held(s: State, c: nat): set<int> {
    set m | m in s.owner && s.owner[m] == c
  }

  /** A connection that is about to block on a mutex holds only mutexes of smaller address. */
  lemma WaitsAboveHeld(s: State, c: nat, m: int, h: int)
    requires Inv(s) && c < |s.conns| && m in WaitsFor(s.conns[c]) && h in Held(s, c)
    ensures h < m
  {
    var x := s.conns[c];
    var k :| 0 <= k < |x.bts| && x.bts[k].pBt == h && x.bts[k].locked;
  }

  /** Connection `c` is blocked, and `d` has the mutex it is blocked on. */
  ghost predicate BlockedBy(s: State, c: nat, d: nat) {
    c < |s.conns| && exists m :: m in WaitsFor(s.conns[c]) && m in s.owner && s.owner[m] == d
  }

  /** In a set of connections that all wait for each other, some wait for the largest address, and its holder
      would have to wait for a larger one. */
  lemma {:induction false} LargestWait(s: State, S: set<nat>) returns (c: nat)
    requires S != {} && forall x | x in S :: x < |s.conns| && |WaitsFor(s.conns[x])| == 1
    ensures c in S && forall x, m, n | x in S && m in WaitsFor(s.conns[x]) && n in WaitsFor(s.conns[c]) :: m <= n
    decreases |S|
  {
    c :| c in S;
    var R := S - {c};
    if R != {} {
      var d := LargestWait(s, R);
      var m :| m in WaitsFor(s.conns[c]);
      var n :| n in WaitsFor(s.conns[d]);
      assert WaitsFor(s.conns[c]) == {m} && WaitsFor(s.conns[d]) == {n};
      if m < n { c := d; }
    }
  }

  /** The holder of the largest awaited mutex is not blocked. */
  lemma HolderGoesOn(s: State, c: nat, d: nat, e: nat)
    requires Inv(s) && BlockedBy(s, c, d) && BlockedBy(s, d, e)
    ensures exists m, n :: m in WaitsFor(s.conns[c]) && n in WaitsFor(s.conns[d]) && m < n
  {
    var m :| m in WaitsFor(s.conns[c]) && m in s.owner && s.owner[m] == d;
    var n :| n in WaitsFor(s.conns[d]) && n in s.owner && s.owner[n] == e;
    WaitsAboveHeld(s, d, n, m);
  }

  lemma BlockedWaits(s: State, c: nat, d: nat)
    requires BlockedBy(s, c, d)
    ensures c < |s.conns| && |WaitsFor(s.conns[c])| == 1
  {
    var m :| m in WaitsFor(s.conns[c]) && m in s.owner && s.owner[m] == d;
    assert WaitsFor(s.conns[c]) == {m};
  }

  ghost predicate AllBlocked(s: State, S: set<nat>) {
    forall c | c in S :: exists d :: d in S && BlockedBy(s, c, d)
  }

  lemma BlockerIn(s: State, S: set<nat>, c: nat) returns (d: nat)
    requires AllBlocked(s, S) && c in S
    ensures d in S && BlockedBy(s, c, d)
  {
    hide BlockedBy;
    d :| d in S && BlockedBy(s, c, d);
  }

  /** Connections cannot all be blocked by each other. */
  lemma NotAllBlocked(s: State, S: set<nat>)
    requires Inv(s) && S != {}
    ensures !AllBlocked(s, S)
  {
    hide Inv, BlockedBy, WaitsFor, AllBlocked;
    if AllBlocked(s, S) {
      forall c | c in S ensures c < |s.conns| && |WaitsFor(s.conns[c])| == 1 {
        var d := BlockerIn(s, S, c);
        BlockedWaits(s, c, d);
      }
      var c := LargestWait(s, S);
      var d := BlockerIn(s, S, c);
      var e := BlockerIn(s, S, d);
      HolderGoesOn(s, c, d, e);
    }
  }

  /** No set of connections blocks each other. */
  lemma NoCycle(s: State, S: set<nat>)
    requires Inv(s) && S != {}
    ensures exists c :: c in S && forall d | d in S :: !BlockedBy(s, c, d)
  {
    hide Inv, BlockedBy;
    NotAllBlocked(s, S);
  }

  /** No deadlock is reachable. */
  lemma NoDeadlock(states: seq<State>, who: seq<nat>, what: seq<Action>, t: nat, S: set<nat>)
    requires Run(states, who, what) && t < |states| && S != {}
    ensures exists c :: c in S && forall d | d in S :: !BlockedBy(states[t], c, d)
  {
    hide Run, Inv, BlockedBy;
    RunInv(states, who, what, t);
    NoCycle(states[t], S);
  }

  ghost predicate HoldsSome(s: State, d: nat) {
    exists m :: m in s.owner && s.owner[m] == d
  }

  /** Whenever a connection is inside sqlite3BtreeEnter(), some connection can go on: one that is inside
      too, or one that is outside and can leave a Btree. */
  lemma Progress(states: seq<State>, who: seq<nat>, what: seq<Action>, t: nat, c: nat)
    requires Run(states, who, what) && t < |states| && c < |states[t].conns| && !states[t].conns[c].pc.Idle?
    ensures exists d, a :: Enabled(states[t], d, a) && (a.Continue? || a.Leave?)
  {
    var s := states[t];
    RunInv(states, who, what, t);
    hide Run;
    var S := set d | 0 <= d < |s.conns| && (!s.conns[d].pc.Idle? || HoldsSome(s, d));
    assert c in S;
    NoCycle(s, S);
    var d :| d in S && forall e | e in S :: !BlockedBy(s, d, e);
    NotBlockedEnabled(s, d, S);
  }

  lemma NotBlockedEnabled(s: State, d: nat, S: set<nat>)
    requires Inv(s) && S == (set d | 0 <= d < |s.conns| && (!s.conns[d].pc.Idle? || HoldsSome(s, d)))
    requires d in S && forall e | e in S :: !BlockedBy(s, d, e)
    ensures exists a :: Enabled(s, d, a) && (a.Continue? || a.Leave?)
  {
    if s.conns[d].pc.Idle? {
      assert HoldsSome(s, d);
      var m :| m in s.owner && s.owner[m] == d;
      var k :| 0 <= k < |s.conns[d].bts| && s.conns[d].bts[k].pBt == m && s.conns[d].bts[k].locked;
      assert Enabled(s, d, Leave(k));
    } else {
      forall m | m in WaitsFor(s.conns[d]) ensures m !in s.owner {
        if m in s.owner {
          assert HoldsSome(s, s.owner[m]);
          assert BlockedBy(s, d, s.owner[m]);
        }
      }
      assert Enabled(s, d, Continue);
    }
  }

  // -------------------- what Enter and Leave promise --------------------

  /** How often connection `c` has called for action `a` in the first `t` steps. */
  ghost function Calls(who: seq<nat>, what: seq<Action>, c: nat, a: Action, t: nat): nat
    requires t <= |who| && t <= |what|
  {
    if t == 0 then 0
    else Calls(who, what, c, a, t - 1) + if who[t - 1] == c && what[t - 1] == a then 1 else 0
  }

  /** What one step does to the Btrees of a connection: only entering and leaving one counts, and one at a time. */
  lemma StepWant(s: State, c: nat, a: Action, d: nat, k: nat)
    requires Enabled(s, c, a) && d < |s.conns| && k < |s.conns[d].bts|
    ensures var t := Next(s, c, a);
            |t.conns| == |s.conns| && |t.conns[d].bts| == |s.conns[d].bts| &&
            t.conns[d].bts[k].pBt == s.conns[d].bts[k].pBt &&
            t.conns[d].bts[k].want ==
            s.conns[d].bts[k].want + if c != d then 0 else if a == Enter(k) then 1 else if a == Leave(k) then -1 else 0
  {
  }

  lemma {:induction false} SameShape(states: seq<State>, who: seq<nat>, what: seq<Action>, t: nat, c: nat)
    requires Run(states, who, what) && t < |states|
    ensures |states[t].conns| == |states[0].conns|
    ensures c < |states[0].conns| ==> |states[t].conns[c].bts| == |states[0].conns[c].bts|
  {
    if t > 0 {
      SameShape(states, who, what, t - 1, c);
      assert Enabled(states[t - 1], who[t - 1], what[t - 1]);
      StepShape(states[t - 1], who[t - 1], what[t - 1], c);
      hide Enabled, Next, Initial;
    }
  }

  lemma StepShape(s: State, c: nat, a: Action, d: nat)
    requires Enabled(s, c, a)
    ensures |Next(s, c, a).conns| == |s.conns|
    ensures d < |s.conns| ==> |Next(s, c, a).conns[d].bts| == |s.conns[d].bts|
  {
  }

  /** A lock is recursive: how often a Btree is wanted is how often it was entered and not left. */
  lemma {:induction false} WantCounts(states: seq<State>, who: seq<nat>, what: seq<Action>, t: nat, c: nat, k: nat)
    requires Run(states, who, what) && t < |states| && c < |states[0].conns| && k < |states[0].conns[c].bts|
    ensures |states[t].conns| == |states[0].conns| && |states[t].conns[c].bts| == |states[0].conns[c].bts|
    ensures states[t].conns[c].bts[k].pBt == states[0].conns[c].bts[k].pBt
    ensures states[t].conns[c].bts[k].want ==
            Calls(who, what, c, Enter(k), t) - Calls(who, what, c, Leave(k), t)
  {
    if t > 0 {
      WantCounts(states, who, what, t - 1, c, k);
      assert Enabled(states[t - 1], who[t - 1], what[t - 1]);
      StepWant(states[t - 1], who[t - 1], what[t - 1], c, k);
      hide Enabled, Next, Initial;
    }
  }

  /** Outside sqlite3BtreeEnter() a connection holds exactly the mutexes of the Btrees it has entered and not
      left as often, and no other connection holds any of them. */
  lemma OutsideHoldsWanted(states: seq<State>, who: seq<nat>, what: seq<Action>, t: nat, c: nat, k: nat)
    requires Run(states, who, what) && t < |states| && c < |states[t].conns| && states[t].conns[c].pc.Idle?
    requires k < |states[t].conns[c].bts|
    ensures var s, b := states[t], states[t].conns[c].bts[k];
            (b.want > 0 <==> b.locked) && (b.locked <==> b.pBt in s.owner && s.owner[b.pBt] == c) &&
            (b.locked ==> b.pBt in s.db && s.db[b.pBt] == c) &&
            (b.locked <==> Calls(who, what, c, Enter(k), t) > Calls(who, what, c, Leave(k), t))
  {
    RunInv(states, who, what, t);
    SameShape(states, who, what, t, c);
    WantCounts(states, who, what, t, c, k);
    hide Run;
  }

  /** Without contention, entering a Btree takes its mutex and lets go of no other one. */
  lemma EntersAtOnce(s: State, c: nat, k: nat)
    requires Inv(s) && c < |s.conns| && s.conns[c].pc == Idle && k < |s.conns[c].bts| && !s.conns[c].bts[k].locked
    requires s.conns[c].bts[k].pBt !in s.owner
    ensures Enabled(s, c, Enter(k)) && Enabled(Next(s, c, Enter(k)), c, Continue)
    ensures var t := Next(Next(s, c, Enter(k)), c, Continue);
            |t.conns| == |s.conns| && t.conns[c].pc == Idle && |t.conns[c].bts| == |s.conns[c].bts| &&
            t.conns[c].bts[k].locked && t.owner == s.owner[s.conns[c].bts[k].pBt := c] &&
            forall i | 0 <= i < |s.conns[c].bts| && i != k :: t.conns[c].bts[i] == s.conns[c].bts[i]
  {
  }

  /** The steps that a connection still takes inside sqlite3BtreeEnter(), when it is not blocked. */
  function StepsLeft(x: Conn): int {
    var n := |x.bts|;
    match x.pc
    case Idle => 0
    case Relocking(_, j) => n - j + 1
    case Blocking(_) => n + 2
    case Releasing(_, j) => 2 * n - j + 4
    case Trying(_) => 3 * n + 6
  }

  /** What the code asserts when it unlocks or locks a mutex: it unlocks only as the connection that BtShared.db
      names, and it locks only what it wants and does not hold. */
  ghost predicate ProperChange(s: State, c: nat, k: nat)
    requires c < |s.conns| && k < |s.conns[c].bts|
  {
    var b := s.conns[c].bts[k];
    if b.locked then b.pBt in s.db && s.db[b.pBt] == c && b.pBt in s.owner && s.owner[b.pBt] == c
    else b.want > 0 && b.pBt !in s.owner
  }

  /** Each step inside the call, also of a try that fails, brings the call nearer to its end, and the assertions of
      the code hold on the way. */
  lemma EnterGoesOn(s: State, c: nat, a: Action)
    requires Inv(s) && Enabled(s, c, a) && (a.Continue? || a.TryFails?)
    ensures 0 <= StepsLeft(Next(s, c, a).conns[c]) < StepsLeft(s.conns[c])
    ensures forall k | 0 <= k < |s.conns[c].bts| && Next(s, c, a).conns[c].bts[k] != s.conns[c].bts[k] ::
              ProperChange(s, c, k)
  {
    assert Holding(s.conns[c]);
    EnterNears(s, c, a);
    forall k | 0 <= k < |s.conns[c].bts| && Next(s, c, a).conns[c].bts[k] != s.conns[c].bts[k]
      ensures ProperChange(s, c, k)
    {
      EnterChanges(s, c, a, k);
    }
    hide *;
  }

  lemma EnterNears(s: State, c: nat, a: Action)
    requires Enabled(s, c, a) && (a.Continue? || a.TryFails?) && Holding(s.conns[c])
    ensures 0 <= StepsLeft(Next(s, c, a).conns[c]) < StepsLeft(s.conns[c])
  {
    hide Holds, Ascending;
  }

  lemma EnterChanges(s: State, c: nat, a: Action, k: nat)
    requires Inv(s) && Enabled(s, c, a) && (a.Continue? || a.TryFails?) && k < |s.conns[c].bts|
    requires Next(s, c, a).conns[c].bts[k] != s.conns[c].bts[k]
    ensures ProperChange(s, c, k)
  {
    assert Holding(s.conns[c]);
    hide StepsLeft;
  }
}
