/** Replacement of user sessions: the pool of src/octopus/srv/ms.go, ForceUserOffline of
    src/octopus/srv/rds.go, and the login and logout of src/octopus/srv/mws.go. */
module UserSessions {

  import opened Bytes

  // ----- what the operations do to the pool -----

  /** The sessions stored under each user id, the uid field of every session, and which of them were
      closed. */
  datatype Pool<S> = Pool(sesses: map<int, S>, uid: map<S, int>, closed: set<S>)

  const OFFLINE := -1

  // The orders to other servers.
  const CUT_OFF: byte := 10
  const CUT_OFF_AND_PUSH: byte := 11

  function SetOffline<S>(p: Pool<S>, s: S): Pool<S> {
    p.(uid := p.uid[s := OFFLINE], closed := p.closed + {s})
  }

  /** The first half of AddSession for user u. */
  function Evicted<S>(p: Pool<S>, u: int): Pool<S> {
    if u in p.sesses then SetOffline(p, p.sesses[u]) else p
  }

  /** The second half of AddSession: s is stored under the id it has by then. */
  function Stored<S>(p: Pool<S>, s: S): Pool<S>
    requires s in p.uid
  {
    p.(sesses := p.sesses[p.uid[s] := s])
  }

  function Deleted<S>(p: Pool<S>, s: S, key: int): Pool<S> {
    p.(sesses := p.sesses - {key}, closed := p.closed + {s})
  }

  // ----- the pool -----

  class UsrSession {
    var uid: int
    var closed: bool

    constructor (uid: int)
      ensures this.uid == uid && !closed
    {
      this.uid, closed := uid, false;
    }

    method Close()
      modifies `closed
      ensures closed
    {
      closed := true;
    }
  }

  class UsrSessionPool {
    var Sesses: map<int, UsrSession>

    constructor ()
      ensures Sesses == map[]
    {
      Sesses := map[];
    }

    /** The pool together with a set of sessions that holds all stored ones. */
    ghost function View(all: set<UsrSession>): Pool<UsrSession>
      reads this, all
    {
      Pool(Sesses, map s | s in all :: s.uid, set s | s in all && s.closed)
    }

    method AddSession(s: UsrSession, ghost all: set<UsrSession>)
      requires s in all && Sesses.Values <= all
      modifies this, all
      ensures View(all) == Stored(Evicted(old(View(all)), old(s.uid)), s)
      ensures old(s.uid) in old(Sesses) ==>
                var replaced := old(Sesses)[old(s.uid)]; replaced.closed && replaced.uid == -1
      ensures forall t :: t in all && !(old(s.uid) in old(Sesses) && t == old(Sesses)[old(s.uid)]) ==>
                t.closed == old(t.closed) && t.uid == old(t.uid)
      ensures Sesses == old(Sesses)[s.uid := s]
      ensures Sesses.Values <= all
    {
      if s.uid in Sesses {
        var anotherSes := Sesses[s.uid];
        assert anotherSes in Sesses.Values;
        anotherSes.Close();
        anotherSes.uid := OFFLINE;
      }
      Sesses := Sesses[s.uid := s];
    }

    method RemoveSession(s: UsrSession, ghost all: set<UsrSession>)
      requires s in all && Sesses.Values <= all
      modifies this, s
      ensures View(all) == Deleted(old(View(all)), s, s.uid)
      ensures s.uid == old(s.uid) && s.closed && Sesses == old(Sesses) - {s.uid}
      ensures Sesses.Values <= all
    {
      s.Close();
      Sesses := Sesses - {s.uid};
    }

    /** logout: an evicted session leaves the pool alone. */
    method Logout(s: UsrSession, ghost all: set<UsrSession>)
      requires s in all && Sesses.Values <= all
      modifies this, s
      ensures View(all) == if old(s.uid) > 0 then Deleted(old(View(all)), s, old(s.uid)) else old(View(all))
      ensures s.uid == old(s.uid)
      ensures if s.uid > 0 then s.closed && Sesses == old(Sesses) - {s.uid}
              else s.closed == old(s.closed) && Sesses == old(Sesses)
      ensures Sesses.Values <= all
    {
      if s.uid > 0 {
        RemoveSession(s, all);
      }
    }

    /** ForceUserOffline for the mobile registered for the user and the one that asks. A stored session
        is closed, and loses its id when a mobile is registered; push says that another mobile's session
        is told first. A user who is not stored here is forwarded as an order to the other servers. */
    method ForceUserOffline(uid: int, mobile: string, calm: string, ghost all: set<UsrSession>)
      returns (push: bool, forward: Option<byte>)
      requires Sesses.Values <= all
      modifies all
      ensures View(all) == if uid !in old(Sesses) then old(View(all))
                           else if mobile != "" then SetOffline(old(View(all)), old(Sesses)[uid])
                           else old(View(all)).(closed := old(View(all)).closed + {old(Sesses)[uid]})
      ensures Sesses == old(Sesses)
      ensures uid in Sesses ==> Sesses[uid].closed
      ensures uid in Sesses ==> Sesses[uid].uid == if mobile != "" then -1 else old(Sesses[uid].uid)
      ensures forall t :: t in all && !(uid in Sesses && t == Sesses[uid]) ==>
                t.closed == old(t.closed) && t.uid == old(t.uid)
      ensures push <==> uid in old(Sesses) && mobile != "" && calm != mobile
      ensures forward == if uid in old(Sesses) || mobile == "" then None
                         else Some(if calm == mobile then 10 else 11)
    {
      push, forward := false, None;
      if mobile != "" {
        if uid in Sesses {
          var st := Sesses[uid];
          assert st in Sesses.Values;
          push := calm != mobile;
          st.uid := OFFLINE;
          st.Close();
        } else {
          forward := Some(if calm == mobile then CUT_OFF else CUT_OFF_AND_PUSH);
        }
      } else if uid in Sesses {
        var st := Sesses[uid];
        assert st in Sesses.Values;
        st.Close();
      }
    }
  }

  // ----- concurrent runs -----

  /** Who holds the lock of the pool, and how far it is. */
  datatype Lock<S> = Free | Adding(s: S, evicted: bool) | Removing(s: S, key: Option<int>)

  /** login: the id each session connected with. added: the sessions stored so far, oldest first.
      leaving: sessions whose logout has seen a positive id and has not yet removed them.
      forced: sessions that some call of ForceUserOffline has looked up. */
  datatype State<S> = State(pool: Pool<S>, login: map<S, int>, added: seq<S>, removed: set<S>,
                            leaving: set<S>, forced: set<S>, lock: Lock<S>)

  function Init<S>(): State<S> {
    State(Pool(map[], map[], {}), map[], [], {}, {}, {}, Free)
  }

  /** The steps of all goroutines. ForceUserOffline takes no lock; its lookup and its write are two
      steps, and so are the check of logout and each half of what happens under the lock. */
  datatype Action<S> =
    | Connect(s: S, u: int)
    | ForceRead(u: int)
    | ForceWrite(s: S)
    | ForceClose(s: S)
    | AddLock(s: S)
    | AddEvict
    | AddStore
    | LogoutCheck(s: S)
    | RemoveLock(s: S)
    | RemoveRead
    | RemoveDelete

  /** When a step can be taken: a session connects once and is added once. */
  predicate Enabled<S(==)>(st: State<S>, a: Action<S>) {
    match a
    case Connect(s, _) => s !in st.login
    case ForceRead(u) => u in st.pool.sesses
    case ForceWrite(s) => s in st.forced
    case ForceClose(s) => s in st.forced
    case AddLock(s) => st.lock.Free? && s in st.login && s !in st.added
    case AddEvict => st.lock.Adding? && !st.lock.evicted && st.lock.s in st.pool.uid
    case AddStore => st.lock.Adding? && st.lock.evicted && st.lock.s in st.pool.uid
    case LogoutCheck(s) => s in st.added && s !in st.removed && s in st.pool.uid && st.pool.uid[s] > 0
    case RemoveLock(s) => st.lock.Free? && s in st.leaving
    case RemoveRead => st.lock.Removing? && st.lock.key.None? && st.lock.s in st.pool.uid
    case RemoveDelete => st.lock.Removing? && st.lock.key.Some?
  }

  function Next<S>(st: State<S>, a: Action<S>): State<S>
    requires Enabled(st, a)
  {
    var p := st.pool;
    match a
    case Connect(s, u) => st.(pool := p.(uid := p.uid[s := u]), login := st.login[s := u])
    case ForceRead(u) => st.(forced := st.forced + {p.sesses[u]})
    case ForceWrite(s) => st.(pool := p.(uid := p.uid[s := OFFLINE]))
    case ForceClose(s) => st.(pool := p.(closed := p.closed + {s}))
    case AddLock(s) => st.(lock := Adding(s, false))
    case AddEvict => st.(pool := Evicted(p, p.uid[st.lock.s]), lock := Adding(st.lock.s, true))
    case AddStore => st.(pool := Stored(p, st.lock.s), added := st.added + [st.lock.s], lock := Free)
    case LogoutCheck(s) => st.(leaving := st.leaving + {s})
    case RemoveLock(s) => st.(lock := Removing(s, None))
    case RemoveRead => st.(lock := Removing(st.lock.s, Some(p.uid[st.lock.s])))
    case RemoveDelete =>
      st.(pool := Deleted(p, st.lock.s, st.lock.key.value), removed := st.removed + {st.lock.s},
          leaving := st.leaving - {st.lock.s}, lock := Free)
  }

  // ----- safety -----

  /** s is added, not removed, and has not lost its id. */
  ghost predicate Live<S>(st: State<S>, s: S) {
    s in st.added && s !in st.removed && s in st.pool.uid && st.pool.uid[s] > 0
  }

  /** Every live session is the one stored under its id. */
  ghost predicate LiveStored<S>(st: State<S>) {
    forall s :: s in st.added && Live(st, s) ==>
      st.pool.uid[s] in st.pool.sesses && st.pool.sesses[st.pool.uid[s]] == s
  }

  /** The id of a session is the one it connected with until it is set to -1, which happens only after
      the session was added; and sessions are stored under the id they connected with. */
  ghost predicate Ids<S>(st: State<S>) {
    && st.pool.uid.Keys == st.login.Keys
    && (forall s :: s in st.added ==> s in st.login)
    && (forall s :: s in st.login ==> st.pool.uid[s] == st.login[s] || (s in st.added && st.pool.uid[s] == OFFLINE))
    && (forall u :: u in st.pool.sesses ==> st.pool.sesses[u] in st.added && st.login[st.pool.sesses[u]] == u)
    && (forall s :: s in st.forced ==> s in st.added)
  }

  /** A session that a later login of the same user replaced has lost its id or is removed. */
  ghost predicate Superseded<S>(st: State<S>) {
    forall i, j :: 0 <= i < j < |st.added| && st.added[i] in st.login && st.added[j] in st.login
                && st.login[st.added[i]] == st.login[st.added[j]] > 0
                ==> !Live(st, st.added[i])
  }

  ghost predicate Locked<S>(st: State<S>)
    requires Ids(st)
  {
    && (forall s :: s in st.leaving ==> s in st.added && s !in st.removed)
    && match st.lock
       case Free => true
       case Adding(s, evicted) =>
         && s in st.login && s !in st.added
         && (evicted && st.login[s] in st.pool.sesses ==>
               st.pool.uid[st.pool.sesses[st.login[s]]] == OFFLINE)
       case Removing(s, key) =>
         && s in st.leaving && s in st.login
         && (key.Some? && key.value > 0 ==> key.value in st.pool.sesses && st.pool.sesses[key.value] == s)
         && (key.Some? && key.value <= 0 ==> st.pool.uid[s] <= 0)
  }

  ghost predicate Safe<S>(st: State<S>) {
    Ids(st) && LiveStored(st) && Superseded(st) && Locked(st)
  }

  /** The key that a removal read is the id of the login unless that was taken away. */
  ghost predicate Keys<S>(st: State<S>)
    requires Ids(st) && Locked(st)
  {
    && (forall s :: s in st.leaving ==> st.login[s] > 0)
    && (st.lock.Removing? && st.lock.key.Some? ==>
          st.lock.key.value == st.login[st.lock.s]
          || (st.lock.key.value == OFFLINE && st.pool.uid[st.lock.s] == OFFLINE))
  }

  /** A removed session that is still stored had lost its id before the removal read it. */
  ghost predicate Leftovers<S>(st: State<S>)
    requires Ids(st)
  {
    && (forall s :: s in st.removed ==> s in st.added)
    && (forall u :: u in st.pool.sesses && st.pool.sesses[u] in st.removed ==>
                      st.pool.uid[st.pool.sesses[u]] == OFFLINE)
  }

  /** A session of a user that is not stored any more is closed, and so are removed sessions and the one
      that the login at work has evicted. */
  ghost predicate Closings<S>(st: State<S>)
    requires Ids(st)
  {
    && (forall s :: s in st.removed ==> s in st.pool.closed)
    && (forall s :: s in st.added && st.login[s] > 0
                    && !(st.login[s] in st.pool.sesses && st.pool.sesses[st.login[s]] == s) ==>
                      s in st.pool.closed)
    && (st.lock.Adding? && st.lock.evicted && st.lock.s in st.login && st.login[st.lock.s] in st.pool.sesses ==>
          st.pool.sesses[st.login[st.lock.s]] in st.pool.closed)
  }

  /** A session is not stored once another session of the same user has been added. */
  ghost predicate Newest<S>(st: State<S>)
    requires Ids(st)
  {
    forall i, j :: 0 <= i < j < |st.added| && st.login[st.added[i]] == st.login[st.added[j]] ==>
      !(st.login[st.added[i]] in st.pool.sesses && st.pool.sesses[st.login[st.added[i]]] == st.added[i])
  }

  ghost predicate Invariant<S>(st: State<S>) {
    Safe(st) && Keys(st) && Leftovers(st) && Closings(st) && Newest(st)
  }

  lemma StepKeepsIds<S>(st: State<S>, a: Action<S>)
    requires Safe(st) && Enabled(st, a)
    ensures Ids(Next(st, a))
  {
  }

  lemma StepKeepsLiveStored<S>(st: State<S>, a: Action<S>)
    requires Safe(st) && Enabled(st, a)
    ensures LiveStored(Next(st, a))
  {
  }

  lemma StepKeepsSuperseded<S>(st: State<S>, a: Action<S>)
    requires Safe(st) && Enabled(st, a)
    ensures Superseded(Next(st, a))
  {
  }

  lemma StepKeepsLocked<S>(st: State<S>, a: Action<S>)
    requires Safe(st) && Enabled(st, a) && Ids(Next(st, a))
    ensures Locked(Next(st, a))
  {
  }

  lemma StepKeepsKeys<S>(st: State<S>, a: Action<S>)
    requires Invariant(st) && Enabled(st, a) && Ids(Next(st, a)) && Locked(Next(st, a))
    ensures Keys(Next(st, a))
  {
    hide LiveStored, Superseded, Leftovers;
  }

  lemma StepKeepsLeftovers<S>(st: State<S>, a: Action<S>)
    requires Invariant(st) && Enabled(st, a) && Ids(Next(st, a))
    ensures Leftovers(Next(st, a))
  {
    hide LiveStored, Superseded;
  }

  lemma StepKeepsClosings<S>(st: State<S>, a: Action<S>)
    requires Invariant(st) && Enabled(st, a) && Ids(Next(st, a))
    ensures Closings(Next(st, a))
  {
    hide LiveStored, Superseded, Leftovers;
  }

  lemma StepKeepsNewest<S>(st: State<S>, a: Action<S>)
    requires Invariant(st) && Enabled(st, a) && Ids(Next(st, a))
    ensures Newest(Next(st, a))
  {
    hide LiveStored, Superseded, Leftovers, Closings;
  }

  // ----- every run -----

  predicate Possible<S(==)>(st: State<S>, acts: seq<Action<S>>)
    decreases |acts|
  {
    |acts| > 0 ==> Enabled(st, acts[0]) && Possible(Next(st, acts[0]), acts[1..])
  }

  function After<S(==)>(st: State<S>, acts: seq<Action<S>>): State<S>
    requires Possible(st, acts)
    decreases |acts|
  {
    if |acts| == 0 then st else After(Next(st, acts[0]), acts[1..])
  }

  /** Uninterrupted, the steps of AddSession and of logout have the effect of the methods. */
  lemma AddUninterrupted<S>(st: State<S>, s: S)
    requires Enabled(st, AddLock(s)) && s in st.pool.uid
    ensures var acts := [AddLock(s), AddEvict, AddStore];
            Possible(st, acts) && After(st, acts).pool == Stored(Evicted(st.pool, st.pool.uid[s]), s)
  {
    var acts: seq<Action<S>> := [AddLock(s), AddEvict, AddStore];
    var st1 := Next(st, acts[0]);
    var st2 := Next(st1, acts[1]);
    var st3 := Next(st2, acts[2]);
    var a1, a2 := acts[1..], acts[2..];
    assert a2[1..] == [] && a1[1..] == a2;
    assert Possible(st3, []) && After(st3, []) == st3;
    assert Possible(st2, a2) && After(st2, a2) == st3;
    assert Possible(st1, a1) && After(st1, a1) == st3;
  }

  lemma LogoutUninterrupted<S>(st: State<S>, s: S)
    requires Enabled(st, LogoutCheck(s)) && st.lock.Free?
    ensures var acts := [LogoutCheck(s), RemoveLock(s), RemoveRead, RemoveDelete];
            Possible(st, acts) && After(st, acts).pool == Deleted(st.pool, s, st.pool.uid[s])
  {
    var acts: seq<Action<S>> := [LogoutCheck(s), RemoveLock(s), RemoveRead, RemoveDelete];
    var st1 := Next(st, acts[0]);
    var st2 := Next(st1, acts[1]);
    var st3 := Next(st2, acts[2]);
    var st4 := Next(st3, acts[3]);
    var a1, a2, a3 := acts[1..], acts[2..], acts[3..];
    assert a3[1..] == [] && a2[1..] == a3 && a1[1..] == a2;
    assert Possible(st4, []) && After(st4, []) == st4;
    assert Possible(st3, a3) && After(st3, a3) == st4;
    assert Possible(st2, a2) && After(st2, a2) == st4;
    assert Possible(st1, a1) && After(st1, a1) == st4;
  }

  lemma ForceUninterrupted<S>(st: State<S>, u: int)
    requires Enabled(st, ForceRead(u))
    ensures var s := st.pool.sesses[u];
            var acts := [ForceRead(u), ForceWrite(s), ForceClose(s)];
            Possible(st, acts) && After(st, acts).pool == SetOffline(st.pool, s)
  {
    var s := st.pool.sesses[u];
    var acts: seq<Action<S>> := [ForceRead(u), ForceWrite(s), ForceClose(s)];
    var st1 := Next(st, acts[0]);
    var st2 := Next(st1, acts[1]);
    var st3 := Next(st2, acts[2]);
    var a1, a2 := acts[1..], acts[2..];
    assert a2[1..] == [] && a1[1..] == a2;
    assert Possible(st3, []) && After(st3, []) == st3;
    assert Possible(st2, a2) && After(st2, a2) == st3;
    assert Possible(st1, a1) && After(st1, a1) == st3;
  }

  lemma {:induction false} StepsKeepSafe<S>(st: State<S>, acts: seq<Action<S>>)
    requires Invariant(st) && Possible(st, acts)
    ensures Invariant(After(st, acts))
    decreases |acts|
  {
    hide Ids, LiveStored, Superseded, Locked, Keys, Leftovers, Closings, Newest, Next, Enabled;
    if |acts| > 0 {
      StepKeepsIds(st, acts[0]);
      StepKeepsLiveStored(st, acts[0]);
      StepKeepsSuperseded(st, acts[0]);
      StepKeepsLocked(st, acts[0]);
      StepKeepsKeys(st, acts[0]);
      StepKeepsLeftovers(st, acts[0]);
      StepKeepsClosings(st, acts[0]);
      StepKeepsNewest(st, acts[0]);
      StepsKeepSafe(Next(st, acts[0]), acts[1..]);
    }
  }

  /** In every interleaving of logins, forced offlines and logouts a live session is the one stored
      under its id, and no later login has that id. */
  lemma EveryRunIsSafe<S>(acts: seq<Action<S>>, i: nat)
    requires Possible(Init(), acts)
    requires i < |After(Init(), acts).added| && Live(After(Init(), acts), After(Init(), acts).added[i])
    ensures var st := After(Init(), acts);
            var s := st.added[i];
            && st.pool.uid[s] in st.pool.sesses && st.pool.sesses[st.pool.uid[s]] == s
            && forall j :: i < j < |st.added| && st.added[j] in st.login ==>
                             st.login[st.added[j]] != st.pool.uid[s]
  {
    StepsKeepSafe(Init(), acts);
  }

  /** In every interleaving a session that a later login of the same user replaced is closed. */
  lemma ReplacedIsClosed<S>(acts: seq<Action<S>>, i: nat, j: nat)
    requires Possible(Init(), acts) && i < j < |After(Init(), acts).added|
    requires var st := After(Init(), acts);
             && st.added[i] in st.login && st.added[j] in st.login
             && st.login[st.added[i]] == st.login[st.added[j]] > 0
    ensures After(Init(), acts).added[i] in After(Init(), acts).pool.closed
  {
    StepsKeepSafe(Init(), acts);
  }

  /** In every interleaving every removed session is closed. */
  lemma RemovedIsClosed<S>(acts: seq<Action<S>>, s: S)
    requires Possible(Init(), acts) && s in After(Init(), acts).removed
    ensures s in After(Init(), acts).pool.closed
  {
    StepsKeepSafe(Init(), acts);
  }

  /** A logout takes out no entry of another session under a positive id, although other sessions may
      be added between its check and its removal. */
  lemma LogoutSparesOthers<S>(acts: seq<Action<S>>, u: int)
    requires Possible(Init(), acts)
    requires var st := After(Init(), acts);
             Enabled(st, RemoveDelete) && u > 0 && u in st.pool.sesses && st.pool.sesses[u] != st.lock.s
    ensures var st := After(Init(), acts);
            var next := Next(st, RemoveDelete);
            u in next.pool.sesses && next.pool.sesses[u] == st.pool.sesses[u]
  {
    StepsKeepSafe(Init(), acts);
  }

  /** Of one user at most one session is live. */
  lemma AtMostOneLive<S>(acts: seq<Action<S>>, s: S, t: S)
    requires Possible(Init(), acts)
    requires var st := After(Init(), acts);
             Live(st, s) && Live(st, t) && st.pool.uid[s] == st.pool.uid[t]
    ensures s == t
  {
    StepsKeepSafe(Init(), acts);
  }

  /** In every interleaving the stored session of a user is dead, so that messages for the user go to
      a session that is gone, if and only if its id was taken away. */
  lemma DeadEntries<S>(acts: seq<Action<S>>, u: int)
    requires Possible(Init(), acts)
    requires u > 0 && u in After(Init(), acts).pool.sesses
    ensures var st := After(Init(), acts);
            var s := st.pool.sesses[u];
            s in st.pool.uid && (!Live(st, s) <==> st.pool.uid[s] == OFFLINE)
  {
    StepsKeepSafe(Init(), acts);
  }

  /** In every interleaving the removal of a session leaves the session's own entry in the pool if and
      only if the id that it read had been taken away. */
  lemma RemovalLeavesEntry<S>(acts: seq<Action<S>>, u: int)
    requires Possible(Init(), acts)
    requires var st := After(Init(), acts);
             Enabled(st, RemoveDelete) && u > 0 && u in st.pool.sesses && st.pool.sesses[u] == st.lock.s
    ensures var st := After(Init(), acts);
            u in Next(st, RemoveDelete).pool.sesses <==> st.lock.key == Some(OFFLINE)
  {
    StepsKeepSafe(Init(), acts);
  }

  /** In every interleaving an entry under a positive id is changed by two steps only: a login of the
      same user, and the removal that read the id. */
  lemma EntryChanges<S>(acts: seq<Action<S>>, a: Action<S>, u: int)
    requires Possible(Init(), acts)
    requires var st := After(Init(), acts);
             Enabled(st, a) && u > 0 && u in st.pool.sesses
    ensures var st := After(Init(), acts);
            (u !in Next(st, a).pool.sesses || Next(st, a).pool.sesses[u] != st.pool.sesses[u])
            <==> (a == AddStore && st.pool.uid[st.lock.s] == u) || (a == RemoveDelete && st.lock.key.value == u)
  {
    StepsKeepSafe(Init(), acts);
  }

  /** A logout cannot begin for a session whose id was taken away: the entry of one that was forced
      offline stays. */
  lemma ForcedEntryStays<S>(s: S, u: int)
    requires u > 0
    ensures var acts := [Connect(s, u), AddLock(s), AddEvict, AddStore, ForceRead(u), ForceWrite(s)];
            && Possible(Init(), acts)
            && After(Init(), acts).pool.sesses == map[u := s]
            && After(Init(), acts).pool.uid == map[s := OFFLINE]
            && !Enabled(After(Init(), acts), LogoutCheck(s))
  {
    var acts: seq<Action<S>> := [Connect(s, u), AddLock(s), AddEvict, AddStore, ForceRead(u), ForceWrite(s)];
    var st0: State<S> := Init();
    var st1 := Next(st0, acts[0]);
    var st2 := Next(st1, acts[1]);
    var st3 := Next(st2, acts[2]);
    var st4 := Next(st3, acts[3]);
    var st5 := Next(st4, acts[4]);
    var st6 := Next(st5, acts[5]);
    var a1, a2, a3, a4, a5 := acts[1..], acts[2..], acts[3..], acts[4..], acts[5..];
    assert a5[1..] == [] && a4[1..] == a5 && a3[1..] == a4 && a2[1..] == a3 && a1[1..] == a2;
    assert Possible(st6, []) && After(st6, []) == st6;
    assert Possible(st5, a5) && After(st5, a5) == st6;
    assert Possible(st4, a4) && After(st4, a4) == st6;
    assert Possible(st3, a3) && After(st3, a3) == st6;
    assert Possible(st2, a2) && After(st2, a2) == st6;
    assert Possible(st1, a1) && After(st1, a1) == st6;
  }
}
