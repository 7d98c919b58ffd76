/** What every interleaving keeps, and exactly which steps break it. */
module Lifetime {
  import opened Options
  import opened Notifier

  // ----- the invariant -----

  /** ntf_refcnt is the server's own reference and the handlers inside. */
  ghost predicate Counted(s: State) {
    forall n :: n in s.nets ==> s.nets[n].refcnt == Own(s.nets[n]) + |InFlight(s.handlers, n)|
  }

  /** A pointer is to a live server with a reference for everyone who is about to drop one, unless it is about to be
      cleared; then its server is freed, and nobody has a reference. */
  ghost predicate NetSane(net: Net, threads: map<ServerId, nat>, freed: set<ServerId>, droppers: set<CallId>) {
    match net.serv
    case None => !Holding(net.control) && droppers == {}
    case Some(x) =>
      && x in threads
      && if net.control.Clearing? then x in freed && threads[x] == 0 && droppers == {}
         else x !in freed && threads[x] >= 1 && threads[x] >= |droppers| + if Holding(net.control) then 1 else 0
  }

  ghost predicate NetsSane(s: State) {
    forall n :: n in s.nets ==> NetSane(s.nets[n], s.threads, s.freed, Droppers(s.calls, n))
  }

  ghost predicate ServersDistinct(s: State) {
    forall n, m :: n in s.nets && m in s.nets && n != m && s.nets[n].serv.Some? ==> s.nets[n].serv != s.nets[m].serv
  }

  /** Every server that is not freed is some namespace's. */
  ghost predicate NoneLost(s: State) {
    && (forall x :: x in s.threads && x !in s.freed ==> PointedTo(s, x))
    && (forall x :: x in s.freed ==> x in s.threads)
  }

  predicate PastWait(c: Control) {
    c.Freeing? || c.Clearing?
  }

  /** A handler that has seen a server still has it, and nobody is past the wait. */
  ghost predicate HandlersSafe(s: State) {
    forall h :: h in s.handlers ==>
      var n := s.handlers[h].net;
      && n in s.nets && s.nets[n].serv.Some? && !PastWait(s.nets[n].control)
      && (s.handlers[h].pc.Using? ==> s.nets[n].serv == Some(s.handlers[h].pc.s))
  }

  ghost predicate Inv(s: State) {
    Counted(s) && NetsSane(s) && ServersDistinct(s) && NoneLost(s) && HandlersSafe(s) && !s.misuse
  }

  predicate Registrant(net: Net) {
    net.serv.Some? && match net.control
    case Idle => true
    case Attaching => true
    case Registered => true
    case Shutting => true
    case Released => true
    case _ => false
  }

  /** Namespaces whose server has been counted as a user of the notifier and not been discounted yet. */
  ghost function Registrants(s: State): set<NetId> {
    set n | n in s.nets && Registrant(s.nets[n])
  }

  /** The notifier has one user per such namespace, and is registered if it has users and not if it has none, unless
      somebody is about to see to it. */
  ghost predicate Shared(s: State) {
    s.users == |Registrants(s)| && !Misheard(s)
  }

  lemma InitKeeps(s: State)
    requires Init(s)
    ensures Inv(s) && Shared(s)
  {
    assert Registrants(s) == {};
  }

  lemma CountedAt(s: State, n: NetId)
    requires Inv(s) && n in s.nets
    ensures s.nets[n].refcnt == Own(s.nets[n]) + |InFlight(s.handlers, n)|
  {
  }

  lemma InvUnbroken(s: State)
    requires Inv(s) && Shared(s)
    ensures !Broken(s)
  {
    hide Counted, ServersDistinct;
    assert Counted(s);
    forall n | n in s.nets ensures !Astray(s, n) {
      assert NetSane(s.nets[n], s.threads, s.freed, Droppers(s.calls, n));
      CountedAt(s, n);
    }
  }

  // ----- counting -----

  lemma InFlightAdd(hs: map<HandlerId, Handler>, h: HandlerId, n: NetId, pc: Pc, m: NetId)
    requires h !in hs
    ensures |InFlight(hs[h := Handler(n, pc)], m)| == |InFlight(hs, m)| + if m == n then 1 else 0
  {
    var hs' := hs[h := Handler(n, pc)];
    assert InFlight(hs', m) == InFlight(hs, m) + if m == n then {h} else {};
  }

  lemma InFlightSome(hs: map<HandlerId, Handler>, h: HandlerId)
    requires h in hs
    ensures |InFlight(hs, hs[h].net)| >= 1
  {
    assert h in InFlight(hs, hs[h].net);
  }

  lemma InFlightMove(hs: map<HandlerId, Handler>, h: HandlerId, pc: Pc, m: NetId)
    requires h in hs
    ensures InFlight(hs[h := hs[h].(pc := pc)], m) == InFlight(hs, m)
  {
  }

  lemma InFlightDrop(hs: map<HandlerId, Handler>, h: HandlerId, m: NetId)
    requires h in hs
    ensures |InFlight(hs - {h}, m)| == |InFlight(hs, m)| - if m == hs[h].net then 1 else 0
  {
    assert InFlight(hs - {h}, m) == InFlight(hs, m) - if m == hs[h].net then {h} else {};
  }

  lemma DroppersJoin(calls: map<CallId, Call>, c: CallId, n: NetId)
    requires c !in calls
    ensures forall m :: m != n ==> Droppers(calls[c := Call(n, Dropping)], m) == Droppers(calls, m)
    ensures |Droppers(calls[c := Call(n, Dropping)], n)| == |Droppers(calls, n)| + 1
  {
    var calls' := calls[c := Call(n, Dropping)];
    assert Droppers(calls', n) == Droppers(calls, n) + {c};
  }

  lemma DroppersLeave(calls: map<CallId, Call>, c: CallId, n: NetId)
    requires c in calls && calls[c] == Call(n, Dropping)
    ensures forall m :: m != n ==> Droppers(calls - {c}, m) == Droppers(calls, m)
    ensures |Droppers(calls - {c}, n)| == |Droppers(calls, n)| - 1
    ensures Droppers(calls, n) != {}
  {
    assert c in Droppers(calls, n);
    assert Droppers(calls - {c}, n) == Droppers(calls, n) - {c};
  }

  /** A call that comes or goes without a reference. */
  lemma DroppersStay(calls: map<CallId, Call>, c: CallId, call: Call)
    requires !call.pc.Dropping?
    ensures c !in calls ==> forall m :: Droppers(calls[c := call], m) == Droppers(calls, m)
    ensures c in calls && calls[c] == call ==> forall m :: Droppers(calls - {c}, m) == Droppers(calls, m)
  {
  }

  /** With a count of zero and no reference of the server's own, nobody is inside. */
  lemma NobodyInside(s: State, n: NetId)
    requires Inv(s) && n in s.nets && s.nets[n].refcnt == 0
    ensures forall h :: h in s.handlers ==> s.handlers[h].net != n
    ensures Own(s.nets[n]) == 0
  {
    forall h | h in s.handlers ensures s.handlers[h].net != n {
      InFlightSome(s.handlers, h);
    }
  }

  /** Whoever gets in finds a server. */
  lemma EnteredLive(s: State, n: NetId)
    requires Inv(s) && n in s.nets && s.nets[n].refcnt != 0
    ensures s.nets[n].serv.Some? && !PastWait(s.nets[n].control)
  {
    if Own(s.nets[n]) == 0 {
      assert InFlight(s.handlers, n) != {};
      var h :| h in InFlight(s.handlers, n);
    }
  }

  // ----- steps of handlers -----

  /** What handlers do not touch. */
  ghost predicate SameServers(s: State, t: State) {
    && t.nets.Keys == s.nets.Keys && t.calls == s.calls && t.threads == s.threads && t.freed == s.freed
    && (forall n :: n in s.nets ==> t.nets[n].serv == s.nets[n].serv && t.nets[n].control == s.nets[n].control)
  }

  lemma SameServersKeep(s: State, t: State)
    requires NetsSane(s) && ServersDistinct(s) && NoneLost(s) && SameServers(s, t)
    ensures NetsSane(t) && ServersDistinct(t) && NoneLost(t)
  {
    hide Droppers;
    forall x | x in t.threads && x !in t.freed ensures PointedTo(t, x) {
      assert PointedTo(s, x);
      var n :| n in s.nets && s.nets[n].serv == Some(x);
      assert n in t.nets && t.nets[n].serv == Some(x);
    }
  }

  lemma HandlerStepServers(s: State, a: Step)
    requires Enabled(s, a) && HandlerStep(a)
    ensures SameServers(s, Next(s, a))
  {
    hide SvcGet, SvcDestroy, Allocated, Due, Holders, WithControl, CreateNext, DestroyNext;
  }

  lemma EventCounted(s: State, a: Step)
    requires Counted(s) && Enabled(s, a) && a.Event?
    ensures Counted(Next(s, a))
  {
    hide InFlight, CreateNext, DestroyNext;
    var t := Next(s, a);
    forall n | n in t.nets ensures t.nets[n].refcnt == Own(t.nets[n]) + |InFlight(t.handlers, n)| {
      InFlightAdd(s.handlers, a.h, a.net, Entered, n);
    }
  }

  lemma LeaveCounted(s: State, a: Step)
    requires Counted(s) && Enabled(s, a) && a.Leave?
    ensures Counted(Next(s, a))
  {
    hide InFlight, CreateNext, DestroyNext;
    var t := Next(s, a);
    forall n | n in t.nets ensures t.nets[n].refcnt == Own(t.nets[n]) + |InFlight(t.handlers, n)| {
      InFlightDrop(s.handlers, a.h, n);
    }
  }

  lemma MoveCounted(s: State, h: HandlerId, pc: Pc)
    requires Counted(s) && h in s.handlers
    ensures Counted(WithPc(s, h, pc))
  {
    hide InFlight;
    var t := WithPc(s, h, pc);
    forall n | n in t.nets ensures t.nets[n].refcnt == Own(t.nets[n]) + |InFlight(t.handlers, n)| {
      InFlightMove(s.handlers, h, pc, n);
    }
  }

  lemma EventKeeps(s: State, a: Step)
    requires Inv(s) && Enabled(s, a) && a.Event?
    ensures Inv(Next(s, a))
  {
    if s.nets[a.net].refcnt != 0 {
      EnteredLive(s, a.net);
    }
    hide InFlight, ServersDistinct, Counted, NetsSane, NoneLost;
    HandlerStepServers(s, a);
    SameServersKeep(s, Next(s, a));
    EventCounted(s, a);
  }

  lemma LeaveKeeps(s: State, a: Step)
    requires Inv(s) && Enabled(s, a) && a.Leave?
    ensures Inv(Next(s, a))
  {
    hide InFlight, ServersDistinct, Counted, NetsSane, NoneLost, CreateNext, DestroyNext;
    HandlerStepServers(s, a);
    SameServersKeep(s, Next(s, a));
    LeaveCounted(s, a);
  }

  lemma MoveKeeps(s: State, a: Step)
    requires Inv(s) && Enabled(s, a) && (a.Check? || a.Load? || a.Done?)
    ensures Inv(Next(s, a))
  {
    hide InFlight, ServersDistinct, Counted, NetsSane, NoneLost, CreateNext, DestroyNext;
    HandlerStepServers(s, a);
    SameServersKeep(s, Next(s, a));
    var t := Next(s, a);
    assert t == WithPc(s, a.h, t.handlers[a.h].pc);
    MoveCounted(s, a.h, t.handlers[a.h].pc);
  }

  // ----- steps of calls -----

  ghost predicate Empty(s: State, n: NetId) {
    forall h :: h in s.handlers ==> s.handlers[h].net != n
  }

  /** Only what is about namespace `n` and its server changes, and the pointer stays. */
  ghost predicate OnlyAt(s: State, t: State, n: NetId) {
    && n in s.nets && t.nets.Keys == s.nets.Keys && t.nets[n].serv == s.nets[n].serv
    && (forall m :: m in s.nets && m != n ==> t.nets[m] == s.nets[m])
    && t.handlers == s.handlers && t.misuse == s.misuse
    && t.threads.Keys == s.threads.Keys
    && (forall x :: x in s.threads && s.nets[n].serv != Some(x) ==> t.threads[x] == s.threads[x])
    && (forall x :: s.nets[n].serv != Some(x) ==> (x in t.freed <==> x in s.freed))
    && (forall m :: m != n ==> Droppers(t.calls, m) == Droppers(s.calls, m))
  }

  lemma OnlyAtNets(s: State, t: State, n: NetId)
    requires NetsSane(s) && ServersDistinct(s) && OnlyAt(s, t, n)
    requires NetSane(t.nets[n], t.threads, t.freed, Droppers(t.calls, n))
    ensures NetsSane(t) && ServersDistinct(t)
  {
    hide Droppers;
    forall m | m in t.nets ensures NetSane(t.nets[m], t.threads, t.freed, Droppers(t.calls, m)) {
      if m != n {
        assert NetSane(s.nets[m], s.threads, s.freed, Droppers(s.calls, m));
      }
    }
  }

  lemma OnlyAtServers(s: State, t: State, n: NetId)
    requires NetsSane(s) && NoneLost(s) && OnlyAt(s, t, n)
    requires NetSane(t.nets[n], t.threads, t.freed, Droppers(t.calls, n))
    ensures NoneLost(t)
  {
    hide Droppers;
    assert NetSane(s.nets[n], s.threads, s.freed, Droppers(s.calls, n));
    forall x | x in t.threads && x !in t.freed ensures PointedTo(t, x) {
      if s.nets[n].serv == Some(x) {
        assert n in t.nets && t.nets[n].serv == Some(x);
      } else {
        assert PointedTo(s, x);
        var m :| m in s.nets && s.nets[m].serv == Some(x);
        assert m in t.nets && t.nets[m].serv == Some(x);
      }
    }
  }

  lemma OnlyAtCounted(s: State, t: State, n: NetId)
    requires Counted(s) && OnlyAt(s, t, n)
    requires t.nets[n].refcnt - Own(t.nets[n]) == s.nets[n].refcnt - Own(s.nets[n])
    ensures Counted(t)
  {
    hide InFlight, Droppers;
  }

  lemma OnlyAtHandlers(s: State, t: State, n: NetId)
    requires HandlersSafe(s) && OnlyAt(s, t, n)
    requires PastWait(t.nets[n].control) ==> PastWait(s.nets[n].control) || Empty(s, n)
    ensures HandlersSafe(t) && t.misuse == s.misuse
  {
    hide Droppers;
  }

  /** Then what is left to show is about `n`. */
  lemma OnlyAtKeeps(s: State, t: State, n: NetId)
    requires Inv(s) && OnlyAt(s, t, n)
    requires NetSane(t.nets[n], t.threads, t.freed, Droppers(t.calls, n))
    requires t.nets[n].refcnt - Own(t.nets[n]) == s.nets[n].refcnt - Own(s.nets[n])
    requires PastWait(t.nets[n].control) ==> PastWait(s.nets[n].control) || Empty(s, n)
    ensures Inv(t)
  {
    hide InFlight, Droppers, NetsSane, NoneLost, ServersDistinct, NetSane, Counted, HandlersSafe, OnlyAt;
    OnlyAtNets(s, t, n);
    OnlyAtServers(s, t, n);
    OnlyAtCounted(s, t, n);
    OnlyAtHandlers(s, t, n);
  }

  lemma SaneAt(s: State, n: NetId)
    requires Inv(s) && n in s.nets
    ensures NetSane(s.nets[n], s.threads, s.freed, Droppers(s.calls, n))
  {
  }

  /** Nothing but the record of `n` and the notifier changes. */
  lemma NetChangeKeeps(s: State, net: Net, n: NetId, users: int, listening: bool)
    requires Inv(s) && n in s.nets
    requires net.serv == s.nets[n].serv && !net.control.Clearing? && !s.nets[n].control.Clearing?
    requires Holding(net.control) ==> Holding(s.nets[n].control) || Holders(s, n) > Due(s, n)
    requires net.refcnt - Own(net) == s.nets[n].refcnt - Own(s.nets[n])
    requires PastWait(net.control) ==> PastWait(s.nets[n].control) || Empty(s, n)
    ensures Inv(WithNet(s, n, net).(users := users, listening := listening))
  {
    hide Inv, Droppers;
    SaneAt(s, n);
    OnlyAtKeeps(s, WithNet(s, n, net).(users := users, listening := listening), n);
  }

  /** One call comes or goes that has no reference to drop. */
  lemma CallKeeps(s: State, calls: map<CallId, Call>)
    requires Inv(s) && forall m :: Droppers(calls, m) == Droppers(s.calls, m)
    ensures Inv(s.(calls := calls))
  {
    var t := s.(calls := calls);
    hide InFlight, Droppers, NetSane;
    assert NetsSane(t) by {
      hide Counted, ServersDistinct, HandlersSafe, NoneLost;
    }
    hide NetsSane;
    assert NoneLost(t) by {
      hide Counted, ServersDistinct, HandlersSafe;
      forall x | x in t.threads && x !in t.freed ensures PointedTo(t, x) {
        assert PointedTo(s, x);
      }
    }
  }

  lemma GotKeeps(s: State, n: NetId)
    requires Inv(s) && Live(s, n)
    ensures Inv(SvcGet(s, n))
  {
    hide Inv, Droppers;
    SaneAt(s, n);
    OnlyAtKeeps(s, SvcGet(s, n), n);
  }

  /** The shutdown drops the last reference. */
  lemma FreedKeeps(s: State, n: NetId)
    requires Inv(s) && At(s, n, Freeing) && Holders(s, n) == 1
    ensures Inv(WithControl(SvcDestroy(s, n), n, Clearing))
  {
    hide Inv, Droppers;
    SaneAt(s, n);
    OnlyAtKeeps(s, WithControl(SvcDestroy(s, n), n, Clearing), n);
  }

  lemma DroppedKeeps(s: State, n: NetId, c: CallId)
    requires Inv(s) && n in s.nets && c in s.calls && s.calls[c] == Call(n, Dropping) && Holders(s, n) != 1
    ensures Inv(Returned(SvcDestroy(s, n), c))
  {
    hide Inv, Droppers;
    SaneAt(s, n);
    DroppersLeave(s.calls, c, n);
    OnlyAtKeeps(s, Returned(SvcDestroy(s, n), c), n);
  }

  /** One more call is about to drop a reference. */
  lemma JoinedKeeps(s: State, n: NetId, c: CallId)
    requires Inv(s) && n in s.nets && c !in s.calls && Holders(s, n) > Due(s, n)
    ensures Inv(s.(calls := s.calls[c := Call(n, Dropping)]))
  {
    hide Inv, Droppers;
    SaneAt(s, n);
    DroppersJoin(s.calls, c, n);
    OnlyAtKeeps(s, s.(calls := s.calls[c := Call(n, Dropping)]), n);
  }

  lemma LookKeeps(s: State, a: Step)
    requires Inv(s) && Enabled(s, a) && a.Look?
    ensures Inv(Next(s, a))
  {
    hide Inv, Droppers, HandlerNext, DestroyNext, MakeNext;
    var calls := Next(s, a).calls;
    DroppersStay(s.calls, a.c, calls[a.c]);
    CallKeeps(s, calls);
  }

  lemma GetKeeps(s: State, a: Step)
    requires Inv(s) && Enabled(s, a) && a.Get? && Orderly(s, a)
    ensures Inv(Next(s, a))
  {
    hide Inv, Droppers, HandlerNext, DestroyNext, MakeNext;
    GotKeeps(s, s.calls[a.c].net);
    DroppersStay(s.calls, a.c, s.calls[a.c]);
    CallKeeps(SvcGet(s, s.calls[a.c].net), s.calls - {a.c});
  }

  lemma ReadKeeps(s: State, a: Step)
    requires Inv(s) && Enabled(s, a) && a.Read?
    ensures Inv(Next(s, a))
  {
    hide Inv, Droppers, HandlerNext, CreateNext;
    SaneAt(s, a.net);
    if Holders(s, a.net) == 1 {
      NetChangeKeeps(s, s.nets[a.net].(control := Shutting), a.net, s.users, s.listening);
    } else {
      JoinedKeeps(s, a.net, a.c);
    }
  }

  /** The steps of a call that is making a server or taking one down which leave the server alone. */
  predicate MakeStep(a: Step) {
    a.Bind? || a.Register? || a.Attach? || a.Count? || a.Up?
  }

  predicate ShutStep(a: Step) {
    a.Release? || a.Unregister? || a.Detach? || a.Wait?
  }

  lemma MakeStepKeeps(s: State, a: Step)
    requires Inv(s) && Enabled(s, a) && MakeStep(a) && Orderly(s, a)
    ensures Inv(Next(s, a))
  {
    hide Inv, Droppers, SvcGet, SvcDestroy, HandlerNext, SeekNext, DestroyNext;
    SaneAt(s, a.net);
    var t := Next(s, a);
    NetChangeKeeps(s, t.nets[a.net], a.net, t.users, t.listening);
  }

  lemma ShutStepKeeps(s: State, a: Step)
    requires Inv(s) && Enabled(s, a) && ShutStep(a) && Orderly(s, a)
    ensures Inv(Next(s, a))
  {
    hide Inv, Droppers, SvcGet, SvcDestroy, HandlerNext, CreateNext;
    SaneAt(s, a.net);
    if a.Wait? {
      NobodyInside(s, a.net);
    }
    var t := Next(s, a);
    NetChangeKeeps(s, t.nets[a.net], a.net, t.users, t.listening);
  }

  lemma ClearedNets(s: State, n: NetId, c: Control)
    requires NetsSane(s) && ServersDistinct(s) && NoneLost(s)
    requires n in s.nets && !Live(s, n) && (c.Idle? || c.Clearing?)
    ensures var t := WithNet(s, n, s.nets[n].(serv := None, control := c));
            NetsSane(t) && ServersDistinct(t) && NoneLost(t)
  {
    hide Droppers;
    var t := WithNet(s, n, s.nets[n].(serv := None, control := c));
    forall m | m in t.nets ensures NetSane(t.nets[m], t.threads, t.freed, Droppers(t.calls, m)) {
      assert NetSane(s.nets[m], s.threads, s.freed, Droppers(s.calls, m));
    }
    hide NetSane, NetsSane;
    forall x | x in t.threads && x !in t.freed ensures PointedTo(t, x) {
      assert PointedTo(s, x);
      var m :| m in s.nets && s.nets[m].serv == Some(x);
      assert m in t.nets && t.nets[m].serv == Some(x);
    }
  }

  /** A pointer to no live server may be cleared. */
  lemma ClearedKeeps(s: State, n: NetId, c: Control)
    requires Inv(s) && n in s.nets && !Live(s, n) && (c.Idle? || c.Clearing?)
    ensures Inv(WithNet(s, n, s.nets[n].(serv := None, control := c)))
  {
    hide InFlight, Droppers, NetsSane, ServersDistinct, NoneLost;
    SaneAt(s, n);
    ClearedNets(s, n, c);
    hide NetSane;
  }

  lemma NewNets(s: State, n: NetId, f: ServerId)
    requires NetsSane(s) && ServersDistinct(s) && NoneLost(s)
    requires n in s.nets && s.nets[n].serv.None? && s.nets[n].control.Idle? && f !in s.threads
    ensures NetsSane(Allocated(s, n, true, f)) && ServersDistinct(Allocated(s, n, true, f))
  {
    hide Droppers;
    var t := Allocated(s, n, true, f);
    forall m | m in t.nets ensures NetSane(t.nets[m], t.threads, t.freed, Droppers(t.calls, m)) {
      assert NetSane(s.nets[m], s.threads, s.freed, Droppers(s.calls, m));
    }
  }

  lemma NewPointed(s: State, n: NetId, f: ServerId)
    requires NoneLost(s) && n in s.nets && s.nets[n].serv.None? && f !in s.threads
    ensures NoneLost(Allocated(s, n, true, f))
  {
    var t := Allocated(s, n, true, f);
    forall x | x in t.threads && x !in t.freed ensures PointedTo(t, x) {
      if x == f {
        assert n in t.nets && t.nets[n].serv == Some(f);
      } else {
        assert PointedTo(s, x);
        var m :| m in s.nets && s.nets[m].serv == Some(x);
        assert m in t.nets && t.nets[m].serv == Some(x);
      }
    }
  }

  /** A new server for a namespace that has none. */
  lemma NewKeeps(s: State, n: NetId, f: ServerId)
    requires Inv(s) && n in s.nets && s.nets[n].serv.None? && s.nets[n].control.Idle? && f !in s.threads
    ensures Inv(Allocated(s, n, true, f))
  {
    hide InFlight, Droppers, NetsSane, ServersDistinct, NoneLost;
    NewNets(s, n, f);
    NewPointed(s, n, f);
  }

  lemma AllocKeeps(s: State, a: Step)
    requires Inv(s) && Enabled(s, a) && a.Alloc? && Orderly(s, a)
    ensures Inv(Next(s, a))
  {
    hide HandlerNext, DestroyNext, MakeNext;
    var n := s.calls[a.c].net;
    hide Inv, Droppers;
    SaneAt(s, n);
    if a.memory {
      NewKeeps(s, n, a.id);
    } else {
      ClearedKeeps(s, n, s.nets[n].control);
    }
    DroppersStay(s.calls, a.c, s.calls[a.c]);
    CallKeeps(Allocated(s, n, a.memory, a.id), s.calls - {a.c});
  }

  /** The steps of nfsd_destroy, and one more thread. */
  lemma DestroyStepKeeps(s: State, a: Step)
    requires Inv(s) && Enabled(s, a) && (a.Thread? || a.Drop? || a.Free? || a.Clear?) && Orderly(s, a)
    ensures Inv(Next(s, a))
  {
    hide Inv, Droppers, SvcGet, SvcDestroy, Allocated, HandlerNext;
    var n := if a.Drop? then s.calls[a.c].net else a.net;
    SaneAt(s, n);
    match a
    case Thread(_) => GotKeeps(s, n);
    case Drop(_) => DroppedKeeps(s, n, a.c);
    case Free(_) => FreedKeeps(s, n);
    case Clear(_) => ClearedKeeps(s, n, Idle);
  }

  /** Every orderly step of every actor keeps the invariant. */
  lemma StepKeeps(s: State, a: Step)
    requires Inv(s) && Enabled(s, a) && Orderly(s, a)
    ensures Inv(Next(s, a))
  {
    hide Inv, Next, Enabled, Orderly;
    match a
    case Event(_, _, _) => EventKeeps(s, a);
    case Check(_) => MoveKeeps(s, a);
    case Load(_) => MoveKeeps(s, a);
    case Done(_) => MoveKeeps(s, a);
    case Leave(_) => LeaveKeeps(s, a);
    case Look(_, _) => LookKeeps(s, a);
    case Get(_) => GetKeeps(s, a);
    case Alloc(_, _, _) => AllocKeeps(s, a);
    case Read(_, _) => ReadKeeps(s, a);
    case Thread(_) => DestroyStepKeeps(s, a);
    case Drop(_) => DestroyStepKeeps(s, a);
    case Free(_) => DestroyStepKeeps(s, a);
    case Clear(_) => DestroyStepKeeps(s, a);
    case _ => if MakeStep(a) { MakeStepKeeps(s, a); } else { ShutStepKeeps(s, a); }
  }

  // ----- the shared notifier -----

  /** The namespace that a call's step is about. */
  function NetOf(s: State, a: Step): NetId
    requires Enabled(s, a) && !HandlerStep(a)
  {
    if a.Get? || a.Alloc? || a.Drop? then s.calls[a.c].net else a.net
  }

  /** The records of other namespaces, and the handlers, stay. */
  ghost predicate Framed(s: State, t: State, n: NetId) {
    && n in s.nets && (forall m :: m in t.nets <==> m in s.nets)
    && (forall m :: m in s.nets && m != n ==> t.nets[m] == s.nets[m])
    && t.handlers == s.handlers
  }

  lemma SeekFrame(s: State, a: Step)
    requires Enabled(s, a) && SeekStep(a)
    ensures Framed(s, Next(s, a), NetOf(s, a))
  {
    hide Droppers, HandlerNext, MakeNext, DestroyNext, SvcGet, SvcDestroy, Holders, Due, Live;
  }

  lemma CreateFrame(s: State, a: Step)
    requires Enabled(s, a) && CreateStep(a)
    ensures Framed(s, Next(s, a), NetOf(s, a))
  {
    hide Droppers, HandlerNext, SeekNext, DestroyNext, SvcGet, SvcDestroy, Holders, Due, Live;
    if SeekStep(a) {
      SeekFrame(s, a);
    }
  }

  lemma DestroyFrame(s: State, a: Step)
    requires Enabled(s, a) && !HandlerStep(a) && !CreateStep(a)
    ensures Framed(s, Next(s, a), NetOf(s, a))
  {
    hide Droppers, HandlerNext, CreateNext, SvcGet, SvcDestroy, Holders, Due, Live;
  }

  lemma RegistrantCreate(s: State, a: Step)
    requires Inv(s) && Enabled(s, a) && Orderly(s, a) && CreateStep(a)
    ensures var n := NetOf(s, a);
            && n in s.nets && n in Next(s, a).nets
            && (Registrant(Next(s, a).nets[n]) <==> a.Register? || Registrant(s.nets[n]))
            && (a.Register? ==> !Registrant(s.nets[n]))
  {
    hide Inv, Droppers, HandlerNext, DestroyNext;
    SaneAt(s, NetOf(s, a));
  }

  lemma RegistrantDestroy(s: State, a: Step)
    requires Inv(s) && Enabled(s, a) && Orderly(s, a) && !HandlerStep(a) && !CreateStep(a)
    ensures var n := NetOf(s, a);
            && n in s.nets && n in Next(s, a).nets
            && (Registrant(Next(s, a).nets[n]) <==> !a.Unregister? && Registrant(s.nets[n]))
            && (a.Unregister? ==> Registrant(s.nets[n]))
  {
    hide Inv, Droppers, HandlerNext, CreateNext;
    SaneAt(s, NetOf(s, a));
  }

  lemma RegistrantsStep(s: State, a: Step)
    requires Inv(s) && Enabled(s, a) && Orderly(s, a)
    ensures Registrants(Next(s, a)) ==
      if a.Register? then Registrants(s) + {a.net}
      else if a.Unregister? then Registrants(s) - {a.net}
      else Registrants(s)
    ensures a.Register? ==> a.net !in Registrants(s)
    ensures a.Unregister? ==> a.net in Registrants(s)
  {
    hide Inv, Next, Orderly, Enabled;
    if HandlerStep(a) {
      HandlerStepServers(s, a);
    } else if CreateStep(a) {
      CreateFrame(s, a);
      RegistrantCreate(s, a);
    } else {
      DestroyFrame(s, a);
      RegistrantDestroy(s, a);
    }
  }

  lemma UsersStay(s: State, a: Step)
    requires Enabled(s, a) && (HandlerStep(a) || SeekStep(a))
    ensures Next(s, a).users == s.users && Next(s, a).listening == s.listening
  {
    hide Droppers, SvcGet, SvcDestroy, Holders, Due, Live, MakeNext, DestroyNext;
  }

  lemma UsersStep(s: State, a: Step)
    requires Enabled(s, a)
    ensures var t := Next(s, a);
      && t.users == s.users + (if a.Register? then 1 else if a.Unregister? then -1 else 0)
      && t.listening == if a.Attach? then true else if a.Detach? then false else s.listening
  {
    hide Droppers, SvcGet, SvcDestroy, Holders, Due, Live, HandlerNext, SeekNext;
    if HandlerStep(a) || SeekStep(a) {
      UsersStay(s, a);
    }
  }

  /** Namespace `n` is at a point between the count of users and the notifier. */
  predicate Noticing(s: State, n: NetId, c: Control) {
    n in s.nets && s.nets[n].control == c && (c.Attaching? || c.Detaching?)
  }

  lemma NoticingCreate(s: State, a: Step)
    requires Inv(s) && Enabled(s, a) && Orderly(s, a) && CreateStep(a)
    ensures var n, t := NetOf(s, a), Next(s, a);
      && (Noticing(t, n, Attaching) <==> if a.Register? then s.users == 0 else !a.Attach? && Noticing(s, n, Attaching))
      && (Noticing(t, n, Detaching) <==> Noticing(s, n, Detaching))
  {
    hide Inv, Droppers, HandlerNext, DestroyNext;
    SaneAt(s, NetOf(s, a));
  }

  lemma NoticingDestroy(s: State, a: Step)
    requires Inv(s) && Enabled(s, a) && !HandlerStep(a) && !CreateStep(a)
    ensures var n, t := NetOf(s, a), Next(s, a);
      && (Noticing(t, n, Attaching) <==> Noticing(s, n, Attaching))
      && (Noticing(t, n, Detaching) <==>
            if a.Unregister? then s.users == 1 else !a.Detach? && Noticing(s, n, Detaching))
  {
    hide Inv, Droppers, HandlerNext, CreateNext;
    SaneAt(s, NetOf(s, a));
  }

  lemma NoticingStep(s: State, a: Step, n: NetId)
    requires Inv(s) && Enabled(s, a) && Orderly(s, a)
    ensures var t := Next(s, a);
      && (Noticing(t, n, Attaching) <==>
            if a == Register(n) then s.users == 0 else a != Attach(n) && Noticing(s, n, Attaching))
      && (Noticing(t, n, Detaching) <==>
            if a == Unregister(n) then s.users == 1 else a != Detach(n) && Noticing(s, n, Detaching))
  {
    hide Inv, Next, Orderly;
    if HandlerStep(a) {
      HandlerStepServers(s, a);
    } else if CreateStep(a) {
      CreateFrame(s, a);
      NoticingCreate(s, a);
    } else {
      DestroyFrame(s, a);
      NoticingDestroy(s, a);
    }
  }

  lemma SomeNoticing(s: State, c: Control)
    requires c.Attaching? || c.Detaching?
    ensures SomeAt(s, c) <==> exists n :: Noticing(s, n, c)
  {
    if SomeAt(s, c) {
      var n :| n in s.nets && s.nets[n].control == c;
      assert Noticing(s, n, c);
    }
  }

  lemma AttachingUser(s: State, n: NetId)
    requires Inv(s) && Shared(s) && At(s, n, Attaching)
    ensures s.users >= 1
  {
    hide Inv;
    SaneAt(s, n);
    assert n in Registrants(s);
  }

  lemma NoticeKept(s: State, a: Step)
    requires Inv(s) && Shared(s) && Enabled(s, a) && Orderly(s, a)
    ensures !Misheard(Next(s, a))
  {
    hide Inv, Next, Registrants;
    UsersStep(s, a);
    if a.Attach? {
      AttachingUser(s, a.net);
    }
    var t := Next(s, a);
    forall n ensures Noticing(t, n, Attaching) <==>
        if a == Register(n) then s.users == 0 else a != Attach(n) && Noticing(s, n, Attaching)
      ensures Noticing(t, n, Detaching) <==>
        if a == Unregister(n) then s.users == 1 else a != Detach(n) && Noticing(s, n, Detaching)
    {
      NoticingStep(s, a, n);
    }
    SomeNoticing(s, Attaching);
    SomeNoticing(t, Attaching);
    SomeNoticing(s, Detaching);
    SomeNoticing(t, Detaching);
    hide Noticing, SomeAt, Enabled;
    assert a.Register? ==> (Noticing(t, a.net, Attaching) <==> s.users == 0);
    assert a.Unregister? ==> (Noticing(t, a.net, Detaching) <==> s.users == 1);
  }

  lemma SharedKeeps(s: State, a: Step)
    requires Inv(s) && Shared(s) && Enabled(s, a) && Orderly(s, a)
    ensures Shared(Next(s, a))
  {
    hide Inv, Next, Enabled, Registrants, Misheard;
    RegistrantsStep(s, a);
    UsersStep(s, a);
    NoticeKept(s, a);
  }

  lemma {:induction false} RunShared(s: State, steps: seq<Step>)
    requires Inv(s) && Shared(s) && Run(s, steps) && AllOrderly(s, steps)
    ensures Shared(After(s, steps))
    decreases |steps|
  {
    hide Inv, Next, Enabled, Shared, Orderly;
    if steps == [] {
    } else {
      StepKeeps(s, steps[0]);
      SharedKeeps(s, steps[0]);
      RunShared(Next(s, steps[0]), steps[1..]);
    }
  }

  // ----- the steps that break it -----

  /** A live server whose pointer is overwritten belongs to nobody. */
  lemma Orphaned(s: State, t: State, n: NetId)
    requires Inv(s) && Live(s, n) && s.nets[n].serv.value in t.threads && t.freed == s.freed
    requires n in t.nets && t.nets == s.nets[n := t.nets[n]] && t.nets[n].serv != s.nets[n].serv
    ensures Broken(t)
  {
    hide Counted, NetsSane, HandlersSafe, NoneLost;
    assert ServersDistinct(s);
    assert !PointedTo(t, s.nets[n].serv.value);
  }

  lemma AllocBreaks(s: State, a: Step)
    requires Inv(s) && Enabled(s, a) && a.Alloc? && !Orderly(s, a)
    ensures Broken(Next(s, a))
  {
    hide HandlerNext, DestroyNext, MakeNext;
    var n := s.calls[a.c].net;
    SaneAt(s, n);
    assert NoneLost(s);
    hide Inv, Droppers, InFlight;
    var t := Next(s, a);
    if Live(s, n) {
      Orphaned(s, t, n);
    } else {
      assert s.nets[n].control.Clearing?;
      assert n in t.nets && Astray(t, n);
    }
  }

  lemma BindBreaks(s: State, a: Step)
    requires Inv(s) && Enabled(s, a) && a.Bind? && !a.ok
    ensures Broken(Next(s, a))
  {
    hide HandlerNext, DestroyNext, SeekNext;
    var n, t := a.net, Next(s, a);
    hide Inv, Droppers, InFlight;
    SaneAt(s, n);
    CountedAt(s, n);
    assert n in t.nets && Astray(t, n);
  }

  /** Unregistering the notifier while it has users. */
  lemma DetachBreaks(s: State, a: Step)
    requires Inv(s) && Shared(s) && Enabled(s, a) && a.Detach? && !Orderly(s, a)
    ensures Broken(Next(s, a))
  {
    hide Inv, Droppers, HandlerNext, CreateNext, Registrants;
    var t := Next(s, a);
    assert SomeAt(t, Attaching) ==> SomeAt(s, Attaching);
    assert Misheard(t);
  }

  /** Any other step out of order. */
  lemma CallBreaks(s: State, a: Step)
    requires Inv(s) && Enabled(s, a) && (a.Get? || a.Drop? || a.Free?) && !Orderly(s, a)
    ensures Broken(Next(s, a))
  {
    hide HandlerNext;
    var n, t := if a.Free? then a.net else s.calls[a.c].net, Next(s, a);
    SaneAt(s, n);
    if a.Drop? {
      DroppersLeave(s.calls, a.c, n);
    }
    hide Inv, Droppers, InFlight;
    if !a.Get? {
      assert n in t.nets && Astray(t, n);
    }
  }

  /** A step out of order does harm at once. */
  lemma StepBreaks(s: State, a: Step)
    requires Inv(s) && Shared(s) && Enabled(s, a) && !Orderly(s, a)
    ensures Broken(Next(s, a))
  {
    hide Inv, Shared, Next, Enabled, Broken;
    match a
    case Detach(_) => DetachBreaks(s, a);
    case Alloc(_, _, _) => AllocBreaks(s, a);
    case Bind(_, _) => BindBreaks(s, a);
    case _ => CallBreaks(s, a);
  }

  // ----- whole runs -----

  /** With nothing to keep the calls apart, a run never breaks anything if and only if each of its steps is orderly. */
  lemma {:induction false} BrokenIffDisorderly(s: State, steps: seq<Step>)
    requires Inv(s) && Shared(s) && Run(s, steps)
    ensures AllOrderly(s, steps) <==> NeverBroken(s, steps)
    decreases |steps|
  {
    hide Inv, Shared, Next, Enabled, Broken, Orderly;
    InvUnbroken(s);
    if steps == [] {
    } else {
      var a, rest := steps[0], steps[1..];
      if Orderly(s, a) {
        StepKeeps(s, a);
        SharedKeeps(s, a);
        BrokenIffDisorderly(Next(s, a), rest);
      } else {
        StepBreaks(s, a);
      }
    }
  }

  lemma {:induction false} RunKeeps(s: State, steps: seq<Step>)
    requires Inv(s) && Run(s, steps) && AllOrderly(s, steps)
    ensures Inv(After(s, steps))
    decreases |steps|
  {
    hide Inv, Next, Enabled, Orderly;
    if steps == [] {
    } else {
      StepKeeps(s, steps[0]);
      RunKeeps(Next(s, steps[0]), steps[1..]);
    }
  }

  /** No handler has hold of a freed server, the pointer a handler is about to load is there, the count is exact, and
      a namespace without a server (or with one past the wait) cannot be entered. */
  ghost predicate Safe(s: State) {
    && (forall h :: h in s.handlers && s.handlers[h].pc.Using? ==> s.handlers[h].pc.s !in s.freed)
    && (forall h :: h in s.handlers ==> s.handlers[h].net in s.nets && s.nets[s.handlers[h].net].serv.Some?)
    && (forall n :: n in s.nets ==> s.nets[n].refcnt == Own(s.nets[n]) + |InFlight(s.handlers, n)|)
    && (forall n :: n in s.nets && (s.nets[n].serv.None? || PastWait(s.nets[n].control)) ==> s.nets[n].refcnt == 0)
  }

  lemma InvSafe(s: State)
    requires Inv(s)
    ensures Safe(s)
  {
    forall n | n in s.nets && (s.nets[n].serv.None? || PastWait(s.nets[n].control)) ensures s.nets[n].refcnt == 0 {
      if s.nets[n].refcnt != 0 {
        EnteredLive(s, n);
      }
    }
    hide NetsSane, ServersDistinct, NoneLost;
  }

  /** Over every orderly interleaving of any number of handlers and calls. */
  lemma HandlersNeverUseFreedServer(s: State, steps: seq<Step>)
    requires Init(s) && Run(s, steps) && AllOrderly(s, steps)
    ensures Safe(After(s, steps))
    ensures Shared(After(s, steps))
  {
    InitKeeps(s);
    hide Inv, Run, After, AllOrderly, Safe, Shared;
    RunShared(s, steps);
    RunKeeps(s, steps);
    InvSafe(After(s, steps));
  }

  // ----- who comes in -----

  lemma CreatorsKeepHandlers(s: State, a: Step)
    requires Enabled(s, a) && CreateStep(a)
    ensures CreateNext(s, a).handlers == s.handlers
  {
    hide HandlerNext, DestroyNext, Droppers, Holders, Due, Live;
  }

  lemma LeaversKeepHandlers(s: State, a: Step)
    requires Enabled(s, a) && !HandlerStep(a) && !CreateStep(a)
    ensures DestroyNext(s, a).handlers == s.handlers
  {
    hide HandlerNext, CreateNext, Droppers, Holders, Due, Live;
  }

  /** Creators and leavers have no effect on handlers. */
  lemma OthersKeepHandlers(s: State, a: Step)
    requires Enabled(s, a) && !HandlerStep(a)
    ensures Next(s, a).handlers == s.handlers
  {
    hide Enabled, HandlerNext, CreateNext, DestroyNext;
    if CreateStep(a) {
      CreatorsKeepHandlers(s, a);
    } else {
      LeaversKeepHandlers(s, a);
    }
  }

  /** A step lets a handler in exactly if it is the event of an address that goes down, in a namespace whose count is
      not zero. */
  lemma EntersExactly(s: State, a: Step, h: HandlerId)
    requires Enabled(s, a) && h !in s.handlers
    ensures h in Next(s, a).handlers <==> a.Event? && a.h == h && a.down && s.nets[a.net].refcnt != 0
    ensures h in Next(s, a).handlers ==> Next(s, a).handlers[h] == Handler(a.net, Entered)
  {
    hide CreateNext, DestroyNext, Droppers, Holders, Due, Live;
    if !HandlerStep(a) {
      OthersKeepHandlers(s, a);
    }
  }

  /** Nobody changes namespaces. */
  lemma StaysThere(s: State, a: Step, h: HandlerId)
    requires Enabled(s, a) && h in s.handlers && h in Next(s, a).handlers
    ensures Next(s, a).handlers[h].net == s.handlers[h].net
  {
    hide CreateNext, DestroyNext, Droppers, Holders, Due, Live;
    if !HandlerStep(a) {
      OthersKeepHandlers(s, a);
    }
  }

  /** Whoever is inside after a run was inside before it, or came in by the event of an address of the namespace that
      went down. So no other event has any effect. */
  lemma {:induction false} InsideCameDown(s: State, steps: seq<Step>, h: HandlerId)
    requires Run(s, steps) && h in After(s, steps).handlers
    ensures var n := After(s, steps).handlers[h].net;
      (h in s.handlers && s.handlers[h].net == n) || Event(h, n, true) in steps
    decreases |steps|
  {
    hide Next, Enabled;
    if steps == [] {
    } else {
      var a, rest := steps[0], steps[1..];
      InsideCameDown(Next(s, a), rest, h);
      assert steps == [a] + rest;
      if h in Next(s, a).handlers {
        if h in s.handlers {
          StaysThere(s, a, h);
        } else {
          EntersExactly(s, a, h);
          assert a == Event(h, a.net, true);
        }
      }
    }
  }
}
