/** What overlapping calls do to a server, and how far they must be kept apart. */
module Overlap {
  import opened Options
  import opened Notifier
  import opened Lifetime

  // ----- calls that are kept apart -----

  /** No call is under way. */
  ghost predicate Quiet(s: State) {
    s.calls == map[] && forall n :: n in s.nets ==> s.nets[n].control.Idle?
  }

  predicate Creating(c: Control) {
    c.Binding? || c.Bound? || c.Attaching? || c.Registered?
  }

  /** No call of nfsd_create_serv is under way. */
  ghost predicate NobodyCreates(s: State) {
    && (forall c :: c in s.calls ==> s.calls[c].pc.Dropping?)
    && (forall n :: n in s.nets ==> !Creating(s.nets[n].control))
  }

  /** Creation is kept apart from everything else; calls of nfsd_destroy may overlap each other. */
  ghost predicate CreatesApart(s: State, a: Step) {
    (a.Look? ==> Quiet(s)) && (a.Read? ==> NobodyCreates(s))
  }

  /** One call at a time. */
  ghost predicate OneAtATime(s: State, a: Step) {
    a.Look? || a.Read? ==> Quiet(s)
  }

  predicate BindsWell(a: Step) {
    a.Bind? ==> a.ok
  }

  /** A call that read more than one does not take the count to zero. */
  predicate LeavesHolder(s: State, a: Step)
    requires Enabled(s, a)
  {
    a.Drop? ==> Holders(s, s.calls[a.c].net) != 1
  }

  predicate ShuttingDown(c: Control) {
    c.Shutting? || c.Released? || c.Detaching? || c.Waiting? || c.Freeing?
  }

  /** What a call saw when it looked at the pointer is still so; it is alone. */
  ghost predicate SeekersCurrent(s: State) {
    forall c :: c in s.calls && !s.calls[c].pc.Dropping? ==>
      && s.calls.Keys == {c} && (forall n :: n in s.nets ==> s.nets[n].control.Idle?)
      && s.calls[c].net in s.nets && (s.calls[c].pc.Getting? <==> s.nets[s.calls[c].net].serv.Some?)
  }

  /** A call that read one is still the only holder. */
  ghost predicate ShuttersCurrent(s: State) {
    forall n :: n in s.nets && ShuttingDown(s.nets[n].control) ==> Holders(s, n) == 1
  }

  /** A call that is making a server is alone. */
  ghost predicate CreatorsAlone(s: State) {
    forall n :: n in s.nets && Creating(s.nets[n].control) ==>
      s.calls.Keys == {} && forall m :: m in s.nets && m != n ==> s.nets[m].control.Idle?
  }

  /** A call that took the last user off the notifier still has it to itself. */
  ghost predicate DetachersCurrent(s: State) {
    forall n :: Noticing(s, n, Detaching) ==> s.users == 0
  }

  ghost predicate Current(s: State) {
    SeekersCurrent(s) && CreatorsAlone(s) && ShuttersCurrent(s) && DetachersCurrent(s)
  }

  /** Then the binds and the drops decide. */
  lemma CurrentOrderly(s: State, a: Step)
    requires Inv(s) && Current(s) && Enabled(s, a)
    ensures Orderly(s, a) <==> BindsWell(a) && LeavesHolder(s, a)
  {
    hide Counted, ServersDistinct, HandlersSafe, NoneLost, Droppers, Due;
    if a.Get? || a.Alloc? {
      SaneAt(s, s.calls[a.c].net);
    }
    assert a.Detach? ==> Noticing(s, a.net, Detaching);
  }

  lemma HoldersElsewhereSeek(s: State, a: Step, m: NetId)
    requires Inv(s) && Enabled(s, a) && Orderly(s, a) && SeekStep(a) && m in s.nets && m != NetOf(s, a)
    ensures Holders(Next(s, a), m) == Holders(s, m)
  {
    hide Counted, HandlersSafe, NoneLost, Droppers, HandlerNext, MakeNext, DestroyNext, SvcDestroy;
    SaneAt(s, m);
  }

  lemma HoldersElsewhereCreate(s: State, a: Step, m: NetId)
    requires Inv(s) && Enabled(s, a) && Orderly(s, a) && CreateStep(a) && m in s.nets && m != NetOf(s, a)
    ensures Holders(Next(s, a), m) == Holders(s, m)
  {
    hide Counted, HandlersSafe, NoneLost, Droppers, HandlerNext, SeekNext, DestroyNext, NetsSane, SvcDestroy;
    if SeekStep(a) {
      HoldersElsewhereSeek(s, a, m);
    }
  }

  lemma HoldersElsewhereDestroy(s: State, a: Step, m: NetId)
    requires Inv(s) && Enabled(s, a) && !HandlerStep(a) && !CreateStep(a) && m in s.nets && m != NetOf(s, a)
    ensures Holders(Next(s, a), m) == Holders(s, m)
  {
    hide Counted, HandlersSafe, NoneLost, Droppers, HandlerNext, CreateNext, NetsSane;
  }

  /** The holders of other namespaces' servers stay. */
  lemma HoldersElsewhere(s: State, a: Step, m: NetId)
    requires Inv(s) && Enabled(s, a) && Orderly(s, a) && !HandlerStep(a) && m in s.nets && m != NetOf(s, a)
    ensures Holders(Next(s, a), m) == Holders(s, m)
  {
    SaneAt(s, m);
    if CreateStep(a) {
      CreateFrame(s, a);
      HoldersElsewhereCreate(s, a, m);
    } else {
      DestroyFrame(s, a);
      HoldersElsewhereDestroy(s, a, m);
    }
  }

  ghost predicate ShutterCurrent(s: State, n: NetId) {
    n in s.nets && (ShuttingDown(s.nets[n].control) ==> Holders(s, n) == 1)
  }

  lemma SeekCurrent(s: State, a: Step)
    requires SeekersCurrent(s) && Enabled(s, a) && (a.Get? || a.Alloc?)
    ensures ShutterCurrent(Next(s, a), NetOf(s, a))
  {
    hide Droppers, HandlerNext, MakeNext, DestroyNext, SvcGet, SvcDestroy, Holders, Due, Live;
  }

  lemma CreateCurrent(s: State, a: Step)
    requires Inv(s) && ShuttersCurrent(s) && Enabled(s, a) && CreateStep(a) && !a.Get? && !a.Alloc?
    ensures ShutterCurrent(Next(s, a), NetOf(s, a))
  {
    hide Inv, Droppers, HandlerNext, DestroyNext, SvcGet, SvcDestroy, Live;
  }

  lemma DestroyCurrent(s: State, a: Step)
    requires Inv(s) && ShuttersCurrent(s) && Enabled(s, a) && !HandlerStep(a) && !CreateStep(a)
    ensures ShutterCurrent(Next(s, a), NetOf(s, a))
  {
    hide Inv, Droppers, HandlerNext, CreateNext;
    SaneAt(s, NetOf(s, a));
    if a.Drop? {
      DroppersLeave(s.calls, a.c, s.calls[a.c].net);
    }
  }

  lemma ShuttersKeep(s: State, a: Step)
    requires Inv(s) && Current(s) && Enabled(s, a) && Orderly(s, a)
    ensures ShuttersCurrent(Next(s, a))
  {
    hide Inv, Orderly, Enabled, Next, SeekersCurrent, CreatorsAlone, DetachersCurrent;
    var t := Next(s, a);
    if HandlerStep(a) {
      HandlerStepServers(s, a);
    } else {
      if CreateStep(a) {
        CreateFrame(s, a);
        if a.Get? || a.Alloc? {
          SeekCurrent(s, a);
        } else {
          CreateCurrent(s, a);
        }
      } else {
        DestroyFrame(s, a);
        DestroyCurrent(s, a);
      }
      forall n | n in t.nets && ShuttingDown(t.nets[n].control) ensures Holders(t, n) == 1 {
        if n != NetOf(s, a) {
          HoldersElsewhere(s, a, n);
        }
      }
    }
  }

  lemma SeekersCreate(s: State, a: Step)
    requires SeekersCurrent(s) && Enabled(s, a) && CreateStep(a) && CreatesApart(s, a)
    ensures SeekersCurrent(Next(s, a))
  {
    hide Droppers, Holders, Due, Live, SvcGet, SvcDestroy, HandlerNext, DestroyNext;
    if a.Get? || a.Alloc? {
      assert s.calls.Keys - {a.c} == {};
      hide Allocated;
    } else if a.Look? {
    } else {
      hide Allocated;
    }
  }

  lemma SeekersDestroy(s: State, a: Step)
    requires SeekersCurrent(s) && Enabled(s, a) && !HandlerStep(a) && !CreateStep(a) && CreatesApart(s, a)
    ensures SeekersCurrent(Next(s, a))
  {
    hide Droppers, Holders, Due, Live, SvcGet, SvcDestroy, HandlerNext, CreateNext;
  }

  lemma SeekersKeep(s: State, a: Step)
    requires Inv(s) && Current(s) && Enabled(s, a) && Orderly(s, a) && CreatesApart(s, a)
    ensures SeekersCurrent(Next(s, a))
  {
    hide Inv, Next, Enabled, Orderly, CreatesApart, ShuttersCurrent, CreatorsAlone, DetachersCurrent;
    if HandlerStep(a) {
      HandlerStepServers(s, a);
    } else if CreateStep(a) {
      SeekersCreate(s, a);
    } else {
      SeekersDestroy(s, a);
    }
  }

  /** After a step of nfsd_create_serv nothing else is under way, unless nothing has changed in that. */
  lemma CreatedAlone(s: State, a: Step)
    requires Current(s) && Enabled(s, a) && CreateStep(a) && CreatesApart(s, a)
    ensures var n, t := NetOf(s, a), Next(s, a);
      || (a.Look? && t.nets == s.nets && Quiet(s))
      || ((a.Thread? || a.Up?) && t.calls == s.calls && n in t.nets && t.nets[n].control == s.nets[n].control)
      || (t.calls.Keys == {} && forall m :: m in s.nets && m != n ==> s.nets[m].control.Idle?)
  {
    hide Droppers, Holders, Due, Live, SvcGet, SvcDestroy, ShuttersCurrent, DetachersCurrent, HandlerNext, DestroyNext;
    if a.Get? || a.Alloc? {
      assert s.calls.Keys - {a.c} == {};
    }
  }

  /** Nobody is making a server at a step of nfsd_destroy. */
  lemma DestroyedAlone(s: State, a: Step)
    requires Current(s) && Enabled(s, a) && !HandlerStep(a) && !CreateStep(a) && CreatesApart(s, a)
    ensures var n, t := NetOf(s, a), Next(s, a);
      && (forall m :: m in s.nets ==> !Creating(s.nets[m].control))
      && n in t.nets && !Creating(t.nets[n].control)
  {
    hide Droppers, Holders, Due, Live, SvcGet, SvcDestroy, ShuttersCurrent, DetachersCurrent, SeekersCurrent,
      HandlerNext, CreateNext;
  }

  lemma CreatorsKeep(s: State, a: Step)
    requires Inv(s) && Current(s) && Enabled(s, a) && Orderly(s, a) && CreatesApart(s, a)
    ensures CreatorsAlone(Next(s, a))
  {
    hide Inv, Next, Enabled, Orderly, ShuttersCurrent, DetachersCurrent, SeekersCurrent, CreatesApart;
    if HandlerStep(a) {
      HandlerStepServers(s, a);
    } else if CreateStep(a) {
      CreateFrame(s, a);
      CreatedAlone(s, a);
    } else {
      DestroyFrame(s, a);
      DestroyedAlone(s, a);
    }
  }

  lemma ReleasedUser(s: State, n: NetId)
    requires Inv(s) && Shared(s) && At(s, n, Released)
    ensures s.users >= 1
  {
    hide Inv;
    SaneAt(s, n);
    assert n in Registrants(s);
  }

  lemma DetachersKeep(s: State, a: Step)
    requires Inv(s) && Shared(s) && Current(s) && Enabled(s, a) && Orderly(s, a)
    ensures DetachersCurrent(Next(s, a))
  {
    hide Inv, Next, Orderly, SeekersCurrent, ShuttersCurrent, Registrants;
    UsersStep(s, a);
    if a.Unregister? {
      ReleasedUser(s, a.net);
    }
    var t := Next(s, a);
    forall n | Noticing(t, n, Detaching) ensures t.users == 0 {
      NoticingStep(s, a, n);
    }
  }

  /** A call that read more than one is alone, and there is still another holder. */
  ghost predicate LeaversCurrent(s: State) {
    forall c :: c in s.calls && s.calls[c].pc.Dropping? ==>
      && s.calls.Keys == {c} && (forall n :: n in s.nets ==> s.nets[n].control.Idle?)
      && Holders(s, s.calls[c].net) >= 2
  }

  lemma ThreadLeavers(s: State, a: Step, m: NetId)
    requires Inv(s) && Enabled(s, a) && a.Thread?
    ensures Holders(Next(s, a), m) >= Holders(s, m)
  {
    hide Inv, HandlerNext, DestroyNext, Droppers;
  }

  lemma LeaversSeek(s: State, a: Step)
    requires SeekersCurrent(s) && LeaversCurrent(s) && Enabled(s, a) && SeekStep(a) && OneAtATime(s, a)
    ensures LeaversCurrent(Next(s, a))
  {
    hide Droppers, Live, SvcGet, SvcDestroy, Holders, Due, HandlerNext, MakeNext, DestroyNext;
  }

  lemma LeaversCreate(s: State, a: Step)
    requires SeekersCurrent(s) && LeaversCurrent(s) && Enabled(s, a) && CreateStep(a) && !a.Thread? && OneAtATime(s, a)
    ensures LeaversCurrent(Next(s, a))
  {
    hide Droppers, Live, SvcGet, SvcDestroy, HandlerNext, SeekNext, DestroyNext;
    if SeekStep(a) {
      LeaversSeek(s, a);
    }
  }

  lemma LeaversDestroy(s: State, a: Step)
    requires LeaversCurrent(s) && Enabled(s, a) && !HandlerStep(a) && !CreateStep(a) && OneAtATime(s, a)
    ensures LeaversCurrent(Next(s, a))
  {
    hide Droppers, Live, SvcGet, SvcDestroy, HandlerNext, CreateNext;
  }

  lemma LeaversThread(s: State, a: Step)
    requires Inv(s) && LeaversCurrent(s) && Enabled(s, a) && a.Thread?
    ensures LeaversCurrent(Next(s, a))
  {
    hide Inv, Droppers, SvcGet, HandlerNext, DestroyNext, Holders, Due;
    forall m ensures Holders(Next(s, a), m) >= Holders(s, m) {
      ThreadLeavers(s, a, m);
    }
  }

  lemma LeaversKeep(s: State, a: Step)
    requires Inv(s) && Current(s) && LeaversCurrent(s) && Enabled(s, a) && Orderly(s, a) && OneAtATime(s, a)
    ensures LeaversCurrent(Next(s, a))
  {
    hide Inv, Next, Enabled, Orderly, OneAtATime, ShuttersCurrent, CreatorsAlone, DetachersCurrent, SeekersCurrent;
    if HandlerStep(a) {
      HandlerStepServers(s, a);
    } else if a.Thread? {
      LeaversThread(s, a);
    } else if CreateStep(a) {
      LeaversCreate(s, a);
    } else {
      LeaversDestroy(s, a);
    }
  }

  // ----- whole runs -----

  ghost predicate AllApart(s: State, steps: seq<Step>)
    requires Run(s, steps)
    decreases |steps|
  {
    steps != [] ==> CreatesApart(s, steps[0]) && AllApart(Next(s, steps[0]), steps[1..])
  }

  ghost predicate AllLeaveHolder(s: State, steps: seq<Step>)
    requires Run(s, steps)
    decreases |steps|
  {
    steps != [] ==> LeavesHolder(s, steps[0]) && AllLeaveHolder(Next(s, steps[0]), steps[1..])
  }

  ghost predicate AllOneAtATime(s: State, steps: seq<Step>)
    requires Run(s, steps)
    decreases |steps|
  {
    steps != [] ==> OneAtATime(s, steps[0]) && AllOneAtATime(Next(s, steps[0]), steps[1..])
  }

  ghost predicate AllBindWell(steps: seq<Step>) {
    forall k :: 0 <= k < |steps| ==> BindsWell(steps[k])
  }

  lemma CurrentKeeps(s: State, a: Step)
    requires Inv(s) && Shared(s) && Current(s) && Enabled(s, a) && Orderly(s, a) && CreatesApart(s, a)
    ensures Current(Next(s, a))
  {
    hide Inv, Shared, Enabled, Orderly, Next, CreatesApart;
    ShuttersKeep(s, a);
    SeekersKeep(s, a);
    CreatorsKeep(s, a);
    DetachersKeep(s, a);
  }

  lemma {:induction false} ApartOrderly(s: State, steps: seq<Step>)
    requires Inv(s) && Shared(s) && Current(s) && Run(s, steps) && AllApart(s, steps)
    ensures AllOrderly(s, steps) <==> AllBindWell(steps) && AllLeaveHolder(s, steps)
    decreases |steps|
  {
    hide Inv, Shared, Current, Next, Enabled, Orderly, CreatesApart, BindsWell, LeavesHolder;
    if steps == [] {
    } else {
      var a, rest := steps[0], steps[1..];
      assert steps == [a] + rest;
      CurrentOrderly(s, a);
      if Orderly(s, a) {
        StepKeeps(s, a);
        SharedKeeps(s, a);
        CurrentKeeps(s, a);
        ApartOrderly(Next(s, a), rest);
      }
    }
  }

  lemma OneAtATimeApart(s: State, a: Step)
    requires Enabled(s, a) && LeaversCurrent(s) && OneAtATime(s, a)
    ensures CreatesApart(s, a) && LeavesHolder(s, a)
  {
  }

  lemma {:induction false} OneAtATimeOrderly(s: State, steps: seq<Step>)
    requires Inv(s) && Shared(s) && Current(s) && LeaversCurrent(s) && Run(s, steps) && AllOneAtATime(s, steps)
    ensures AllOrderly(s, steps) <==> AllBindWell(steps)
    decreases |steps|
  {
    hide Inv, Shared, Current, LeaversCurrent, Next, Enabled, Orderly, OneAtATime, CreatesApart, BindsWell,
      LeavesHolder;
    if steps == [] {
    } else {
      var a, rest := steps[0], steps[1..];
      assert steps == [a] + rest;
      OneAtATimeApart(s, a);
      CurrentOrderly(s, a);
      if Orderly(s, a) {
        StepKeeps(s, a);
        SharedKeeps(s, a);
        CurrentKeeps(s, a);
        LeaversKeep(s, a);
        OneAtATimeOrderly(Next(s, a), rest);
      }
    }
  }

  /** With creation kept apart, a run never breaks anything if and only if no bind fails in it and sv_nrthreads goes to
      zero only in calls of nfsd_destroy that read it as one. */
  lemma DestroysOverlap(s: State, steps: seq<Step>)
    requires Init(s) && Run(s, steps) && AllApart(s, steps)
    ensures NeverBroken(s, steps) <==> AllBindWell(steps) && AllLeaveHolder(s, steps)
  {
    InitKeeps(s);
    assert Current(s);
    hide Inv, Shared, Current, AllOrderly, NeverBroken, AllLeaveHolder, AllBindWell;
    ApartOrderly(s, steps);
    BrokenIffDisorderly(s, steps);
  }

  /** One call at a time, a run never breaks anything if and only if no bind fails in it. */
  lemma SerializedCalls(s: State, steps: seq<Step>)
    requires Init(s) && Run(s, steps) && AllOneAtATime(s, steps)
    ensures NeverBroken(s, steps) <==> AllBindWell(steps)
  {
    InitKeeps(s);
    assert Current(s);
    hide Inv, Shared, Current, AllOrderly, NeverBroken, AllBindWell, AllOneAtATime;
    OneAtATimeOrderly(s, steps);
    BrokenIffDisorderly(s, steps);
  }

  // ----- nfsd_net_up -----

  /** A namespace that is up has a server which nobody has shut down. */
  ghost predicate UpSane(s: State) {
    forall n :: n in s.nets && s.nets[n].up ==> s.nets[n].serv.Some? && !PastWait(s.nets[n].control)
  }

  lemma UpCreate(s: State, a: Step)
    requires Inv(s) && UpSane(s) && ShuttersCurrent(s) && Enabled(s, a) && Orderly(s, a) && CreateStep(a)
    ensures UpSane(Next(s, a))
  {
    hide Inv, Droppers, HandlerNext, DestroyNext, SvcGet, SvcDestroy;
    SaneAt(s, NetOf(s, a));
  }

  lemma UpDestroy(s: State, a: Step)
    requires Inv(s) && UpSane(s) && Enabled(s, a) && !HandlerStep(a) && !CreateStep(a)
    ensures UpSane(Next(s, a))
  {
    hide Inv, Droppers, HandlerNext, CreateNext, SvcGet, SvcDestroy;
    SaneAt(s, NetOf(s, a));
  }

  lemma UpHandler(s: State, a: Step)
    requires UpSane(s) && Enabled(s, a) && HandlerStep(a)
    ensures UpSane(Next(s, a))
  {
    hide Droppers, CreateNext, DestroyNext, SvcGet, SvcDestroy, Holders, Due;
  }

  lemma UpKeeps(s: State, a: Step)
    requires Inv(s) && UpSane(s) && Current(s) && Enabled(s, a) && Orderly(s, a)
    ensures UpSane(Next(s, a))
  {
    hide Inv, Next, Enabled, Orderly, UpSane, ShuttersCurrent, SeekersCurrent, CreatorsAlone, DetachersCurrent;
    if HandlerStep(a) {
      UpHandler(s, a);
    } else if CreateStep(a) {
      UpCreate(s, a);
    } else {
      UpDestroy(s, a);
    }
  }

  lemma {:induction false} RunUp(s: State, steps: seq<Step>)
    requires Inv(s) && Shared(s) && Current(s) && UpSane(s)
    requires Run(s, steps) && AllApart(s, steps) && AllOrderly(s, steps)
    ensures UpSane(After(s, steps))
    decreases |steps|
  {
    hide Inv, Shared, Current, UpSane, Next, Enabled, Orderly, CreatesApart;
    if steps == [] {
    } else {
      var a := steps[0];
      StepKeeps(s, a);
      SharedKeeps(s, a);
      CurrentKeeps(s, a);
      UpKeeps(s, a);
      RunUp(Next(s, a), steps[1..]);
    }
  }

  /** With creation kept apart, over every orderly run: whatever is up has a server, and shutting it down has brought it
      down. */
  lemma UpHasServer(s: State, steps: seq<Step>)
    requires Init(s) && Run(s, steps) && AllApart(s, steps) && AllOrderly(s, steps)
    ensures forall n :: n in After(s, steps).nets && After(s, steps).nets[n].up ==> After(s, steps).nets[n].serv.Some?
  {
    InitKeeps(s);
    assert Current(s) && UpSane(s);
    hide Inv, Shared, Current, Run, AllApart, AllOrderly, After;
    RunUp(s, steps);
  }

  // ----- runs that break -----

  lemma Prepend(s: State, a: Step, rest: seq<Step>)
    requires Enabled(s, a) && Run(Next(s, a), rest)
    ensures Run(s, [a] + rest) && After(s, [a] + rest) == After(Next(s, a), rest)
  {
    hide Enabled, Next;
    assert ([a] + rest)[1..] == rest;
  }

  lemma TwoSteps(s: State, a: Step, b: Step)
    requires Enabled(s, a) && Enabled(Next(s, a), b)
    ensures Run(s, [a, b]) && After(s, [a, b]) == Next(Next(s, a), b)
  {
    hide Enabled, Next;
    Prepend(Next(s, a), b, []);
    Prepend(s, a, [b]);
    assert [b] == [b] + [] && [a, b] == [a] + [b];
  }

  /** The server of `n` is up, nobody is at work on it, and it has `k` holders. */
  ghost predicate Settled(s: State, n: NetId, x: ServerId, k: nat) {
    && n in s.nets && s.nets[n].serv == Some(x) && s.nets[n].control.Idle? && s.nets[n].refcnt == 1
    && Live(s, n) && Holders(s, n) == k && s.calls == map[] && s.handlers == map[]
  }

  lemma NoDroppers(n: NetId)
    ensures Droppers(map[], n) == {}
  {
  }

  lemma Reads(s: State, n: NetId, x: ServerId, c: CallId, d: CallId)
    requires Settled(s, n, x, 2) && c != d
    ensures Enabled(s, Read(c, n)) && Enabled(Next(s, Read(c, n)), Read(d, n))
    ensures Next(Next(s, Read(c, n)), Read(d, n)) ==
            s.(calls := map[c := Call(n, Dropping), d := Call(n, Dropping)])
  {
    hide HandlerNext, CreateNext, Droppers;
    assert Droppers(s.calls, n) == {} by { NoDroppers(n); }
    DroppersJoin(s.calls, c, n);
    assert s.calls[c := Call(n, Dropping)][d := Call(n, Dropping)] ==
           map[c := Call(n, Dropping), d := Call(n, Dropping)];
  }

  lemma Drops(s: State, n: NetId, x: ServerId, c: CallId, d: CallId)
    requires n in s.nets && s.nets[n].serv == Some(x) && Live(s, n) && Holders(s, n) == 2 && c != d
    requires s.calls == map[c := Call(n, Dropping), d := Call(n, Dropping)]
    ensures Enabled(s, Drop(c)) && Enabled(Next(s, Drop(c)), Drop(d))
    ensures var t := Next(Next(s, Drop(c)), Drop(d));
            t.nets == s.nets && t.handlers == s.handlers && t.freed == s.freed + {x} && !t.misuse == !s.misuse
  {
    hide HandlerNext, CreateNext, Droppers;
  }

  /** A handler that enters a namespace whose pointer was left behind loads it. */
  lemma Enters(s: State, n: NetId, x: ServerId, h: HandlerId)
    requires n in s.nets && s.nets[n].serv == Some(x) && s.nets[n].refcnt >= 1 && h !in s.handlers
    ensures var a, b, c := Event(h, n, true), Check(h), Load(h);
            && Enabled(s, a) && Enabled(Next(s, a), b) && Enabled(Next(Next(s, a), b), c)
            && var t := Next(Next(Next(s, a), b), c);
            && h in t.handlers && t.handlers[h] == Handler(n, Using(x)) && t.freed == s.freed
            && n in t.nets && t.nets[n].serv == Some(x)
  {
    hide CreateNext, DestroyNext, Droppers;
  }

  lemma {:induction false} RunConcat(s: State, xs: seq<Step>, ys: seq<Step>)
    requires Run(s, xs) && Run(After(s, xs), ys)
    ensures Run(s, xs + ys) && After(s, xs + ys) == After(After(s, xs), ys)
    decreases |xs|
  {
    hide Next, Enabled;
    if xs == [] {
      assert xs + ys == ys;
    } else {
      assert (xs + ys)[1..] == xs[1..] + ys;
      RunConcat(Next(s, xs[0]), xs[1..], ys);
    }
  }

  lemma ThreeSteps(s: State, a: Step, b: Step, c: Step)
    requires Enabled(s, a) && Enabled(Next(s, a), b) && Enabled(Next(Next(s, a), b), c)
    ensures Run(s, [a, b, c]) && After(s, [a, b, c]) == Next(Next(Next(s, a), b), c)
  {
    hide Enabled, Next, Run, After;
    TwoSteps(Next(s, a), b, c);
    Prepend(s, a, [b, c]);
    assert [a, b, c] == [a] + [b, c];
  }

  /** A call of nfsd_create_serv in an empty namespace, up to the bind. */
  lemma Creates(s: State, n: NetId, c: CallId, f: ServerId, ok: bool)
    requires n in s.nets && s.nets[n] == Net(None, 0, false, Idle) && s.calls == map[]
    requires f !in s.threads && f !in s.freed
    ensures var a, b, d := Look(c, n), Alloc(c, true, f), Bind(n, ok);
            && Enabled(s, a) && Enabled(Next(s, a), b) && Enabled(Next(Next(s, a), b), d)
            && var t := Next(Next(Next(s, a), b), d);
            && n in t.nets && t.nets[n] == Net(Some(f), 0, false, if ok then Bound else Idle)
            && t.calls == map[] && t.handlers == s.handlers && t.users == s.users
            && if ok then t.freed == s.freed && ThreadsOf(t, f) == 1 else f in t.freed
  {
    hide HandlerNext, DestroyNext, Droppers;
    assert s.calls[c := Call(n, Allocating)] - {c} == map[];
  }

  /** And the rest of it. */
  lemma Registers(s: State, n: NetId, f: ServerId)
    requires n in s.nets && s.nets[n] == Net(Some(f), 0, false, Bound) && s.calls == map[] && s.handlers == map[]
    requires f !in s.freed && ThreadsOf(s, f) == 1 && s.users == 0
    ensures var a, b, c := Register(n), Attach(n), Count(n);
            && Enabled(s, a) && Enabled(Next(s, a), b) && Enabled(Next(Next(s, a), b), c)
            && var t := Next(Next(Next(s, a), b), c); Settled(t, n, f, 1) && t.users == 1
  {
    hide HandlerNext, DestroyNext, Droppers;
  }

  /** A namespace can come to have a server with one holder. */
  lemma Starts(s: State, n: NetId, c: CallId, f: ServerId) returns (steps: seq<Step>)
    requires Init(s) && n in s.nets
    ensures steps == [Look(c, n), Alloc(c, true, f), Bind(n, true)] + [Register(n), Attach(n), Count(n)]
    ensures Run(s, steps) && Settled(After(s, steps), n, f, 1) && After(s, steps).users == 1
  {
    hide Enabled, Next, Run, After, Settled;
    Creates(s, n, c, f, true);
    ThreeSteps(s, Look(c, n), Alloc(c, true, f), Bind(n, true));
    var t := After(s, [Look(c, n), Alloc(c, true, f), Bind(n, true)]);
    Registers(t, n, f);
    ThreeSteps(t, Register(n), Attach(n), Count(n));
    RunConcat(s, [Look(c, n), Alloc(c, true, f), Bind(n, true)], [Register(n), Attach(n), Count(n)]);
    steps := [Look(c, n), Alloc(c, true, f), Bind(n, true)] + [Register(n), Attach(n), Count(n)];
  }

  lemma Joins(s: State, n: NetId, x: ServerId)
    requires Settled(s, n, x, 1)
    ensures Enabled(s, Thread(n)) && Settled(Next(s, Thread(n)), n, x, 2)
  {
    hide HandlerNext, DestroyNext, Droppers;
    assert Droppers(s.calls, n) == {} by { NoDroppers(n); }
  }

  /** Two holders leave at the same time: both read two, so neither shuts the service down, and the second to drop its
      reference frees the server with the pointer in place and the count not released. The next address event uses
      it. */
  lemma LeaversRace(s: State, n: NetId, x: ServerId, c: CallId, d: CallId, h: HandlerId) returns (steps: seq<Step>)
    requires Settled(s, n, x, 2) && c != d
    ensures steps == [Read(c, n), Read(d, n)] + [Drop(c), Drop(d)] + [Event(h, n, true), Check(h), Load(h)]
    ensures Run(s, steps)
    ensures var t := After(s, steps);
            && x in t.freed && n in t.nets && t.nets[n].serv == Some(x)
            && h in t.handlers && t.handlers[h] == Handler(n, Using(x))
  {
    hide Enabled, Next, Run, After;
    Reads(s, n, x, c, d);
    TwoSteps(s, Read(c, n), Read(d, n));
    var s1 := After(s, [Read(c, n), Read(d, n)]);
    Drops(s1, n, x, c, d);
    TwoSteps(s1, Drop(c), Drop(d));
    RunConcat(s, [Read(c, n), Read(d, n)], [Drop(c), Drop(d)]);
    var s2 := After(s1, [Drop(c), Drop(d)]);
    Enters(s2, n, x, h);
    ThreeSteps(s2, Event(h, n, true), Check(h), Load(h));
    RunConcat(s, [Read(c, n), Read(d, n)] + [Drop(c), Drop(d)], [Event(h, n, true), Check(h), Load(h)]);
    steps := [Read(c, n), Read(d, n)] + [Drop(c), Drop(d)] + [Event(h, n, true), Check(h), Load(h)];
  }

  ghost predicate UsesFreed(s: State, h: HandlerId) {
    h in s.handlers && s.handlers[h].pc.Using? && s.handlers[h].pc.s in s.freed
  }

  /** That can happen from the start, and without any bind that fails. */
  lemma LeaversRaceHappens(s: State, n: NetId, x: ServerId) returns (steps: seq<Step>)
    requires Init(s) && n in s.nets
    ensures Run(s, steps) && AllBindWell(steps)
    ensures Broken(After(s, steps)) && exists h :: UsesFreed(After(s, steps), h)
  {
    var first := Starts(s, n, 0, x);
    var t := After(s, first);
    assert AllBindWell(first);
    hide Enabled, Next, Run, After, Settled;
    Joins(t, n, x);
    var race := LeaversRace(Next(t, Thread(n)), n, x, 0, 1, 0);
    assert AllBindWell(race);
    Prepend(t, Thread(n), race);
    RunConcat(s, first, [Thread(n)] + race);
    steps := first + ([Thread(n)] + race);
    assert UsesFreed(After(s, steps), 0);
  }

  /** A bind that fails frees the new server, but leaves the pointer to it. */
  lemma BindFailureDangles(s: State, n: NetId, c: CallId, f: ServerId)
    requires Init(s) && n in s.nets
    ensures var steps := [Look(c, n), Alloc(c, true, f), Bind(n, false)];
            && Run(s, steps)
            && var t := After(s, steps);
            && n in t.nets && t.nets[n].serv == Some(f) && f in t.freed && t.nets[n].control.Idle?
  {
    hide Enabled, Next, Run, After;
    Creates(s, n, c, f, false);
    ThreeSteps(s, Look(c, n), Alloc(c, true, f), Bind(n, false));
  }

  lemma LookTwice(s: State, n: NetId, c: CallId, d: CallId)
    requires Init(s) && n in s.nets && c != d
    ensures Enabled(s, Look(c, n)) && Enabled(Next(s, Look(c, n)), Look(d, n))
    ensures Next(Next(s, Look(c, n)), Look(d, n)) ==
            s.(calls := map[c := Call(n, Allocating), d := Call(n, Allocating)])
  {
    hide HandlerNext, DestroyNext, Droppers;
  }

  lemma AllocTwice(s: State, n: NetId, c: CallId, d: CallId, f: ServerId, g: ServerId)
    requires n in s.nets && s.nets[n].control.Idle? && s.threads == map[] && s.freed == {} && c != d && f != g
    requires forall m :: m in s.nets ==> s.nets[m].serv.None?
    requires s.calls == map[c := Call(n, Allocating), d := Call(n, Allocating)]
    ensures Enabled(s, Alloc(c, true, f)) && Enabled(Next(s, Alloc(c, true, f)), Alloc(d, true, g))
    ensures var t := Next(Next(s, Alloc(c, true, f)), Alloc(d, true, g));
            ThreadsOf(t, f) == 1 && f !in t.freed && !PointedTo(t, f)
  {
    hide HandlerNext, DestroyNext, Droppers;
  }

  /** Two calls of nfsd_create_serv that both find no server make two; nobody points to the first. */
  lemma CreatorsRace(s: State, n: NetId, c: CallId, d: CallId, f: ServerId, g: ServerId)
    requires Init(s) && n in s.nets && c != d && f != g
    ensures var steps := [Look(c, n), Look(d, n)] + [Alloc(c, true, f), Alloc(d, true, g)];
            && Run(s, steps)
            && var t := After(s, steps);
            && ThreadsOf(t, f) == 1 && f !in t.freed && !PointedTo(t, f)
  {
    LookTwice(s, n, c, d);
    TwoSteps(s, Look(c, n), Look(d, n));
    var t := After(s, [Look(c, n), Look(d, n)]);
    AllocTwice(t, n, c, d, f, g);
    TwoSteps(t, Alloc(c, true, f), Alloc(d, true, g));
    hide Enabled, Next, Run, After;
    RunConcat(s, [Look(c, n), Look(d, n)], [Alloc(c, true, f), Alloc(d, true, g)]);
  }

  lemma Waits(s: State, n: NetId, x: ServerId)
    requires At(s, n, Waiting) && s.nets[n].serv == Some(x) && s.nets[n].refcnt == 0
    ensures Enabled(s, Wait(n))
    ensures var t := Next(s, Wait(n));
            && At(t, n, Freeing) && t.nets[n].serv == Some(x) && t.threads == s.threads && t.freed == s.freed
            && t.calls == s.calls && t.misuse == s.misuse && t.users == s.users && t.handlers == s.handlers
            && t.nets[n].refcnt == 0 && !t.nets[n].up
  {
    hide HandlerNext, CreateNext, Droppers;
  }

  lemma ReadThenGet(s: State, n: NetId, x: ServerId, c: CallId, d: CallId)
    requires Settled(s, n, x, 1)
    ensures var a, b, e := Read(c, n), Look(d, n), Get(d);
            && Enabled(s, a) && Enabled(Next(s, a), b) && Enabled(Next(Next(s, a), b), e)
            && var t := Next(Next(Next(s, a), b), e);
            && n in t.nets && t.nets[n] == s.nets[n].(control := Shutting)
            && x !in t.freed && ThreadsOf(t, x) == 2 && t.users == s.users && t.calls == map[] && t.misuse == s.misuse
  {
    hide HandlerNext, Droppers;
    assert Droppers(s.calls, n) == {} by { NoDroppers(n); }
  }

  lemma ShutsDown(s: State, n: NetId, x: ServerId)
    requires At(s, n, Shutting) && s.nets[n].serv == Some(x) && s.nets[n].refcnt == 1 && s.users == 1
    ensures var a, b, e := Release(n), Unregister(n), Detach(n);
            && Enabled(s, a) && Enabled(Next(s, a), b) && Enabled(Next(Next(s, a), b), e)
            && var t := Next(Next(Next(s, a), b), e);
            && At(t, n, Waiting) && t.nets[n].serv == Some(x) && t.nets[n].refcnt == 0
            && t.threads == s.threads && t.freed == s.freed && t.calls == s.calls && t.misuse == s.misuse
            && t.users == 0 && t.handlers == s.handlers
  {
    hide HandlerNext, CreateNext, Droppers;
  }

  lemma FreesAndClears(s: State, n: NetId, x: ServerId)
    requires n in s.nets && s.nets[n].serv == Some(x) && s.nets[n].control.Freeing?
    requires x !in s.freed && ThreadsOf(s, x) >= 1
    ensures Enabled(s, Free(n)) && Enabled(Next(s, Free(n)), Clear(n))
    ensures var t := Next(Next(s, Free(n)), Clear(n));
            && n in t.nets && t.nets[n].serv.None? && t.nets[n].control.Idle? && t.handlers == s.handlers
            && t.calls == s.calls && t.misuse == s.misuse && t.users == s.users
            && t.nets[n] == s.nets[n].(serv := None, control := Idle)
            && ThreadsOf(t, x) == ThreadsOf(s, x) - 1 && (x in t.freed <==> ThreadsOf(s, x) == 1)
  {
    hide HandlerNext, CreateNext, Droppers;
  }

  /** A call of nfsd_create_serv finds a server whose last thread is already on its way out: the server keeps its new
      holder, but loses its pointer. */
  lemma GetRacesShutdown(s: State, n: NetId, x: ServerId, c: CallId, d: CallId) returns (steps: seq<Step>)
    requires Settled(s, n, x, 1) && s.users == 1
    ensures steps == [Read(c, n), Look(d, n), Get(d)] + [Release(n), Unregister(n), Detach(n)] +
                     [Wait(n), Free(n), Clear(n)]
    ensures Run(s, steps)
    ensures var t := After(s, steps);
            n in t.nets && t.nets[n].serv.None? && x !in t.freed && ThreadsOf(t, x) == 1
  {
    hide Enabled, Next, Run, After;
    ReadThenGet(s, n, x, c, d);
    ThreeSteps(s, Read(c, n), Look(d, n), Get(d));
    var s1 := After(s, [Read(c, n), Look(d, n), Get(d)]);
    ShutsDown(s1, n, x);
    ThreeSteps(s1, Release(n), Unregister(n), Detach(n));
    RunConcat(s, [Read(c, n), Look(d, n), Get(d)], [Release(n), Unregister(n), Detach(n)]);
    var s2 := After(s1, [Release(n), Unregister(n), Detach(n)]);
    Waits(s2, n, x);
    FreesAndClears(Next(s2, Wait(n)), n, x);
    ThreeSteps(s2, Wait(n), Free(n), Clear(n));
    RunConcat(s, [Read(c, n), Look(d, n), Get(d)] + [Release(n), Unregister(n), Detach(n)],
              [Wait(n), Free(n), Clear(n)]);
    steps := [Read(c, n), Look(d, n), Get(d)] + [Release(n), Unregister(n), Detach(n)] +
             [Wait(n), Free(n), Clear(n)];
  }

  lemma CreatesElsewhere(s: State, n: NetId, x: ServerId, m: NetId, d: CallId, y: ServerId)
    requires Settled(s, n, x, 1) && m in s.nets && m != n && s.nets[m] == Net(None, 0, false, Idle) && y !in s.threads
    ensures var a, b, e := Look(d, m), Alloc(d, true, y), Bind(m, true);
            && Enabled(s, a) && Enabled(Next(s, a), b) && Enabled(Next(Next(s, a), b), e)
            && Settled(Next(Next(Next(s, a), b), e), n, x, 1)
  {
    hide HandlerNext, DestroyNext, Droppers;
    assert s.calls[d := Call(m, Allocating)] - {d} == map[];
  }

  lemma LastUserLeaves(s: State, n: NetId, x: ServerId, m: NetId, c: CallId)
    requires Settled(s, n, x, 1) && s.users == 1 && At(s, m, Bound) && m != n
    ensures var a, b, e := Read(c, n), Release(n), Unregister(n);
            && Enabled(s, a) && Enabled(Next(s, a), b) && Enabled(Next(Next(s, a), b), e)
            && var t := Next(Next(Next(s, a), b), e); t.users == 0 && At(t, n, Detaching) && At(t, m, Bound)
  {
    hide HandlerNext, CreateNext, Droppers;
    assert Droppers(s.calls, n) == {} by { NoDroppers(n); }
  }

  lemma AttachThenDetach(s: State, n: NetId, m: NetId)
    requires s.users == 0 && At(s, n, Detaching) && At(s, m, Bound)
    ensures var a, b, e := Register(m), Attach(m), Detach(n);
            && Enabled(s, a) && Enabled(Next(s, a), b) && Enabled(Next(Next(s, a), b), e)
            && var t := Next(Next(Next(s, a), b), e);
            t.users == 1 && !t.listening && At(t, m, Registered) && At(t, n, Waiting)
  {
    hide HandlerNext, Droppers;
  }

  lemma ComesUp(s: State, n: NetId, x: ServerId)
    requires Settled(s, n, x, 1)
    ensures Enabled(s, Up(n))
    ensures var t := Next(s, Up(n)); Settled(t, n, x, 1) && t.nets[n].up && t.users == s.users
  {
    hide HandlerNext, SeekNext, DestroyNext, Droppers;
    assert Droppers(s.calls, n) == {} by { NoDroppers(n); }
  }

  lemma ReadsOne(s: State, n: NetId, x: ServerId, c: CallId)
    requires Settled(s, n, x, 1)
    ensures Enabled(s, Read(c, n))
    ensures Next(s, Read(c, n)) == s.(nets := s.nets[n := s.nets[n].(control := Shutting)])
  {
    hide HandlerNext, CreateNext, Droppers;
    assert Droppers(s.calls, n) == {} by { NoDroppers(n); }
  }

  lemma OneStep(s: State, a: Step)
    requires Enabled(s, a)
    ensures Run(s, [a]) && After(s, [a]) == Next(s, a)
  {
    hide Enabled, Next;
    Prepend(s, a, []);
    assert [a] == [a] + [];
  }

  /** A server's whole life: it is created, its namespace comes up, and when its only holder leaves everything is as it
      was before, but for the freed server. */
  lemma WholeLife(s: State, n: NetId, c: CallId, f: ServerId) returns (up: seq<Step>, down: seq<Step>)
    requires Init(s) && n in s.nets
    ensures up == [Look(c, n), Alloc(c, true, f), Bind(n, true)] + [Register(n), Attach(n), Count(n)] + [Up(n)]
    ensures down == [Read(c, n)] + [Release(n), Unregister(n), Detach(n)] + [Wait(n), Free(n), Clear(n)]
    ensures Run(s, up) && Settled(After(s, up), n, f, 1) && After(s, up).nets[n].up
    ensures Run(After(s, up), down)
    ensures var t := After(After(s, up), down);
            && n in t.nets && t.nets[n] == Net(None, 0, false, Idle) && t.users == 0 && t.calls == map[]
            && t.handlers == map[] && f in t.freed && ThreadsOf(t, f) == 0
  {
    var first := Starts(s, n, c, f);
    hide Enabled, Next, Run, After;
    var s1 := After(s, first);
    ComesUp(s1, n, f);
    OneStep(s1, Up(n));
    RunConcat(s, first, [Up(n)]);
    up := first + [Up(n)];
    var s2 := After(s, up);
    ReadsOne(s2, n, f, c);
    OneStep(s2, Read(c, n));
    var s3 := After(s2, [Read(c, n)]);
    ShutsDown(s3, n, f);
    ThreeSteps(s3, Release(n), Unregister(n), Detach(n));
    RunConcat(s2, [Read(c, n)], [Release(n), Unregister(n), Detach(n)]);
    var s4 := After(s3, [Release(n), Unregister(n), Detach(n)]);
    Waits(s4, n, f);
    FreesAndClears(Next(s4, Wait(n)), n, f);
    ThreeSteps(s4, Wait(n), Free(n), Clear(n));
    RunConcat(s2, [Read(c, n)] + [Release(n), Unregister(n), Detach(n)], [Wait(n), Free(n), Clear(n)]);
    down := [Read(c, n)] + [Release(n), Unregister(n), Detach(n)] + [Wait(n), Free(n), Clear(n)];
  }

  lemma ReadsTwo(s: State, n: NetId, x: ServerId, d: CallId)
    requires At(s, n, Shutting) && s.nets[n].serv == Some(x) && s.calls == map[] && ThreadsOf(s, x) == 2
    ensures Enabled(s, Read(d, n)) && Next(s, Read(d, n)) == s.(calls := map[d := Call(n, Dropping)])
  {
    hide HandlerNext, CreateNext, Droppers;
    assert Droppers(s.calls, n) == {} by { NoDroppers(n); }
  }

  lemma ReadThenDrop(s: State, n: NetId, x: ServerId, d: CallId)
    requires At(s, n, Shutting) && s.nets[n].serv == Some(x) && s.calls == map[]
    requires ThreadsOf(s, x) == 2 && x !in s.freed
    ensures Enabled(s, Read(d, n)) && Enabled(Next(s, Read(d, n)), Drop(d))
    ensures var t := Next(Next(s, Read(d, n)), Drop(d));
            && t.nets == s.nets && ThreadsOf(t, x) == 1 && t.freed == s.freed && t.users == s.users
            && t.misuse == s.misuse
  {
    hide HandlerNext, CreateNext, Droppers;
    ReadsTwo(s, n, x, d);
  }

  /** A call that took its reference while the server was being shut down gives it back in time: nothing goes wrong. */
  lemma GetInTime(s: State, n: NetId, x: ServerId, c: CallId, d: CallId) returns (steps: seq<Step>)
    requires Settled(s, n, x, 1) && s.users == 1
    ensures steps == [Read(c, n), Look(d, n), Get(d)] + [Read(d, n), Drop(d)] + [Release(n), Unregister(n), Detach(n)] +
                     [Wait(n), Free(n), Clear(n)]
    ensures Run(s, steps)
    ensures var t := After(s, steps);
            n in t.nets && t.nets[n].serv.None? && x in t.freed && ThreadsOf(t, x) == 0 && t.misuse == s.misuse
  {
    hide Enabled, Next, Run, After;
    ReadThenGet(s, n, x, c, d);
    ThreeSteps(s, Read(c, n), Look(d, n), Get(d));
    var s1 := After(s, [Read(c, n), Look(d, n), Get(d)]);
    ReadThenDrop(s1, n, x, d);
    TwoSteps(s1, Read(d, n), Drop(d));
    var first := [Read(c, n), Look(d, n), Get(d)] + [Read(d, n), Drop(d)];
    RunConcat(s, [Read(c, n), Look(d, n), Get(d)], [Read(d, n), Drop(d)]);
    var s2 := After(s1, [Read(d, n), Drop(d)]);
    ShutsDown(s2, n, x);
    ThreeSteps(s2, Release(n), Unregister(n), Detach(n));
    RunConcat(s, first, [Release(n), Unregister(n), Detach(n)]);
    var s3 := After(s2, [Release(n), Unregister(n), Detach(n)]);
    Waits(s3, n, x);
    FreesAndClears(Next(s3, Wait(n)), n, x);
    ThreeSteps(s3, Wait(n), Free(n), Clear(n));
    RunConcat(s, first + [Release(n), Unregister(n), Detach(n)], [Wait(n), Free(n), Clear(n)]);
    steps := first + [Release(n), Unregister(n), Detach(n)] + [Wait(n), Free(n), Clear(n)];
  }

  lemma DropsNull(s: State, n: NetId, d: CallId)
    requires n in s.nets && s.nets[n].serv.None? && d in s.calls && s.calls[d] == Call(n, Dropping)
    ensures Enabled(s, Drop(d)) && Next(s, Drop(d)).misuse
  {
    hide HandlerNext, CreateNext, Droppers;
  }

  /** The same call a little later: its reference is dropped when the pointer is gone, and it follows a null pointer. */
  lemma LateDrop(s: State, n: NetId, x: ServerId, c: CallId, d: CallId) returns (steps: seq<Step>)
    requires Settled(s, n, x, 1) && s.users == 1
    ensures steps == [Read(c, n), Look(d, n), Get(d)] + [Read(d, n)] + [Release(n), Unregister(n), Detach(n)] +
                     [Wait(n), Free(n), Clear(n)] + [Drop(d)]
    ensures Run(s, steps) && After(s, steps).misuse
  {
    hide Enabled, Next, Run, After;
    ReadThenGet(s, n, x, c, d);
    ThreeSteps(s, Read(c, n), Look(d, n), Get(d));
    var s1 := After(s, [Read(c, n), Look(d, n), Get(d)]);
    ReadsTwo(s1, n, x, d);
    OneStep(s1, Read(d, n));
    var first := [Read(c, n), Look(d, n), Get(d)] + [Read(d, n)];
    RunConcat(s, [Read(c, n), Look(d, n), Get(d)], [Read(d, n)]);
    var s2 := After(s1, [Read(d, n)]);
    ShutsDown(s2, n, x);
    ThreeSteps(s2, Release(n), Unregister(n), Detach(n));
    var second := first + [Release(n), Unregister(n), Detach(n)];
    RunConcat(s, first, [Release(n), Unregister(n), Detach(n)]);
    var s3 := After(s2, [Release(n), Unregister(n), Detach(n)]);
    Waits(s3, n, x);
    FreesAndClears(Next(s3, Wait(n)), n, x);
    ThreeSteps(s3, Wait(n), Free(n), Clear(n));
    var third := second + [Wait(n), Free(n), Clear(n)];
    RunConcat(s, second, [Wait(n), Free(n), Clear(n)]);
    var s4 := After(s3, [Wait(n), Free(n), Clear(n)]);
    DropsNull(s4, n, d);
    OneStep(s4, Drop(d));
    RunConcat(s, third, [Drop(d)]);
    steps := third + [Drop(d)];
  }

  lemma AllocAndBind(s: State, n: NetId, c: CallId, d: CallId, f: ServerId)
    requires n in s.nets && s.nets[n] == Net(None, 0, false, Idle) && s.threads == map[] && s.handlers == map[]
    requires c != d && s.calls == map[c := Call(n, Allocating), d := Call(n, Allocating)] && s.users == 0
    ensures var a, b := Alloc(c, true, f), Bind(n, true);
            && Enabled(s, a) && Enabled(Next(s, a), b)
            && var t := Next(Next(s, a), b);
            && n in t.nets && t.nets[n] == Net(Some(f), 0, false, Bound) && t.handlers == map[] && t.users == 0
            && t.calls == map[d := Call(n, Allocating)] && t.threads.Keys == {f}
  {
    hide HandlerNext, DestroyNext, Droppers;
    assert s.calls - {c} == map[d := Call(n, Allocating)];
  }

  lemma RegistersBeside(s: State, n: NetId, f: ServerId)
    requires n in s.nets && s.nets[n] == Net(Some(f), 0, false, Bound) && s.users == 0
    ensures var a, b, e := Register(n), Attach(n), Count(n);
            && Enabled(s, a) && Enabled(Next(s, a), b) && Enabled(Next(Next(s, a), b), e)
            && var t := Next(Next(Next(s, a), b), e);
            && n in t.nets && t.nets[n] == Net(Some(f), 1, false, Idle) && t.handlers == s.handlers
            && t.calls == s.calls && t.threads == s.threads
  {
    hide HandlerNext, DestroyNext, SeekNext, Droppers;
  }

  lemma ChecksBeside(s: State, n: NetId, f: ServerId, h: HandlerId)
    requires n in s.nets && s.nets[n] == Net(Some(f), 1, false, Idle) && h !in s.handlers
    ensures var a, b := Event(h, n, true), Check(h);
            && Enabled(s, a) && Enabled(Next(s, a), b)
            && var t := Next(Next(s, a), b);
            && n in t.nets && h in t.handlers && t.handlers[h] == Handler(n, Checked)
            && t.calls == s.calls && t.threads == s.threads
  {
    hide CreateNext, DestroyNext, Droppers;
  }

  lemma LoadsNull(s: State, n: NetId, d: CallId, g: ServerId, h: HandlerId)
    requires n in s.nets && h in s.handlers && s.handlers[h] == Handler(n, Checked) && g !in s.threads
    requires d in s.calls && s.calls[d] == Call(n, Allocating)
    ensures var a, b := Alloc(d, false, g), Load(h);
            Enabled(s, a) && Enabled(Next(s, a), b) && Next(Next(s, a), b).misuse
  {
    hide DestroyNext, MakeNext, Droppers;
  }

  /** A creator that gets no memory clears the pointer that another has just set, and a handler that has seen it follows
      a null pointer. */
  lemma FailedCreatorRace(s: State, n: NetId, c: CallId, d: CallId, f: ServerId, g: ServerId, h: HandlerId)
    returns (steps: seq<Step>)
    requires Init(s) && n in s.nets && c != d && f != g
    ensures steps == [Look(c, n), Look(d, n)] + [Alloc(c, true, f), Bind(n, true)] +
                     [Register(n), Attach(n), Count(n)] + [Event(h, n, true), Check(h)] +
                     [Alloc(d, false, g), Load(h)]
    ensures Run(s, steps) && After(s, steps).misuse
  {
    hide Enabled, Next, Run, After;
    LookTwice(s, n, c, d);
    TwoSteps(s, Look(c, n), Look(d, n));
    var s1 := After(s, [Look(c, n), Look(d, n)]);
    AllocAndBind(s1, n, c, d, f);
    TwoSteps(s1, Alloc(c, true, f), Bind(n, true));
    var first := [Look(c, n), Look(d, n)] + [Alloc(c, true, f), Bind(n, true)];
    RunConcat(s, [Look(c, n), Look(d, n)], [Alloc(c, true, f), Bind(n, true)]);
    var s2 := After(s1, [Alloc(c, true, f), Bind(n, true)]);
    RegistersBeside(s2, n, f);
    ThreeSteps(s2, Register(n), Attach(n), Count(n));
    var second := first + [Register(n), Attach(n), Count(n)];
    RunConcat(s, first, [Register(n), Attach(n), Count(n)]);
    var s3 := After(s2, [Register(n), Attach(n), Count(n)]);
    ChecksBeside(s3, n, f, h);
    TwoSteps(s3, Event(h, n, true), Check(h));
    var third := second + [Event(h, n, true), Check(h)];
    RunConcat(s, second, [Event(h, n, true), Check(h)]);
    var s4 := After(s3, [Event(h, n, true), Check(h)]);
    LoadsNull(s4, n, d, g, h);
    TwoSteps(s4, Alloc(d, false, g), Load(h));
    RunConcat(s, third, [Alloc(d, false, g), Load(h)]);
    steps := third + [Alloc(d, false, g), Load(h)];
  }

  /** The last user of the notifier leaves while another namespace becomes its first: the count is right, but the
      notifier is unregistered after it was registered, and the new server hears of no address event. */
  lemma NotifierRace(s: State, n: NetId, x: ServerId, m: NetId, y: ServerId, c: CallId, d: CallId)
    returns (steps: seq<Step>)
    requires Settled(s, n, x, 1) && s.users == 1
    requires m in s.nets && m != n && s.nets[m] == Net(None, 0, false, Idle) && y !in s.threads && y !in s.freed
    ensures steps == [Look(d, m), Alloc(d, true, y), Bind(m, true)] + [Read(c, n), Release(n), Unregister(n)] +
                     [Register(m), Attach(m), Detach(n)]
    ensures Run(s, steps)
    ensures var t := After(s, steps); t.users == 1 && !t.listening && At(t, m, Registered) && At(t, n, Waiting)
  {
    hide Enabled, Next, Run, After;
    Creates(s, m, d, y, true);
    CreatesElsewhere(s, n, x, m, d, y);
    ThreeSteps(s, Look(d, m), Alloc(d, true, y), Bind(m, true));
    var s1 := After(s, [Look(d, m), Alloc(d, true, y), Bind(m, true)]);
    LastUserLeaves(s1, n, x, m, c);
    ThreeSteps(s1, Read(c, n), Release(n), Unregister(n));
    RunConcat(s, [Look(d, m), Alloc(d, true, y), Bind(m, true)], [Read(c, n), Release(n), Unregister(n)]);
    var s2 := After(s1, [Read(c, n), Release(n), Unregister(n)]);
    AttachThenDetach(s2, n, m);
    ThreeSteps(s2, Register(m), Attach(m), Detach(n));
    RunConcat(s, [Look(d, m), Alloc(d, true, y), Bind(m, true)] + [Read(c, n), Release(n), Unregister(n)],
              [Register(m), Attach(m), Detach(n)]);
    steps := [Look(d, m), Alloc(d, true, y), Bind(m, true)] + [Read(c, n), Release(n), Unregister(n)] +
             [Register(m), Attach(m), Detach(n)];
  }

  lemma ComesAndUses(s: State, n: NetId, h: HandlerId)
    requires n in s.nets && s.nets[n].refcnt != 0 && s.nets[n].serv.Some? && h !in s.handlers
    ensures var a, b, c := Event(h, n, true), Check(h), Load(h);
            && Enabled(s, a) && Enabled(Next(s, a), b) && Enabled(Next(Next(s, a), b), c)
            && var t := Next(Next(Next(s, a), b), c);
            && Enabled(t, Done(h)) && Enabled(Next(t, Done(h)), Leave(h)) && Next(Next(t, Done(h)), Leave(h)) == s
  {
    hide CreateNext, DestroyNext, Droppers, Holders, Due;
    var net := s.nets[n];
    assert s.nets[n := net.(refcnt := net.refcnt + 1)][n := net] == s.nets;
    var t := Next(Next(Next(s, Event(h, n, true)), Check(h)), Load(h));
    assert t.handlers == s.handlers[h := Handler(n, Using(net.serv.value))];
    assert s.handlers[h := Handler(n, Leaving)] - {h} == s.handlers;
  }

  lemma ComesAndGoes(s: State, n: NetId, h: HandlerId)
    requires n in s.nets && s.nets[n].refcnt != 0 && s.nets[n].serv.None? && h !in s.handlers
    ensures var a, b, c := Event(h, n, true), Check(h), Leave(h);
            && Enabled(s, a) && Enabled(Next(s, a), b) && Enabled(Next(Next(s, a), b), c)
            && Next(Next(Next(s, a), b), c) == s
  {
    hide CreateNext, DestroyNext, Droppers, Holders, Due;
    var net := s.nets[n];
    assert s.nets[n := net.(refcnt := net.refcnt + 1)][n := net] == s.nets;
    assert s.handlers[h := Handler(n, Leaving)] - {h} == s.handlers;
  }

  /** A handler on its own: it uses the server that the pointer is to, if there is one, and then everything is as
      before. */
  lemma HandlerLeavesNothing(s: State, n: NetId, h: HandlerId) returns (steps: seq<Step>)
    requires n in s.nets && s.nets[n].refcnt != 0 && h !in s.handlers
    ensures steps ==
      if s.nets[n].serv.Some? then [Event(h, n, true), Check(h), Load(h)] + [Done(h), Leave(h)]
      else [Event(h, n, true), Check(h), Leave(h)]
    ensures Run(s, steps) && After(s, steps) == s
  {
    hide Enabled, Next, Run, After;
    if s.nets[n].serv.Some? {
      ComesAndUses(s, n, h);
      ThreeSteps(s, Event(h, n, true), Check(h), Load(h));
      var t := After(s, [Event(h, n, true), Check(h), Load(h)]);
      TwoSteps(t, Done(h), Leave(h));
      RunConcat(s, [Event(h, n, true), Check(h), Load(h)], [Done(h), Leave(h)]);
      steps := [Event(h, n, true), Check(h), Load(h)] + [Done(h), Leave(h)];
    } else {
      ComesAndGoes(s, n, h);
      ThreeSteps(s, Event(h, n, true), Check(h), Leave(h));
      steps := [Event(h, n, true), Check(h), Leave(h)];
    }
  }

  // ----- shutdown is never stuck -----

  function Rank(pc: Pc): nat {
    match pc
    case Entered => 3
    case Checked => 2
    case Using(_) => 1
    case Leaving => 0
  }

  /** The next step of a handler that is inside. */
  function Onward(h: HandlerId, pc: Pc): Step {
    match pc
    case Entered => Check(h)
    case Checked => Load(h)
    case Using(_) => Done(h)
    case Leaving => Leave(h)
  }

  /** A handler's next step is always enabled; it comes closer to leaving and touches no one else. */
  lemma HandlerAdvances(s: State, h: HandlerId)
    requires Inv(s) && h in s.handlers
    ensures var a := Onward(h, s.handlers[h].pc);
            && Enabled(s, a) && Orderly(s, a) && SameServers(s, Next(s, a))
            && var hs := Next(s, a).handlers;
               if s.handlers[h].pc.Leaving? then hs == s.handlers - {h}
               else
                 && h in hs && hs == s.handlers[h := hs[h]] && hs[h].net == s.handlers[h].net
                 && Rank(hs[h].pc) < Rank(s.handlers[h].pc)
  {
    hide InFlight, Counted, NetsSane, ServersDistinct, NoneLost, CreateNext, DestroyNext, SameServers;
    HandlerStepServers(s, Onward(h, s.handlers[h].pc));
  }

  /** Steps that let handler `h` out. */
  lemma {:induction false} LetOut(s: State, h: HandlerId) returns (steps: seq<Step>)
    requires Inv(s) && h in s.handlers
    ensures Run(s, steps) && Inv(After(s, steps))
    ensures SameServers(s, After(s, steps)) && After(s, steps).handlers == s.handlers - {h}
    ensures forall k :: 0 <= k < |steps| ==> HandlerStep(steps[k]) && !steps[k].Event?
    decreases Rank(s.handlers[h].pc)
  {
    hide Inv, Enabled, Next, Orderly;
    var a := Onward(h, s.handlers[h].pc);
    HandlerAdvances(s, h);
    StepKeeps(s, a);
    var t := Next(s, a);
    if s.handlers[h].pc.Leaving? {
      steps := [a];
      assert After(s, steps) == t;
    } else {
      var rest := LetOut(t, h);
      steps := [a] + rest;
      assert steps[1..] == rest;
      assert t.handlers - {h} == s.handlers - {h};
    }
  }

  /** With nobody inside the wait is over. */
  lemma WaitEnds(s: State, n: NetId, x: ServerId)
    requires Inv(s) && At(s, n, Waiting) && s.nets[n].serv == Some(x) && s.handlers.Keys == {}
    ensures Enabled(s, Wait(n)) && x !in s.freed
    ensures var t := Next(s, Wait(n));
            && At(t, n, Freeing) && t.nets[n].serv == Some(x) && t.threads == s.threads && t.freed == s.freed
            && t.handlers == map[]
  {
    hide ServersDistinct, HandlersSafe, NoneLost, Droppers, HandlerNext, CreateNext;
    SaneAt(s, n);
    CountedAt(s, n);
    assert InFlight(s.handlers, n) == {};
    assert s.handlers == map[];
  }

  /** Whoever is still inside, a waiting shutdown can go on to its end without any new event, and the server is freed
      and its pointer cleared. */
  lemma {:induction false} ShutdownCompletes(s: State, n: NetId, x: ServerId) returns (steps: seq<Step>)
    requires Inv(s) && At(s, n, Waiting) && s.nets[n].serv == Some(x) && ThreadsOf(s, x) == 1
    ensures Run(s, steps)
    ensures var t := After(s, steps); At(t, n, Idle) && t.nets[n].serv.None? && x in t.freed && t.handlers == map[]
    ensures forall k :: 0 <= k < |steps| ==> !steps[k].Event? && !CreateStep(steps[k])
    decreases |s.handlers|
  {
    hide Inv, Enabled, Next, Run, After;
    if h :| h in s.handlers {
      var first := LetOut(s, h);
      var t := After(s, first);
      assert |t.handlers| < |s.handlers| by { assert t.handlers.Keys == s.handlers.Keys - {h}; }
      var rest := ShutdownCompletes(t, n, x);
      RunConcat(s, first, rest);
      steps := first + rest;
    } else {
      WaitEnds(s, n, x);
      FreesAndClears(Next(s, Wait(n)), n, x);
      ThreeSteps(s, Wait(n), Free(n), Clear(n));
      steps := [Wait(n), Free(n), Clear(n)];
    }
  }
}
