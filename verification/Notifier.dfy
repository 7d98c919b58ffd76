/**
 The server's life and the address events that run beside it.

 Each network namespace has a server pointer, a count of those who hold the server, and a count of those who may look
 at the pointer: one for the server itself and one for every address-event handler inside. `Next` is one atomic step of
 one actor. Any number of handlers and any number of calls of nfsd_create_serv and nfsd_destroy run at the same time, in
 any namespaces, and nothing keeps them apart: the source has no lock around them. That each call of nfsd_destroy gives
 up a reference of its caller's own is all that is asked of the callers.

 Handlers may start at any time, whether the notifier is registered or not, and unregistering it does not wait for
 them: safety rests on the counts and the wait alone.
 */
module Notifier {
  import opened Options

  type NetId = nat
  type HandlerId = nat
  type CallId = nat
  type ServerId = nat

  /** What is happening to a namespace's server: the call that made it is on its way through nfsd_create_serv, or a call
      of nfsd_destroy has found itself to be the only holder and is on its way through nfsd_last_thread. */
  datatype Control =
    | Idle
    | Binding | Bound | Attaching | Registered
    | Shutting | Released | Detaching | Waiting | Freeing | Clearing

  /** struct nfsd_net: nfsd_serv, ntf_refcnt, nfsd_net_up. */
  datatype Net = Net(serv: Option<ServerId>, refcnt: int, up: bool, control: Control)

  /** Where a handler of nfsd_inetaddr_event is. */
  datatype Pc = Entered | Checked | Using(s: ServerId) | Leaving
  datatype Handler = Handler(net: NetId, pc: Pc)

  /** Other calls: one of nfsd_create_serv that has found a server, one that has found none, and one of nfsd_destroy
      that has found other holders. */
  datatype CallPc = Getting | Allocating | Dropping
  datatype Call = Call(net: NetId, pc: CallPc)

  datatype State = State(
    nets: map<NetId, Net>,
    handlers: map<HandlerId, Handler>,
    calls: map<CallId, Call>,
    threads: map<ServerId, nat>,   // sv_nrthreads of every server that was ever created
    freed: set<ServerId>,
    users: int,                    // nfsd_notifier_refcount
    listening: bool,               // the notifier is registered
    misuse: bool)                  // a null pointer or a freed server was followed

  datatype Step =
    // nfsd_inetaddr_event
    | Event(h: HandlerId, net: NetId, down: bool)
    | Check(h: HandlerId)
    | Load(h: HandlerId)
    | Done(h: HandlerId)
    | Leave(h: HandlerId)
    // nfsd_create_serv
    | Look(c: CallId, net: NetId)
    | Get(c: CallId)
    | Alloc(c: CallId, memory: bool, id: ServerId)
    | Bind(net: NetId, ok: bool)
    | Register(net: NetId)
    | Attach(net: NetId)
    | Count(net: NetId)
    // svo_setup: one more thread holds the server
    | Thread(net: NetId)
    // nfsd_startup_net
    | Up(net: NetId)
    // nfsd_destroy: read sv_nrthreads; then, with other holders, drop one reference
    | Read(c: CallId, net: NetId)
    | Drop(c: CallId)
    // or, without them, nfsd_last_thread, and then drop the reference and clear the pointer
    | Release(net: NetId)
    | Unregister(net: NetId)
    | Detach(net: NetId)
    | Wait(net: NetId)
    | Free(net: NetId)
    | Clear(net: NetId)

  function ThreadsOf(s: State, x: ServerId): nat {
    if x in s.threads then s.threads[x] else 0
  }

  /** Holders of the server that `n` points to. */
  function Holders(s: State, n: NetId): nat {
    if n in s.nets && s.nets[n].serv.Some? then ThreadsOf(s, s.nets[n].serv.value) else 0
  }

  /** `n` points to a server that is not freed. */
  predicate Live(s: State, n: NetId) {
    n in s.nets && s.nets[n].serv.Some? && s.nets[n].serv.value !in s.freed
  }

  /** Calls that are about to drop a reference to the server of `n`. */
  function Droppers(calls: map<CallId, Call>, n: NetId): set<CallId> {
    set c | c in calls && calls[c] == Call(n, Dropping)
  }

  /** The call that `control` tells about has a reference of its own. */
  predicate Holding(c: Control) {
    !c.Idle? && !c.Clearing?
  }

  /** References to the server of `n` that belong to calls under way. */
  function Due(s: State, n: NetId): nat {
    |Droppers(s.calls, n)| + if n in s.nets && Holding(s.nets[n].control) then 1 else 0
  }

  predicate At(s: State, n: NetId, c: Control) {
    n in s.nets && s.nets[n].control == c
  }

  predicate CallAt(s: State, c: CallId, pc: CallPc) {
    c in s.calls && s.calls[c].pc == pc && s.calls[c].net in s.nets
  }

  predicate HandlerIn(s: State, h: HandlerId) {
    h in s.handlers && s.handlers[h].net in s.nets
  }

  /** Thread and Read are steps of somebody with a reference that no call under way is about to drop. */
  predicate Enabled(s: State, a: Step) {
    match a
    case Event(h, n, _) => h !in s.handlers && n in s.nets
    case Check(h) => HandlerIn(s, h) && s.handlers[h].pc.Entered?
    case Load(h) => HandlerIn(s, h) && s.handlers[h].pc.Checked?
    case Done(h) => h in s.handlers && s.handlers[h].pc.Using?
    case Leave(h) => HandlerIn(s, h) && s.handlers[h].pc.Leaving?
    case Look(c, n) => c !in s.calls && n in s.nets
    case Get(c) => CallAt(s, c, Getting)
    case Alloc(c, _, f) => CallAt(s, c, Allocating) && f !in s.threads
    case Bind(n, _) => At(s, n, Binding)
    case Register(n) => At(s, n, Bound)
    case Attach(n) => At(s, n, Attaching)
    case Count(n) => At(s, n, Registered)
    case Thread(n) => n in s.nets && Holders(s, n) > Due(s, n)
    case Up(n) => n in s.nets && Holders(s, n) > Due(s, n)
    case Read(c, n) => c !in s.calls && n in s.nets && Holders(s, n) > Due(s, n)
    case Drop(c) => CallAt(s, c, Dropping)
    case Release(n) => At(s, n, Shutting)
    case Unregister(n) => At(s, n, Released)
    case Detach(n) => At(s, n, Detaching)
    case Wait(n) => At(s, n, Waiting) && s.nets[n].refcnt == 0
    case Free(n) => At(s, n, Freeing)
    case Clear(n) => At(s, n, Clearing)
  }

  function WithNet(s: State, n: NetId, net: Net): State {
    s.(nets := s.nets[n := net])
  }

  function WithControl(s: State, n: NetId, c: Control): State
    requires n in s.nets
  {
    WithNet(s, n, s.nets[n].(control := c))
  }

  function WithPc(s: State, h: HandlerId, pc: Pc): State
    requires h in s.handlers
  {
    s.(handlers := s.handlers[h := s.handlers[h].(pc := pc)])
  }

  function Returned(s: State, c: CallId): State {
    s.(calls := s.calls - {c})
  }

  /** svc_get of what `n` points to. */
  function SvcGet(s: State, n: NetId): (t: State)
    requires n in s.nets
    ensures t == s.(threads := t.threads, misuse := t.misuse)
  {
    if Live(s, n) then s.(threads := s.threads[s.nets[n].serv.value := Holders(s, n) + 1]) else s.(misuse := true)
  }

  /** svc_destroy of what `n` points to: drop one reference, and free the server with the last. */
  function SvcDestroy(s: State, n: NetId): (t: State)
    requires n in s.nets
    ensures t == s.(threads := t.threads, freed := t.freed, misuse := t.misuse)
  {
    if !Live(s, n) then s.(misuse := true)
    else
      var x, t := s.nets[n].serv.value, Holders(s, n);
      if t <= 1 then s.(threads := s.threads[x := 0], freed := s.freed + {x})
      else s.(threads := s.threads[x := t - 1])
  }

  /** The pointer is set to the new server, or to null if there is no memory, whatever it was. A call that was at work
      on the old server is not followed any further, unless it is about to clear the pointer. */
  function Allocated(s: State, n: NetId, memory: bool, f: ServerId): State
    requires n in s.nets
  {
    if !memory then WithNet(s, n, s.nets[n].(serv := None))
    else
      var c := if s.nets[n].control.Clearing? then Clearing else Binding;
      WithNet(s, n, s.nets[n].(serv := Some(f), control := c)).(threads := s.threads[f := 1])
  }

  predicate HandlerStep(a: Step) {
    a.Event? || a.Check? || a.Load? || a.Done? || a.Leave?
  }

  predicate SeekStep(a: Step) {
    a.Look? || a.Get? || a.Alloc?
  }

  predicate CreateStep(a: Step) {
    SeekStep(a) || a.Bind? || a.Register? || a.Attach? || a.Count? || a.Thread? || a.Up?
  }

  function HandlerNext(s: State, a: Step): State
    requires Enabled(s, a) && HandlerStep(a)
  {
    match a
    case Event(h, n, down) =>
      // atomic_inc_not_zero
      if !down || s.nets[n].refcnt == 0 then s
      else WithNet(s, n, s.nets[n].(refcnt := s.nets[n].refcnt + 1)).(handlers := s.handlers[h := Handler(n, Entered)])
    case Check(h) => WithPc(s, h, if s.nets[s.handlers[h].net].serv.Some? then Checked else Leaving)
    case Load(h) =>
      var serv := s.nets[s.handlers[h].net].serv;
      if serv.None? then WithPc(s, h, Leaving).(misuse := true) else WithPc(s, h, Using(serv.value))
    case Done(h) => WithPc(s, h, Leaving)
    case Leave(h) =>
      var n := s.handlers[h].net;
      WithNet(s, n, s.nets[n].(refcnt := s.nets[n].refcnt - 1)).(handlers := s.handlers - {h})
  }

  /** The start of nfsd_create_serv. */
  function SeekNext(s: State, a: Step): State
    requires Enabled(s, a) && SeekStep(a)
  {
    match a
    case Look(c, n) => s.(calls := s.calls[c := Call(n, if s.nets[n].serv.Some? then Getting else Allocating)])
    case Get(c) => Returned(SvcGet(s, s.calls[c].net), c)
    case Alloc(c, memory, f) => Returned(Allocated(s, s.calls[c].net, memory, f), c)
  }

  /** The rest of it, and of nfsd_svc. */
  function MakeNext(s: State, a: Step): State
    requires Enabled(s, a) && CreateStep(a) && !SeekStep(a)
  {
    match a
    case Bind(n, ok) => if ok then WithControl(s, n, Bound) else WithControl(SvcDestroy(s, n), n, Idle)
    case Register(n) =>
      WithControl(s, n, if s.users + 1 == 1 then Attaching else Registered).(users := s.users + 1)
    case Attach(n) => WithControl(s, n, Registered).(listening := true)
    case Count(n) => WithNet(s, n, s.nets[n].(refcnt := s.nets[n].refcnt + 1, control := Idle))
    case Thread(n) => SvcGet(s, n)
    case Up(n) => WithNet(s, n, s.nets[n].(up := true))
  }

  function CreateNext(s: State, a: Step): State
    requires Enabled(s, a) && CreateStep(a)
  {
    if SeekStep(a) then SeekNext(s, a) else MakeNext(s, a)
  }

  function DestroyNext(s: State, a: Step): State
    requires Enabled(s, a) && !HandlerStep(a) && !CreateStep(a)
  {
    match a
    case Read(c, n) =>
      if Holders(s, n) == 1 then WithControl(s, n, Shutting) else s.(calls := s.calls[c := Call(n, Dropping)])
    case Drop(c) => Returned(SvcDestroy(s, s.calls[c].net), c)
    case Release(n) => WithNet(s, n, s.nets[n].(refcnt := s.nets[n].refcnt - 1, control := Released))
    case Unregister(n) =>
      WithControl(s, n, if s.users - 1 == 0 then Detaching else Waiting).(users := s.users - 1)
    case Detach(n) => WithControl(s, n, Waiting).(listening := false)
    case Wait(n) => WithNet(s, n, s.nets[n].(up := false, control := Freeing))
    case Free(n) => WithControl(SvcDestroy(s, n), n, Clearing)
    case Clear(n) => WithNet(s, n, s.nets[n].(serv := None, control := Idle))
  }

  function Next(s: State, a: Step): State
    requires Enabled(s, a)
  {
    if HandlerStep(a) then HandlerNext(s, a) else if CreateStep(a) then CreateNext(s, a) else DestroyNext(s, a)
  }

  ghost predicate Init(s: State) {
    && (forall n :: n in s.nets ==> s.nets[n] == Net(None, 0, false, Idle))
    && s.handlers == map[] && s.calls == map[] && s.threads == map[] && s.freed == {} && s.users == 0
    && !s.listening && !s.misuse
  }

  /** A run from `s`: each step is enabled where it is taken. */
  ghost predicate Run(s: State, steps: seq<Step>)
    decreases |steps|
  {
    steps != [] ==> Enabled(s, steps[0]) && Run(Next(s, steps[0]), steps[1..])
  }

  ghost function After(s: State, steps: seq<Step>): State
    requires Run(s, steps)
    decreases |steps|
  {
    if steps == [] then s else After(Next(s, steps[0]), steps[1..])
  }

  // ----- what can go wrong, and which steps do it -----

  /** Handlers inside namespace `n`. */
  ghost function InFlight(hs: map<HandlerId, Handler>, n: NetId): set<HandlerId> {
    set h | h in hs && hs[h].net == n
  }

  /** The server's own reference in ntf_refcnt: taken at the end of creation, given back at the start of shutdown. */
  function Own(net: Net): int {
    if net.serv.Some? && (net.control.Idle? || net.control.Shutting?) then 1 else 0
  }

  /** The pointer is to a freed server and nobody is about to clear it; or it is about to be cleared although its server
      lives; or the count is not that of the server's own reference and the handlers inside. */
  ghost predicate Astray(s: State, n: NetId)
    requires n in s.nets
  {
    || (s.nets[n].serv.Some? && !Live(s, n) && !s.nets[n].control.Clearing?)
    || (Live(s, n) && s.nets[n].control.Clearing?)
    || s.nets[n].refcnt != Own(s.nets[n]) + |InFlight(s.handlers, n)|
  }

  /** Some call is at this point. */
  ghost predicate SomeAt(s: State, c: Control) {
    exists n :: n in s.nets && s.nets[n].control == c
  }

  /** The notifier has users and is not registered, or is and has none, and nobody is about to see to it. */
  ghost predicate Misheard(s: State) {
    || (s.users > 0 && !s.listening && !SomeAt(s, Attaching))
    || (s.users == 0 && s.listening && !SomeAt(s, Detaching))
  }

  ghost predicate PointedTo(s: State, x: ServerId) {
    exists n :: n in s.nets && s.nets[n].serv == Some(x)
  }

  ghost predicate Broken(s: State) {
    || s.misuse || Misheard(s)
    || (exists n :: n in s.nets && Astray(s, n))
    || (exists x :: x in s.threads && x !in s.freed && !PointedTo(s, x))
    || (exists h :: h in s.handlers && s.handlers[h].pc.Using? && s.handlers[h].pc.s in s.freed)
  }

  /** The steps that do no harm. A new server goes to an empty pointer that nobody is about to clear; a reference is
      taken to a live server; no bind fails; sv_nrthreads goes to zero in a call that read it as one, and only there;
      and the notifier is unregistered while it has no users, or somebody is about to register it. */
  ghost predicate Orderly(s: State, a: Step)
    requires Enabled(s, a)
  {
    match a
    case Get(c) => Live(s, s.calls[c].net)
    case Alloc(c, memory, _) =>
      var n := s.calls[c].net;
      if memory then s.nets[n].serv.None? && !s.nets[n].control.Clearing? else !Live(s, n)
    case Bind(_, ok) => ok
    case Drop(c) => Holders(s, s.calls[c].net) != 1
    case Free(n) => Holders(s, n) == 1
    case Detach(_) => s.users == 0 || SomeAt(s, Attaching)
    case _ => true
  }

  ghost predicate AllOrderly(s: State, steps: seq<Step>)
    requires Run(s, steps)
    decreases |steps|
  {
    steps != [] ==> Orderly(s, steps[0]) && AllOrderly(Next(s, steps[0]), steps[1..])
  }

  ghost predicate NeverBroken(s: State, steps: seq<Step>)
    requires Run(s, steps)
    decreases |steps|
  {
    !Broken(s) && (steps != [] ==> NeverBroken(Next(s, steps[0]), steps[1..]))
  }
}
