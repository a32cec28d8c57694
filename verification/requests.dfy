/**
 A request's control state and its parameter builders. `cancel`, `resume`
 and `suspend` go straight to the attached transport request when there is
 one; otherwise the wanted state is remembered and replayed once the
 transport request is attached. The transport is represented only by a
 handle and by the log of commands forwarded to it.
 */
module Requests {
  import opened Wrappers

  /** The states of a transport request. */
  datatype State = Initialized | Resumed | Suspended | Cancelled | Finished

  /** The commands a transport request accepts. */
  datatype Command = Cancel | Resume | Suspend

  /** An attached transport request, told apart by its identity. */
  datatype Handle = Handle(id: nat)

  /**
   The control part of a request: the attached transport request, if any,
   the state wanted before one was attached, and every command forwarded so
   far with the handle it went to.
   */
  datatype Control = Control(
    transport: Option<Handle>,
    pending: Option<State>,
    forwarded: seq<(Handle, Command)>)

  /** A fresh request: nothing attached, nothing pending, nothing forwarded. */
  const Fresh := Control(None, None, [])

  /** The state a command asks for. */
  function Target(cmd: Command): (s: State)
    ensures s != Initialized && s != Finished
  {
    match cmd
    case Cancel => Cancelled
    case Resume => Resumed
    case Suspend => Suspended
  }

  /** The command replayed for a pending state: only cancelled, suspended and resumed are replayed. */
  function ReplayOf(s: State): Option<Command>
  {
    match s
    case Cancelled => Some(Cancel)
    case Suspended => Some(Suspend)
    case Resumed => Some(Resume)
    case _ => None
  }

  /** Replaying the state a command asked for issues that command again, and only those states replay. */
  lemma ReplayRoundTrip(cmd: Command, s: State)
    ensures ReplayOf(Target(cmd)) == Some(cmd)
    ensures ReplayOf(s).Some? <==> exists c :: Target(c) == s
  {
    if ReplayOf(s).Some? {
      assert Target(ReplayOf(s).value) == s;
    }
  }

  /**
   One control call. With a transport attached the command is forwarded to
   it and nothing else changes; without one, nothing is forwarded and the
   command's state becomes the pending state.
   */
  function Perform(c: Control, cmd: Command): (r: Control)
    ensures r.transport == c.transport
    ensures c.transport.Some? ==> r.forwarded == c.forwarded + [(c.transport.value, cmd)] && r.pending == c.pending
    ensures c.transport.None? ==> r.forwarded == c.forwarded && r.pending == Some(Target(cmd))
  {
    match c.transport
    case Some(h) => c.(forwarded := c.forwarded + [(h, cmd)])
    case None => c.(pending := Some(Target(cmd)))
  }

  function CancelRequest(c: Control): (r: Control)
    ensures c.transport.Some? ==> r.forwarded == c.forwarded + [(c.transport.value, Cancel)] && r.pending == c.pending
    ensures c.transport.None? ==> r.forwarded == c.forwarded && r.pending == Some(Cancelled)
  {
    Perform(c, Cancel)
  }

  function ResumeRequest(c: Control): (r: Control)
    ensures c.transport.Some? ==> r.forwarded == c.forwarded + [(c.transport.value, Resume)] && r.pending == c.pending
    ensures c.transport.None? ==> r.forwarded == c.forwarded && r.pending == Some(Resumed)
  {
    Perform(c, Resume)
  }

  function SuspendRequest(c: Control): (r: Control)
    ensures c.transport.Some? ==> r.forwarded == c.forwarded + [(c.transport.value, Suspend)] && r.pending == c.pending
    ensures c.transport.None? ==> r.forwarded == c.forwarded && r.pending == Some(Suspended)
  {
    Perform(c, Suspend)
  }

  /**
   Setting the transport request. Attaching one replays the pending state as
   one command sent to it; the pending state is left as it was. Detaching
   replays nothing.
   */
  function SetTransport(c: Control, t: Option<Handle>): (r: Control)
    ensures r.transport == t && r.pending == c.pending
    ensures t.None? ==> r.forwarded == c.forwarded
    ensures t.Some? && c.pending.Some? && ReplayOf(c.pending.value).Some? ==>
              r.forwarded == c.forwarded + [(t.value, ReplayOf(c.pending.value).value)]
    ensures t.Some? && (c.pending.None? || ReplayOf(c.pending.value).None?) ==> r.forwarded == c.forwarded
  {
    var attached := c.(transport := t);
    if t.None? || c.pending.None? then attached
    else if c.pending.value == Cancelled then CancelRequest(attached)
    else if c.pending.value == Suspended then SuspendRequest(attached)
    else if c.pending.value == Resumed then ResumeRequest(attached)
    else attached
  }

  /** A run of control calls, in order. */
  function PerformAll(c: Control, cmds: seq<Command>): (r: Control)
    ensures r.transport == c.transport
    decreases |cmds|
  {
    if |cmds| == 0 then c else PerformAll(Perform(c, cmds[0]), cmds[1..])
  }

  /** Each command of a run, paired with the handle it goes to. */
  function Tagged(h: Handle, cmds: seq<Command>): (r: seq<(Handle, Command)>)
    ensures |r| == |cmds| && forall i :: 0 <= i < |cmds| ==> r[i] == (h, cmds[i])
  {
    if |cmds| == 0 then [] else [(h, cmds[0])] + Tagged(h, cmds[1..])
  }

  /** Before a transport is attached, calls forward nothing and the last call decides the pending state. */
  lemma {:induction false} LastCallWins(c: Control, cmds: seq<Command>)
    requires c.transport.None? && |cmds| > 0
    ensures PerformAll(c, cmds).forwarded == c.forwarded
    ensures PerformAll(c, cmds).pending == Some(Target(cmds[|cmds| - 1]))
    decreases |cmds|
  {
    if |cmds| > 1 {
      LastCallWins(Perform(c, cmds[0]), cmds[1..]);
    }
  }

  /** With a transport attached, every call is forwarded to it, in order, and the pending state is untouched. */
  lemma {:induction false} AttachedForwardsAll(c: Control, cmds: seq<Command>)
    requires c.transport.Some?
    ensures PerformAll(c, cmds).forwarded == c.forwarded + Tagged(c.transport.value, cmds)
    ensures PerformAll(c, cmds).pending == c.pending
    decreases |cmds|
  {
    var h := c.transport.value;
    if |cmds| == 0 {
      assert c.forwarded + Tagged(h, cmds) == c.forwarded;
    } else {
      var next := Perform(c, cmds[0]);
      assert next.forwarded == c.forwarded + [(h, cmds[0])];
      AttachedForwardsAll(next, cmds[1..]);
      assert PerformAll(c, cmds) == PerformAll(next, cmds[1..]);
      assert c.forwarded + [(h, cmds[0])] + Tagged(h, cmds[1..]) == c.forwarded + Tagged(h, cmds);
    }
  }

  /** Calls made before the transport is attached reach it as exactly one command: the last one. */
  lemma AttachReplaysLastCall(c: Control, cmds: seq<Command>, h: Handle)
    requires c.transport.None? && |cmds| > 0
    ensures SetTransport(PerformAll(c, cmds), Some(h)).forwarded == c.forwarded + [(h, cmds[|cmds| - 1])]
  {
    LastCallWins(c, cmds);
    ReplayRoundTrip(cmds[|cmds| - 1], Initialized);
  }

  /** The pending state is not cleared by a replay: attaching a second time replays it again. */
  lemma ReattachReplaysAgain(h1: Handle, h2: Handle)
    ensures var c := SetTransport(SetTransport(CancelRequest(Fresh), Some(h1)), Some(h2));
            c.forwarded == [(h1, Cancel), (h2, Cancel)] && c.pending == Some(Cancelled)
  {
  }

  // ---------------------------------------------------------------------------
  // Request parameters

  /**
   Puts `key -> val` into an optional map, creating the map when it is
   absent. Every other key keeps its entry, or its absence.
   */
  function Upsert<V>(m: Option<map<string, V>>, key: string, val: V): (r: Option<map<string, V>>)
    ensures r.Some? && key in r.value && r.value[key] == val
    ensures forall k :: k != key ==> (k in r.value <==> m.Some? && k in m.value)
    ensures forall k :: k != key && k in r.value ==> r.value[k] == m.value[k]
  {
    match m
    case None => Some(map[key := val])
    case Some(entries) => Some(entries[key := val])
  }

  /** A later value for the same key replaces an earlier one. */
  lemma UpsertLastWins<V>(m: Option<map<string, V>>, key: string, v1: V, v2: V)
    ensures Upsert(Upsert(m, key, v1), key, v2) == Upsert(m, key, v2)
  {
    assert Upsert(Upsert(m, key, v1), key, v2).value == Upsert(m, key, v2).value;
  }

  /** Writes to different keys commute. */
  lemma UpsertCommutes<V>(m: Option<map<string, V>>, k1: string, v1: V, k2: string, v2: V)
    requires k1 != k2
    ensures Upsert(Upsert(m, k1, v1), k2, v2) == Upsert(Upsert(m, k2, v2), k1, v1)
  {
    assert Upsert(Upsert(m, k1, v1), k2, v2).value == Upsert(Upsert(m, k2, v2), k1, v1).value;
  }

  /**
   A request method. Only the default case `GET` is named; the method
   enumeration is not part of this model, so every other case stands here as
   its raw value.
   */
  datatype Method = GET | Other(rawValue: string)

  /** The base request's timeout, in seconds. */
  const DefaultTimeout: real := 15.0

  /** The base request's method. */
  const DefaultMethod: Method := GET

  /** What a request subclass overrides of `timeout()` and `method()`; `None` keeps the base answer. */
  datatype Overrides = Overrides(timeout: Option<real>, requestMethod: Option<Method>)

  /** `timeout()`: 15 seconds unless overridden. */
  function Timeout(o: Overrides): (t: real)
    ensures o.timeout.None? ==> t == 15.0
    ensures o.timeout.Some? ==> t == o.timeout.value
  {
    o.timeout.GetOr(DefaultTimeout)
  }

  /** `method()`: `GET` unless overridden. */
  function RequestMethod(o: Overrides): (m: Method)
    ensures o.requestMethod.None? ==> m == GET
    ensures o.requestMethod.Some? ==> m == o.requestMethod.value
  {
    o.requestMethod.GetOr(DefaultMethod)
  }

  /**
   The builder maps of a request, each absent until its first key is added.
   Query values are optional: a key may be present with no value. Body and
   form-data values are of any type `B`.
   */
  datatype Params<B> = Params(
    header: Option<map<string, string>>,
    query: Option<map<string, Option<string>>>,
    body: Option<map<string, B>>,
    formData: Option<map<string, B>>)

  function AddHeader<B>(p: Params<B>, key: string, val: string): (r: Params<B>)
    ensures r.header == Upsert(p.header, key, val)
    ensures r.query == p.query && r.body == p.body && r.formData == p.formData
  {
    p.(header := Upsert(p.header, key, val))
  }

  /** A query key is stored even when its value is absent; an absent value does not remove the key. */
  function AddQuery<B>(p: Params<B>, key: string, val: Option<string>): (r: Params<B>)
    ensures r.query.Some? && key in r.query.value && r.query.value[key] == val
    ensures r.query == Upsert(p.query, key, val)
    ensures r.header == p.header && r.body == p.body && r.formData == p.formData
  {
    p.(query := Upsert(p.query, key, val))
  }

  function AddBody<B>(p: Params<B>, key: string, val: B): (r: Params<B>)
    ensures r.body == Upsert(p.body, key, val)
    ensures r.header == p.header && r.query == p.query && r.formData == p.formData
  {
    p.(body := Upsert(p.body, key, val))
  }

  function AddFormData<B>(p: Params<B>, key: string, val: B): (r: Params<B>)
    ensures r.formData == Upsert(p.formData, key, val)
    ensures r.header == p.header && r.query == p.query && r.body == p.body
  {
    p.(formData := Upsert(p.formData, key, val))
  }

  /** Adding a query key with no value after one with a value leaves the key present with no value. */
  lemma QueryNilKeepsKey<B>(p: Params<B>, key: string, val: string)
    ensures var r := AddQuery(AddQuery(p, key, Some(val)), key, None);
            r.query.Some? && key in r.query.value && r.query.value[key] == None
  {
  }
}
