/**
 The flow-controlled pipe `streamModifyer(readStream, writeStream, modifyFun)`.

 The listeners it attaches are modelled as a transition system over a trace of
 host events: a `data` event, a call of some chunk's control callback, the
 return of the transform, a `drain` event and the `end` event. The value the
 write stream's `write` returns is an oracle carried by the events that may
 write. The state records the read stream's paused flag, whether the `data` and
 `drain` listeners are still attached, one entry per received chunk with its
 closure's `isTrigger` flag, whether a transform call is still on the stack,
 every write made to the write stream, and whether the write stream owes a
 `drain` event (a write has returned false and no `drain` has been emitted
 since), which is when Node's writable streams emit one.
 */
module StreamBridge {
  import opened Common

  /** What `modifyFun` does to the chunk it is handed by reference. */
  type Modify = seq<byte> -> seq<byte>

  /** A chunk received on `data`: its bytes as they are written and the
      `isTrigger` flag of the control callback created for it. `releases`
      counts the calls of that callback that resumed the stream and wrote the
      chunk; `forwarded` records that the listener itself wrote it, on arrival
      without a transform or when the transform returned. */
  datatype Delivery = Delivery(chunk: seq<byte>, isTrigger: bool, releases: nat, forwarded: bool)

  /** One `writeStream.write` call: which delivery it wrote, and the bytes. */
  datatype Forwarded = Forwarded(source: nat, bytes: seq<byte>)

  datatype Bridge = Bridge(
    paused: bool,               // the read stream is paused
    attached: bool,             // the `data` and `drain` listeners are registered
    deliveries: seq<Delivery>,  // every chunk received, in order
    running: bool,              // the transform of the last delivery has not returned
    sink: seq<Forwarded>,       // every write, in order
    owed: bool)                 // the write stream will emit `drain`

  /** A host event. `stop` is the truthiness of the control callback's argument
      (a call with no argument passes `false`); `ack` is what `write` returns if
      the event leads to a write. */
  datatype Event =
    | Data(chunk: seq<byte>, ack: bool)
    | Control(call: nat, stop: bool, ack: bool)
    | Return(ack: bool)
    | Drain
    | End

  /** The state right after `streamModifyer` returns: listeners attached and the
      read stream flowing. */
  function Init(): Bridge
  {
    Bridge(false, true, [], false, [], false)
  }

  /** The chunk as the transform leaves it. */
  function Edit(m: Option<Modify>, chunk: seq<byte>): seq<byte>
  {
    match m
    case None => chunk
    case Some(f) => f(chunk)
  }

  /** The `write` helper: hands delivery `k` to the write stream and pauses the
      read stream when the write stream reports it is full. A full write stream
      owes a `drain`. */
  function Write(s: Bridge, k: nat, ack: bool): (r: Bridge)
    requires k < |s.deliveries|
    ensures r.sink == s.sink + [Forwarded(k, s.deliveries[k].chunk)]
    ensures r.paused <==> s.paused || !ack
    ensures r.owed <==> s.owed || !ack
    ensures !ack ==> r.paused
    ensures ack ==> r.paused == s.paused
    ensures r.deliveries == s.deliveries && r.attached == s.attached && r.running == s.running
  {
    var written := s.(sink := s.sink + [Forwarded(k, s.deliveries[k].chunk)]);
    if !ack then written.(paused := true, owed := true) else written
  }

  /** The control callback of delivery `k`, called with `stop`. Returns the new
      state and the callback's return value. A stop is accepted once; after it,
      every resume is accepted and writes the chunk again, because `isTrigger`
      is never cleared. The delivery's `releases` counts those resumes. */
  function ControlCall(s: Bridge, k: nat, stop: bool, ack: bool): (r: (Bridge, bool))
    requires k < |s.deliveries|
    ensures r.1 <==> stop != s.deliveries[k].isTrigger
    ensures !r.1 ==> r.0 == s
    ensures !s.deliveries[k].isTrigger && stop ==>
      && r.0.paused
      && r.0.sink == s.sink
      && r.0.owed == s.owed
      && r.0.deliveries == s.deliveries[k := s.deliveries[k].(isTrigger := true)]
    ensures s.deliveries[k].isTrigger && !stop ==>
      && r.0.sink == s.sink + [Forwarded(k, s.deliveries[k].chunk)]
      && (r.0.paused <==> !ack)
      && (r.0.owed <==> s.owed || !ack)
      && r.0.deliveries == s.deliveries[k := s.deliveries[k].(releases := s.deliveries[k].releases + 1)]
    ensures r.0.attached == s.attached && r.0.running == s.running
    ensures |r.0.deliveries| == |s.deliveries|
    ensures forall j :: 0 <= j < |s.deliveries| ==>
      && r.0.deliveries[j].chunk == s.deliveries[j].chunk
      && r.0.deliveries[j].forwarded == s.deliveries[j].forwarded
      && (s.deliveries[j].isTrigger ==> r.0.deliveries[j].isTrigger)
  {
    var d := s.deliveries[k];
    if !d.isTrigger then
      if stop then
        (s.(paused := true, deliveries := s.deliveries[k := d.(isTrigger := true)]), true)
      else
        (s, false)
    else if !stop then
      (Write(s.(paused := false, deliveries := s.deliveries[k := d.(releases := d.releases + 1)]), k, ack), true)
    else
      (s, false)
  }

  /** The `data` listener on an attached bridge: without a transform it is
      `write` itself; with one it records the chunk as the transform leaves it
      and starts the transform, whose return is a later event. */
  function OnData(m: Option<Modify>, s: Bridge, chunk: seq<byte>, ack: bool): (r: Bridge)
    ensures m.None? ==>
      && r.sink == s.sink + [Forwarded(|s.deliveries|, chunk)]
      && (r.paused <==> s.paused || !ack)
      && (r.owed <==> s.owed || !ack)
      && r.deliveries == s.deliveries + [Delivery(chunk, false, 0, true)]
      && r.running == s.running
    ensures m.Some? ==>
      && r.sink == s.sink
      && r.running
      && r.paused == s.paused && r.owed == s.owed
      && r.deliveries == s.deliveries + [Delivery(m.value(chunk), false, 0, false)]
    ensures r.attached == s.attached
  {
    var k := |s.deliveries|;
    if m.None? then Write(s.(deliveries := s.deliveries + [Delivery(chunk, false, 0, true)]), k, ack)
    else s.(deliveries := s.deliveries + [Delivery(Edit(m, chunk), false, 0, false)], running := true)
  }

  /** The transform of the last delivery returns: the listener writes the chunk
      unless the transform stopped the stream, in which case only a release
      will write it. */
  function OnReturn(s: Bridge, ack: bool): (r: Bridge)
    requires |s.deliveries| > 0
    ensures !r.running && r.attached == s.attached
    ensures var k := |s.deliveries| - 1;
      && r.sink == s.sink + (if s.deliveries[k].isTrigger then [] else [Forwarded(k, s.deliveries[k].chunk)])
      && r.deliveries
         == (if s.deliveries[k].isTrigger then s.deliveries
             else s.deliveries[k := s.deliveries[k].(forwarded := true)])
      && (s.deliveries[k].isTrigger ==> r.paused == s.paused && r.owed == s.owed)
      && (!s.deliveries[k].isTrigger ==> (r.paused <==> s.paused || !ack) && (r.owed <==> s.owed || !ack))
  {
    var k := |s.deliveries| - 1;
    var d := s.deliveries[k];
    if d.isTrigger then s.(running := false)
    else Write(s.(running := false, deliveries := s.deliveries[k := d.(forwarded := true)]), k, ack)
  }

  /** One host event. `None` when the host cannot deliver the event in this
      state: `data` arrives only while the read stream flows and no listener is
      on the stack, a return needs a running transform, a control callback must
      exist, `drain` comes only when the write stream owes one, and `drain` and
      `end` cannot interrupt a running listener. */
  function Step(m: Option<Modify>, s: Bridge, e: Event): (r: Option<Bridge>)
    ensures r.Some? ==> s.sink <= r.value.sink
    ensures r.Some? ==> |s.deliveries| <= |r.value.deliveries|
    ensures r.Some? ==> forall j :: 0 <= j < |s.deliveries| ==>
      && r.value.deliveries[j].chunk == s.deliveries[j].chunk
      && (s.deliveries[j].isTrigger ==>
            r.value.deliveries[j].isTrigger && r.value.deliveries[j].forwarded == s.deliveries[j].forwarded)
    ensures e.Drain? && r.Some? ==> s.owed && !r.value.owed
    ensures e.Drain? && !s.running && s.owed && s.attached ==> r == Some(s.(paused := false, owed := false))
    ensures (e.Data? || e.Drain?) && !s.attached && r.Some? ==> r.value.(owed := s.owed) == s
    ensures e.End? && r.Some? ==> !r.value.attached && r.value.sink == s.sink
  {
    match e
    case Data(chunk, ack) =>
      if s.running || s.paused then None
      else if !s.attached then Some(s)
      else Some(OnData(m, s, chunk, ack))
    case Control(k, stop, ack) =>
      if m.None? || k >= |s.deliveries| then None
      else Some(ControlCall(s, k, stop, ack).0)
    case Return(ack) =>
      if !s.running || |s.deliveries| == 0 then None
      else Some(OnReturn(s, ack))
    case Drain =>
      if s.running || !s.owed then None
      else if s.attached then Some(s.(paused := false, owed := false))
      else Some(s.(owed := false))
    case End =>
      if s.running then None
      else Some(s.(attached := false))
  }

  /** A whole trace; `None` if some event of it cannot be delivered. */
  function Run(m: Option<Modify>, s: Bridge, events: seq<Event>): Option<Bridge>
    decreases |events|
  {
    if |events| == 0 then Some(s)
    else match Step(m, s, events[0])
      case None => None
      case Some(next) => Run(m, next, events[1..])
  }

  // ---------------------------------------------------------------------------
  // The invariant: every chunk is written once by the listener unless its
  // transform stopped the stream first, and once more per release
  // ---------------------------------------------------------------------------

  /** How many writes forwarded delivery `k`. */
  function Count(sink: seq<Forwarded>, k: nat): nat
    decreases |sink|
  {
    if |sink| == 0 then 0
    else Count(sink[..|sink| - 1], k) + (if sink[|sink| - 1].source == k then 1 else 0)
  }

  /** How often delivery `d` has been written according to its own record. */
  function Expected(d: Delivery): nat
  {
    d.releases + (if d.forwarded then 1 else 0)
  }

  /** Every write forwards a received chunk, with that chunk's bytes. */
  predicate Sound(s: Bridge)
  {
    forall i :: 0 <= i < |s.sink| ==>
      s.sink[i].source < |s.deliveries| && s.sink[i].bytes == s.deliveries[s.sink[i].source].chunk
  }

  /** Every delivery has been written as often as its record says. */
  predicate Counted(s: Bridge)
  {
    forall k :: 0 <= k < |s.deliveries| ==> Count(s.sink, k) == Expected(s.deliveries[k])
  }

  /** Without a transform nothing is stopped; a delivery whose transform never
      stopped the stream has no releases, and the listener has written it
      unless its transform is still running. */
  predicate Unstopped(m: Option<Modify>, s: Bridge)
  {
    && (m.None? ==> forall k :: 0 <= k < |s.deliveries| ==> !s.deliveries[k].isTrigger)
    && (forall k :: 0 <= k < |s.deliveries| && !s.deliveries[k].isTrigger ==>
          && s.deliveries[k].releases == 0
          && (s.deliveries[k].forwarded <==> !(s.running && k == |s.deliveries| - 1)))
  }

  predicate Valid(m: Option<Modify>, s: Bridge)
  {
    && (s.running ==> m.Some? && |s.deliveries| > 0 && !s.deliveries[|s.deliveries| - 1].forwarded)
    && Sound(s)
    && Counted(s)
    && Unstopped(m, s)
  }

  lemma CountAppend(sink: seq<Forwarded>, w: Forwarded, k: nat)
    ensures Count(sink + [w], k) == Count(sink, k) + (if w.source == k then 1 else 0)
  {
    assert (sink + [w])[..|sink|] == sink;
  }

  lemma {:induction false} CountAbsent(sink: seq<Forwarded>, k: nat)
    requires forall i :: 0 <= i < |sink| ==> sink[i].source < k
    ensures Count(sink, k) == 0
    decreases |sink|
  {
    if |sink| != 0 {
      CountAbsent(sink[..|sink| - 1], k);
    }
  }

  lemma InitValid(m: Option<Modify>)
    ensures Valid(m, Init())
  {
  }

  /** Every deliverable event keeps the invariant. */
  lemma StepValid(m: Option<Modify>, s: Bridge, e: Event)
    requires Valid(m, s) && Step(m, s, e).Some?
    ensures Valid(m, Step(m, s, e).value)
  {
    match e {
      case Data(chunk, ack) =>
        if s.attached {
          DataValid(m, s, chunk, ack);
        }
      case Control(k, stop, ack) =>
        ControlValid(m, s, k, stop, ack);
      case Return(ack) =>
        ReturnValid(m, s, ack);
      case Drain =>
      case End =>
    }
  }

  lemma DataValid(m: Option<Modify>, s: Bridge, chunk: seq<byte>, ack: bool)
    requires Valid(m, s) && s.attached && Step(m, s, Data(chunk, ack)).Some?
    ensures Valid(m, Step(m, s, Data(chunk, ack)).value)
  {
    var t := OnData(m, s, chunk, ack);
    assert Step(m, s, Data(chunk, ack)).value == t;
    var k := |s.deliveries|;
    assert t.deliveries[..k] == s.deliveries;
    assert Sound(t) by {
      forall i | 0 <= i < |t.sink|
        ensures t.sink[i].source < |t.deliveries| && t.sink[i].bytes == t.deliveries[t.sink[i].source].chunk
      {
        if i < |s.sink| {
          assert t.sink[i] == s.sink[i];
        }
      }
    }
    assert Counted(t) by {
      CountAbsent(s.sink, k);
      forall j | 0 <= j < |t.deliveries|
        ensures Count(t.sink, j) == Expected(t.deliveries[j])
      {
        if m.None? {
          CountAppend(s.sink, Forwarded(k, chunk), j);
        }
      }
    }
    assert Unstopped(m, t);
  }

  lemma ControlValid(m: Option<Modify>, s: Bridge, k: nat, stop: bool, ack: bool)
    requires Valid(m, s) && Step(m, s, Control(k, stop, ack)).Some?
    ensures Valid(m, Step(m, s, Control(k, stop, ack)).value)
  {
    assert Step(m, s, Control(k, stop, ack)).value == ControlCall(s, k, stop, ack).0;
    if !s.deliveries[k].isTrigger && stop {
      StopValid(m, s, k, ack);
    } else if s.deliveries[k].isTrigger && !stop {
      ReleaseValid(m, s, k, ack);
    }
  }

  /** The first stopping call marks the delivery; nothing is written. */
  lemma StopValid(m: Option<Modify>, s: Bridge, k: nat, ack: bool)
    requires Valid(m, s) && m.Some? && k < |s.deliveries| && !s.deliveries[k].isTrigger
    ensures Valid(m, ControlCall(s, k, true, ack).0)
  {
    var t := ControlCall(s, k, true, ack).0;
    assert t.sink == s.sink;
    assert Sound(t);
    assert Counted(t);
    assert Unstopped(m, t);
  }

  /** A release counts one more release and writes the chunk once more. */
  lemma ReleaseValid(m: Option<Modify>, s: Bridge, k: nat, ack: bool)
    requires Valid(m, s) && k < |s.deliveries| && s.deliveries[k].isTrigger
    ensures Valid(m, ControlCall(s, k, false, ack).0)
  {
    var d := s.deliveries[k];
    var t := ControlCall(s, k, false, ack).0;
    assert t.sink == s.sink + [Forwarded(k, d.chunk)];
    assert t.deliveries == s.deliveries[k := d.(releases := d.releases + 1)];
    assert Sound(t) by {
      forall i | 0 <= i < |t.sink|
        ensures t.sink[i].source < |t.deliveries| && t.sink[i].bytes == t.deliveries[t.sink[i].source].chunk
      {
        if i < |s.sink| {
          assert t.sink[i] == s.sink[i];
        }
      }
    }
    assert Counted(t) by {
      forall j | 0 <= j < |t.deliveries|
        ensures Count(t.sink, j) == Expected(t.deliveries[j])
      {
        CountAppend(s.sink, Forwarded(k, d.chunk), j);
      }
    }
    assert Unstopped(m, t);
  }

  lemma ReturnValid(m: Option<Modify>, s: Bridge, ack: bool)
    requires Valid(m, s) && Step(m, s, Return(ack)).Some?
    ensures Valid(m, Step(m, s, Return(ack)).value)
  {
    var t := OnReturn(s, ack);
    assert Step(m, s, Return(ack)).value == t;
    var k := |s.deliveries| - 1;
    var d := s.deliveries[k];
    if !d.isTrigger {
      assert t.sink == s.sink + [Forwarded(k, d.chunk)];
      assert Sound(t) by {
        forall i | 0 <= i < |t.sink|
          ensures t.sink[i].source < |t.deliveries| && t.sink[i].bytes == t.deliveries[t.sink[i].source].chunk
        {
          if i < |s.sink| {
            assert t.sink[i] == s.sink[i];
          }
        }
      }
      assert Counted(t) by {
        forall j | 0 <= j < |t.deliveries|
          ensures Count(t.sink, j) == Expected(t.deliveries[j])
        {
          CountAppend(s.sink, Forwarded(k, d.chunk), j);
        }
      }
    } else {
      assert t == s.(running := false);
      assert Sound(t) && Counted(t);
    }
    assert Unstopped(m, t);
  }

  /** Every trace the host can deliver keeps the invariant. */
  lemma {:induction false} RunValid(m: Option<Modify>, s: Bridge, events: seq<Event>)
    requires Valid(m, s) && Run(m, s, events).Some?
    ensures Valid(m, Run(m, s, events).value)
    decreases |events|
  {
    if |events| != 0 {
      StepValid(m, s, events[0]);
      RunValid(m, Step(m, s, events[0]).value, events[1..]);
    }
  }

  /** From the start, every chunk whose transform never stopped the stream is
      written exactly once once its transform has returned, and every write
      carries the bytes of the chunk it forwards. */
  lemma ForwardedOnce(m: Option<Modify>, events: seq<Event>, k: nat)
    requires Run(m, Init(), events).Some?
    requires var t := Run(m, Init(), events).value;
      k < |t.deliveries| && !t.deliveries[k].isTrigger && !(t.running && k == |t.deliveries| - 1)
    ensures Count(Run(m, Init(), events).value.sink, k) == 1
  {
    InitValid(m);
    RunValid(m, Init(), events);
  }

  /** From the start, every chunk has been written once per accepted release of
      its control callback, plus once if the listener wrote it itself. */
  lemma WrittenPerRelease(m: Option<Modify>, events: seq<Event>, k: nat)
    requires Run(m, Init(), events).Some?
    requires k < |Run(m, Init(), events).value.deliveries|
    ensures var d := Run(m, Init(), events).value.deliveries[k];
      Count(Run(m, Init(), events).value.sink, k) == d.releases + (if d.forwarded then 1 else 0)
  {
    InitValid(m);
    RunValid(m, Init(), events);
  }

  /** A chunk stopped before its transform returned is never written by the
      listener, whatever happens next. */
  lemma {:induction false} RunKeepsHeld(m: Option<Modify>, s: Bridge, events: seq<Event>, k: nat)
    requires Run(m, s, events).Some?
    requires k < |s.deliveries| && s.deliveries[k].isTrigger && !s.deliveries[k].forwarded
    ensures k < |Run(m, s, events).value.deliveries|
    ensures Run(m, s, events).value.deliveries[k].isTrigger
    ensures !Run(m, s, events).value.deliveries[k].forwarded
    decreases |events|
  {
    if |events| != 0 {
      RunKeepsHeld(m, Step(m, s, events[0]).value, events[1..], k);
    }
  }

  /** A chunk whose transform stops the stream while it runs is written only by
      releases of its control callback: exactly once per release, and not at all
      before the first. */
  lemma HeldUntilReleased(m: Option<Modify>, s: Bridge, events: seq<Event>)
    requires Valid(m, s) && s.running && s.deliveries[|s.deliveries| - 1].isTrigger
    requires Run(m, s, events).Some?
    ensures var k := |s.deliveries| - 1;
      var t := Run(m, s, events).value;
      k < |t.deliveries| && Count(t.sink, k) == t.deliveries[k].releases
  {
    var k := |s.deliveries| - 1;
    RunValid(m, s, events);
    RunKeepsHeld(m, s, events, k);
  }

  // ---------------------------------------------------------------------------
  // Traces without control calls forward every chunk, in order
  // ---------------------------------------------------------------------------

  predicate NoControl(events: seq<Event>)
  {
    forall i :: 0 <= i < |events| ==> !events[i].Control?
  }

  /** The chunks of the `data` events before the first `end`. */
  function DataBeforeEnd(events: seq<Event>): seq<seq<byte>>
    decreases |events|
  {
    if |events| == 0 then []
    else match events[0]
      case End => []
      case Data(c, _) => [c] + DataBeforeEnd(events[1..])
      case _ => DataBeforeEnd(events[1..])
  }

  function EditAll(m: Option<Modify>, cs: seq<seq<byte>>): (r: seq<seq<byte>>)
    ensures |r| == |cs|
    ensures forall i :: 0 <= i < |cs| ==> r[i] == Edit(m, cs[i])
    decreases |cs|
  {
    if |cs| == 0 then [] else [Edit(m, cs[0])] + EditAll(m, cs[1..])
  }

  function ChunksOf(ds: seq<Delivery>): (r: seq<seq<byte>>)
    ensures |r| == |ds|
    ensures forall i :: 0 <= i < |ds| ==> r[i] == ds[i].chunk
  {
    seq(|ds|, i requires 0 <= i < |ds| => ds[i].chunk)
  }

  function Payloads(sink: seq<Forwarded>): (r: seq<seq<byte>>)
    ensures |r| == |sink|
    ensures forall i :: 0 <= i < |sink| ==> r[i] == sink[i].bytes
  {
    seq(|sink|, i requires 0 <= i < |sink| => sink[i].bytes)
  }

  /** The write stream has received the deliveries in order, each once, all
      but a running one. */
  predicate InOrder(s: Bridge)
  {
    && |s.sink| == |s.deliveries| - (if s.running then 1 else 0)
    && (forall i :: 0 <= i < |s.sink| ==> s.sink[i].source == i)
  }

  lemma StepInOrder(m: Option<Modify>, s: Bridge, e: Event)
    requires Valid(m, s) && InOrder(s) && !e.Control? && Step(m, s, e).Some?
    requires forall k :: 0 <= k < |s.deliveries| ==> !s.deliveries[k].isTrigger
    ensures InOrder(Step(m, s, e).value)
    ensures forall k :: 0 <= k < |Step(m, s, e).value.deliveries| ==>
      !Step(m, s, e).value.deliveries[k].isTrigger
  {
  }

  /** What one event does to the received chunks. */
  lemma StepChunks(m: Option<Modify>, s: Bridge, e: Event)
    requires Step(m, s, e).Some?
    ensures ChunksOf(Step(m, s, e).value.deliveries)
            == ChunksOf(s.deliveries) + (if s.attached && e.Data? then [Edit(m, e.chunk)] else [])
    ensures Step(m, s, e).value.attached == (s.attached && !e.End?)
  {
  }

  /** The received chunks are the edited chunks of the `data` events up to `end`. */
  lemma {:induction false} RunChunks(m: Option<Modify>, s: Bridge, events: seq<Event>)
    requires Run(m, s, events).Some?
    ensures ChunksOf(Run(m, s, events).value.deliveries)
            == ChunksOf(s.deliveries) + (if s.attached then EditAll(m, DataBeforeEnd(events)) else [])
    decreases |events|
  {
    if |events| != 0 {
      var t := Step(m, s, events[0]).value;
      RunUnfold(m, s, events);
      StepChunks(m, s, events[0]);
      RunChunks(m, t, events[1..]);
      ReceivedCons(m, s.attached, events);
    }
  }

  /** What the first event of a trace contributes to the chunks an attached
      bridge receives. */
  lemma ReceivedCons(m: Option<Modify>, attached: bool, events: seq<Event>)
    requires |events| > 0
    ensures var e := events[0];
      (if attached then EditAll(m, DataBeforeEnd(events)) else [])
      == (if attached && e.Data? then [Edit(m, e.chunk)] else [])
         + (if attached && !e.End? then EditAll(m, DataBeforeEnd(events[1..])) else [])
  {
    var e := events[0];
    if e.End? {
      assert DataBeforeEnd(events) == [];
    } else if e.Data? {
      assert DataBeforeEnd(events) == [e.chunk] + DataBeforeEnd(events[1..]);
      assert ([e.chunk] + DataBeforeEnd(events[1..]))[1..] == DataBeforeEnd(events[1..]);
    } else {
      assert DataBeforeEnd(events) == DataBeforeEnd(events[1..]);
    }
  }

  /** Without control calls the write stream receives the deliveries in order. */
  lemma {:induction false} RunInOrder(m: Option<Modify>, s: Bridge, events: seq<Event>)
    requires Valid(m, s) && InOrder(s) && NoControl(events) && Run(m, s, events).Some?
    requires forall k :: 0 <= k < |s.deliveries| ==> !s.deliveries[k].isTrigger
    ensures InOrder(Run(m, s, events).value)
    ensures forall k :: 0 <= k < |Run(m, s, events).value.deliveries| ==>
      !Run(m, s, events).value.deliveries[k].isTrigger
    decreases |events|
  {
    if |events| != 0 {
      StepValid(m, s, events[0]);
      StepInOrder(m, s, events[0]);
      assert NoControl(events[1..]) by {
        forall i | 0 <= i < |events[1..]| ensures !events[1..][i].Control? {
          assert events[1..][i] == events[i + 1];
        }
      }
      RunInOrder(m, Step(m, s, events[0]).value, events[1..]);
    }
  }

  /** Forwarding in order: from the start, with no control calls, once no
      transform is running the write stream has received exactly the (edited)
      chunks of the `data` events before `end`, in emission order. Without a
      transform these are the chunks themselves. */
  lemma ForwardsInOrder(m: Option<Modify>, events: seq<Event>)
    requires NoControl(events) && Run(m, Init(), events).Some?
    requires !Run(m, Init(), events).value.running
    ensures Payloads(Run(m, Init(), events).value.sink) == EditAll(m, DataBeforeEnd(events))
    ensures m.None? ==> Payloads(Run(m, Init(), events).value.sink) == DataBeforeEnd(events)
  {
    var t := Run(m, Init(), events).value;
    InitValid(m);
    RunInOrder(m, Init(), events);
    RunChunks(m, Init(), events);
    RunValid(m, Init(), events);
    assert ChunksOf(Init().deliveries) == [];
    assert Payloads(t.sink) == ChunksOf(t.deliveries);
  }

  /** A transform that never calls its control callback behaves, over one chunk,
      exactly like the plain `write` listener fed the edited chunk. */
  lemma SyncTransformIsPlainWrite(f: Modify, s: Bridge, c: seq<byte>, unused: bool, ack: bool)
    requires !s.running && s.attached
    ensures Run(Some(f), s, [Data(c, unused), Return(ack)]) == Run(None, s, [Data(f(c), ack)])
  {
    var events := [Data(c, unused), Return(ack)];
    if !s.paused {
      var t := Step(Some(f), s, Data(c, unused)).value;
      RunUnfold(Some(f), s, events);
      assert events[1..] == [Return(ack)];
      RunUnfold(Some(f), t, events[1..]);
      assert events[1..][1..] == [];
      RunUnfold(None, s, [Data(f(c), ack)]);
      assert [Data(f(c), ack)][1..] == [];
      var k := |s.deliveries|;
      assert t.deliveries[k := t.deliveries[k].(forwarded := true)]
             == s.deliveries + [Delivery(f(c), false, 0, true)];
    }
  }

  // ---------------------------------------------------------------------------
  // The odd behaviours, stated
  // ---------------------------------------------------------------------------

  /** The control calls of delivery `k` with a falsy argument, one per entry of
      `acks`, each the value `write` returns for the write it makes. */
  function Releases(k: nat, acks: seq<bool>): (r: seq<Event>)
    ensures |r| == |acks|
    decreases |acks|
  {
    if |acks| == 0 then [] else [Control(k, false, acks[0])] + Releases(k, acks[1..])
  }

  /** Once a chunk's transform has stopped the stream, every call with a falsy
      argument resumes it and writes that chunk again: `n` calls, `n` writes,
      `n` more releases. The read stream ends up paused exactly when the last
      of those writes reported a full write stream, and a `drain` is owed once
      any of them did. */
  lemma {:induction false} ResumeRepeats(f: Modify, s: Bridge, k: nat, acks: seq<bool>)
    requires k < |s.deliveries| && s.deliveries[k].isTrigger
    ensures Run(Some(f), s, Releases(k, acks)).Some?
    ensures var t := Run(Some(f), s, Releases(k, acks)).value;
      && t.sink == s.sink + Repeat(Forwarded(k, s.deliveries[k].chunk), |acks|)
      && t.deliveries == s.deliveries[k := s.deliveries[k].(releases := s.deliveries[k].releases + |acks|)]
      && (|acks| > 0 ==> (t.paused <==> !acks[|acks| - 1]))
      && (t.owed <==> s.owed || false in acks)
      && t.attached == s.attached && t.running == s.running
    decreases |acks|
  {
    var m := Some(f);
    var events := Releases(k, acks);
    if |acks| == 0 {
      assert s.deliveries[k := s.deliveries[k].(releases := s.deliveries[k].releases + 0)] == s.deliveries;
    } else {
      var d := s.deliveries[k];
      var t := Step(m, s, Control(k, false, acks[0])).value;
      assert events[0] == Control(k, false, acks[0]) && events[1..] == Releases(k, acks[1..]);
      RunUnfold(m, s, events);
      ResumeRepeats(f, t, k, acks[1..]);
      assert Repeat(Forwarded(k, d.chunk), |acks|)
             == [Forwarded(k, d.chunk)] + Repeat(Forwarded(k, d.chunk), |acks| - 1);
      assert acks == [acks[0]] + acks[1..];
      assert t.deliveries[k := t.deliveries[k].(releases := t.deliveries[k].releases + (|acks| - 1))]
             == s.deliveries[k := d.(releases := d.releases + |acks|)];
    }
  }

  lemma {:induction false} RunAppend(m: Option<Modify>, s: Bridge, a: seq<Event>, b: seq<Event>)
    ensures Run(m, s, a + b) == match Run(m, s, a) case None => None case Some(t) => Run(m, t, b)
    decreases |a|
  {
    if |a| == 0 {
      assert a + b == b;
    } else {
      assert (a + b)[0] == a[0] && (a + b)[1..] == a[1..] + b;
      match Step(m, s, a[0]) {
        case None =>
        case Some(t) =>
          RunAppend(m, t, a[1..], b);
      }
    }
  }

  /** The first phase of the overtaking trace: chunk `z` stops the stream and
      is released once. */
  lemma OvertakeStart(f: Modify, z: seq<byte>)
    ensures Run(Some(f), Init(), [Data(z, true), Control(0, true, true), Return(true), Control(0, false, true)])
            == Some(Bridge(false, true, [Delivery(f(z), true, 1, false)], false, [Forwarded(0, f(z))], false))
  {
    var m := Some(f);
    var events := [Data(z, true), Control(0, true, true), Return(true), Control(0, false, true)];
    var s1 := Step(m, Init(), events[0]).value;
    assert s1 == Bridge(false, true, [Delivery(f(z), false, 0, false)], true, [], false);
    var s2 := Step(m, s1, events[1]).value;
    assert s2 == Bridge(true, true, [Delivery(f(z), true, 0, false)], true, [], false);
    var s3 := Step(m, s2, events[2]).value;
    assert s3 == s2.(running := false);
    assert s3.deliveries[0 := s3.deliveries[0].(releases := 1)] == [Delivery(f(z), true, 1, false)];
    assert s3.sink + [Forwarded(0, f(z))] == [Forwarded(0, f(z))];
    assert Step(m, s3, events[3])
           == Some(Bridge(false, true, [Delivery(f(z), true, 1, false)], false, [Forwarded(0, f(z))], false));
    RunUnfold(m, Init(), events);
    RunUnfold(m, s1, events[1..]);
    assert events[1..][1..] == events[2..];
    RunUnfold(m, s2, events[2..]);
    assert events[2..][1..] == [events[3]];
    RunUnfold(m, s3, [events[3]]);
    assert [events[3]][1..] == [];
  }

  /** The second phase: chunk `a` stops the stream and is held; a repeated
      release of `z` meets a full write stream, which then owes a `drain`. */
  lemma OvertakeHold(f: Modify, z: seq<byte>, a: seq<byte>)
    ensures Run(Some(f), Bridge(false, true, [Delivery(f(z), true, 1, false)], false, [Forwarded(0, f(z))], false),
                [Data(a, true), Control(1, true, true), Return(true), Control(0, false, false)])
            == Some(Bridge(true, true, [Delivery(f(z), true, 2, false), Delivery(f(a), true, 0, false)], false,
                           [Forwarded(0, f(z)), Forwarded(0, f(z))], true))
  {
    var m := Some(f);
    var s0 := Bridge(false, true, [Delivery(f(z), true, 1, false)], false, [Forwarded(0, f(z))], false);
    var events := [Data(a, true), Control(1, true, true), Return(true), Control(0, false, false)];
    var s1 := Step(m, s0, events[0]).value;
    assert s1 == s0.(deliveries := s0.deliveries + [Delivery(f(a), false, 0, false)], running := true);
    var s2 := Step(m, s1, events[1]).value;
    assert s2 == s1.(paused := true, deliveries := [Delivery(f(z), true, 1, false), Delivery(f(a), true, 0, false)]);
    var s3 := Step(m, s2, events[2]).value;
    assert s3 == s2.(running := false);
    assert s3.deliveries[0 := s3.deliveries[0].(releases := 2)]
           == [Delivery(f(z), true, 2, false), Delivery(f(a), true, 0, false)];
    assert s3.sink + [Forwarded(0, f(z))] == [Forwarded(0, f(z)), Forwarded(0, f(z))];
    assert Step(m, s3, events[3])
           == Some(Bridge(true, true, [Delivery(f(z), true, 2, false), Delivery(f(a), true, 0, false)], false,
                          [Forwarded(0, f(z)), Forwarded(0, f(z))], true));
    RunUnfold(m, s0, events);
    RunUnfold(m, s1, events[1..]);
    assert events[1..][1..] == events[2..];
    RunUnfold(m, s2, events[2..]);
    assert events[2..][1..] == [events[3]];
    RunUnfold(m, s3, [events[3]]);
    assert [events[3]][1..] == [];
  }

  /** The third phase: the owed `drain` resumes the read stream while `a` is
      still held, and chunk `b` is written before `a` is released. */
  lemma OvertakeDrain(f: Modify, z: seq<byte>, a: seq<byte>, b: seq<byte>)
    ensures Run(Some(f), Bridge(true, true, [Delivery(f(z), true, 2, false), Delivery(f(a), true, 0, false)], false,
                                [Forwarded(0, f(z)), Forwarded(0, f(z))], true),
                [Drain, Data(b, true), Return(true), Control(1, false, true)])
            == Some(Bridge(false, true,
                           [Delivery(f(z), true, 2, false), Delivery(f(a), true, 1, false), Delivery(f(b), false, 0, true)],
                           false,
                           [Forwarded(0, f(z)), Forwarded(0, f(z)), Forwarded(2, f(b)), Forwarded(1, f(a))], false))
  {
    var m := Some(f);
    var s0 := Bridge(true, true, [Delivery(f(z), true, 2, false), Delivery(f(a), true, 0, false)], false,
                     [Forwarded(0, f(z)), Forwarded(0, f(z))], true);
    var events := [Drain, Data(b, true), Return(true), Control(1, false, true)];
    var s1 := Step(m, s0, events[0]).value;
    assert s1 == s0.(paused := false, owed := false);
    var s2 := Step(m, s1, events[1]).value;
    assert s2 == s1.(deliveries := s1.deliveries + [Delivery(f(b), false, 0, false)], running := true);
    var s3 := Step(m, s2, events[2]).value;
    assert s3 == s2.(running := false, deliveries := s1.deliveries + [Delivery(f(b), false, 0, true)],
                     sink := s1.sink + [Forwarded(2, f(b))]);
    assert s3.deliveries[1 := s3.deliveries[1].(releases := 1)]
           == [Delivery(f(z), true, 2, false), Delivery(f(a), true, 1, false), Delivery(f(b), false, 0, true)];
    assert s3.sink + [Forwarded(1, f(a))]
           == [Forwarded(0, f(z)), Forwarded(0, f(z)), Forwarded(2, f(b)), Forwarded(1, f(a))];
    assert Step(m, s3, events[3])
           == Some(Bridge(false, true,
                          [Delivery(f(z), true, 2, false), Delivery(f(a), true, 1, false), Delivery(f(b), false, 0, true)],
                          false,
                          [Forwarded(0, f(z)), Forwarded(0, f(z)), Forwarded(2, f(b)), Forwarded(1, f(a))], false));
    RunUnfold(m, s0, events);
    RunUnfold(m, s1, events[1..]);
    assert events[1..][1..] == events[2..];
    RunUnfold(m, s2, events[2..]);
    assert events[2..][1..] == [events[3]];
    RunUnfold(m, s3, [events[3]]);
    assert [events[3]][1..] == [];
  }

  /** `drain` resumes the read stream while a transform still holds its chunk,
      so a later chunk can be written before the held one. A `drain` is only
      emitted after a write reported a full write stream; while `a` is held,
      such a write comes from a repeated release of an earlier stopped chunk
      `z`, whose flag is never cleared. */
  lemma DrainLetsLaterChunkOvertake(f: Modify, z: seq<byte>, a: seq<byte>, b: seq<byte>)
    ensures var events := [Data(z, true), Control(0, true, true), Return(true), Control(0, false, true),
                           Data(a, true), Control(1, true, true), Return(true), Control(0, false, false),
                           Drain, Data(b, true), Return(true), Control(1, false, true)];
      && Run(Some(f), Init(), events).Some?
      && Run(Some(f), Init(), events).value.sink
         == [Forwarded(0, f(z)), Forwarded(0, f(z)), Forwarded(2, f(b)), Forwarded(1, f(a))]
  {
    var m := Some(f);
    var p1 := [Data(z, true), Control(0, true, true), Return(true), Control(0, false, true)];
    var p2 := [Data(a, true), Control(1, true, true), Return(true), Control(0, false, false)];
    var p3 := [Drain, Data(b, true), Return(true), Control(1, false, true)];
    OvertakeStart(f, z);
    OvertakeHold(f, z, a);
    OvertakeDrain(f, z, a, b);
    RunAppend(m, Init(), p1, p2 + p3);
    RunAppend(m, Run(m, Init(), p1).value, p2, p3);
    assert p1 + (p2 + p3)
           == [Data(z, true), Control(0, true, true), Return(true), Control(0, false, true),
               Data(a, true), Control(1, true, true), Return(true), Control(0, false, false),
               Drain, Data(b, true), Return(true), Control(1, false, true)];
  }

  lemma RunUnfold(m: Option<Modify>, s: Bridge, events: seq<Event>)
    requires |events| > 0 && Step(m, s, events[0]).Some?
    ensures Run(m, s, events) == Run(m, Step(m, s, events[0]).value, events[1..])
  {
  }

  /** Following the doc comment (call the callback with `false` at the start of
      the asynchronous work, then with no argument when it is done) never
      pauses the read stream: the chunk is written as soon as the transform
      returns, before that work finishes, and the final call does nothing. */
  lemma DocumentedProtocolWritesEarly(f: Modify, s: Bridge, c: seq<byte>, ack: bool)
    requires !s.running && !s.paused && s.attached
    ensures var k := |s.deliveries|;
      && Run(Some(f), s, [Data(c, true), Control(k, false, true), Return(ack)]).Some?
      && var t := Run(Some(f), s, [Data(c, true), Control(k, false, true), Return(ack)]).value;
      && t.sink == s.sink + [Forwarded(k, f(c))]
      && (t.paused <==> !ack)
      && Step(Some(f), t, Control(k, false, true)) == Some(t)
  {
    var m := Some(f);
    var k := |s.deliveries|;
    var events := [Data(c, true), Control(k, false, true), Return(ack)];
    var s1 := Step(m, s, Data(c, true)).value;
    var s2 := Step(m, s1, Control(k, false, true)).value;
    assert s2 == s1;
    RunUnfold(m, s, events);
    assert events[1..] == [Control(k, false, true), Return(ack)];
    RunUnfold(m, s1, events[1..]);
    assert events[1..][1..] == [Return(ack)];
    RunUnfold(m, s2, events[1..][1..]);
    assert events[1..][1..][1..] == [];
  }

  /** After `end` the `data` and `drain` listeners are gone: without control
      calls nothing deliverable changes the bridge, so nothing is written and
      nothing is resumed; only the write stream's owed `drain` may be paid. */
  lemma {:induction false} DetachedIsInert(m: Option<Modify>, s: Bridge, events: seq<Event>)
    requires !s.attached && !s.running && NoControl(events)
    ensures Run(m, s, events).Some? ==> Run(m, s, events).value.(owed := s.owed) == s
    ensures Run(m, s, events).Some? && Run(m, s, events).value.owed ==> s.owed
    decreases |events|
  {
    if |events| != 0 {
      assert NoControl(events[1..]) by {
        forall i | 0 <= i < |events[1..]| ensures !events[1..][i].Control? {
          assert events[1..][i] == events[i + 1];
        }
      }
      match Step(m, s, events[0]) {
        case None =>
        case Some(t) =>
          assert t.(owed := s.owed) == s;
          DetachedIsInert(m, t, events[1..]);
      }
    }
  }

  /** The bitwise inversion the demonstration script applies to each chunk. */
  function Invert(c: seq<byte>): (r: seq<byte>)
    ensures |r| == |c|
    ensures forall i :: 0 <= i < |c| ==> r[i] == !c[i]
  {
    seq(|c|, i requires 0 <= i < |c| => !c[i])
  }

  /** Two chunks through an inverting transform arrive inverted, in order. */
  lemma InvertTwoChunks(a: seq<byte>, b: seq<byte>, ack2: bool)
    ensures var events := [Data(a, true), Return(true), Data(b, true), Return(ack2)];
      && Run(Some(Invert), Init(), events).Some?
      && Payloads(Run(Some(Invert), Init(), events).value.sink) == [Invert(a), Invert(b)]
  {
    var m := Some(Invert);
    var events := [Data(a, true), Return(true), Data(b, true), Return(ack2)];
    var s1 := Step(m, Init(), Data(a, true)).value;
    var s2 := Step(m, s1, Return(true)).value;
    var s3 := Step(m, s2, Data(b, true)).value;
    var s4 := Step(m, s3, Return(ack2)).value;
    RunUnfold(m, Init(), events);
    assert events[1..] == [Return(true), Data(b, true), Return(ack2)];
    RunUnfold(m, s1, events[1..]);
    assert events[2..] == [Data(b, true), Return(ack2)];
    assert events[1..][1..] == events[2..];
    RunUnfold(m, s2, events[2..]);
    assert events[2..][1..] == [Return(ack2)];
    RunUnfold(m, s3, events[2..][1..]);
    assert events[2..][1..][1..] == [];
    assert Payloads(s4.sink) == [Invert(a), Invert(b)];
  }
}
