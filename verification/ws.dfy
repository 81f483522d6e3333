/** The websocket transport of src/ws.rs, modelled sequentially: the caller
    side (`generate_id`, `send`), the reader thread's per-frame dispatch and
    the writer thread's per-message loop. The two channels between them and
    the socket become explicit input sequences. */
module Ws {
  import opened Common
  import Messages

  type U16 = x: int | 0 <= x < 0x1_0000

  datatype CloseData = CloseData(statusCode: U16, reason: string)

  /** A websocket frame as the websocket library hands it over. */
  datatype Frame =
    | Text(text: string)
    | Binary(bytes: seq<U8>)
    | Close(data: Option<CloseData>)
    | Ping(payload: seq<U8>)
    | Pong(payload: seq<U8>)

  /** The one-shot sender through which a `send` is answered; only its
      identity matters here. */
  type Callback = nat

  // ---------------------------------------------------------------------
  // Caller side
  // ---------------------------------------------------------------------

  /** What `send` pushes, in order, onto the two channels: a registration
      for the reader thread, and for the writer thread the text frame of
      `message` serialised with `id` (kept as the pair it is rendered from;
      `QueuedFrame` renders it). */
  datatype Push = Register(id: U64, callback: Callback) | Enqueue(message: Messages.Message, id: U64)

  /** The frame an `Enqueue` push puts on the writer's queue. */
  function QueuedFrame(message: Messages.Message, id: U64): (f: Frame)
    ensures f.Text? && Messages.Decode(f.text) == Some((id, message))
  {
    Messages.SerializeRoundTrip(message, id);
    Text(Messages.Serialize(message, id))
  }

  /** The transport's own state: the id counter and everything pushed so far. */
  datatype Transport = Transport(counter: U64, pushes: seq<Push>)

  /** A freshly connected transport. */
  const Connected: Transport := Transport(0, [])

  /** The id counter is a `u64`; incrementing it past the maximum is a
      failure rather than a wrap-around. */
  datatype SendError = IdSpaceExhausted

  /** `generate_id`: increment the counter and hand out its new value. */
  function GenerateId(t: Transport): (r: Result<(Transport, U64), SendError>)
    ensures r.Ok? <==> t.counter < U64_MAX
    ensures r.Ok? ==> r.value.1 == t.counter + 1 && r.value.0 == t.(counter := r.value.1)
  {
    if t.counter == U64_MAX then Err(IdSpaceExhausted)
    else Ok((t.(counter := t.counter + 1), t.counter + 1))
  }

  /** `send`: take a fresh id, register the callback under it, then enqueue
      the message serialised with that same id. */
  function Send(t: Transport, msg: Messages.Message, callback: Callback): Result<(Transport, U64), SendError> {
    match GenerateId(t)
    case Err(e) => Err(e)
    case Ok((t1, id)) =>
      Ok((t1.(pushes := t1.pushes + SendPushes(id, (msg, callback))), id))
  }

  /** A sequence of `send`s, in order, with the ids they used. */
  function SendAll(t: Transport, requests: seq<(Messages.Message, Callback)>): Result<(Transport, seq<U64>), SendError>
  {
    if |requests| == 0 then Ok((t, []))
    else
      match SendAll(t, requests[..|requests| - 1])
      case Err(e) => Err(e)
      case Ok((t1, ids)) =>
        var last := requests[|requests| - 1];
        match Send(t1, last.0, last.1)
        case Err(e) => Err(e)
        case Ok((t2, id)) => Ok((t2, ids + [id]))
  }

  /** What one `send` with id `id` pushes: registration first, frame second. */
  function SendPushes(id: U64, request: (Messages.Message, Callback)): seq<Push> {
    [Register(id, request.1), Enqueue(request.0, id)]
  }

  /** The pushes of `requests` sent one after another with ids counting up
      from `counter + 1`. */
  function Planned(counter: nat, requests: seq<(Messages.Message, Callback)>): seq<Push>
    requires counter + |requests| <= U64_MAX
  {
    if |requests| == 0 then []
    else
      Planned(counter, requests[..|requests| - 1])
      + SendPushes(counter + |requests|, requests[|requests| - 1])
  }

  /** The ids `counter + 1`, ..., `counter + n`. */
  function IdsAfter(counter: nat, n: nat): (ids: seq<U64>)
    requires counter + n <= U64_MAX
    ensures |ids| == n
    ensures forall i :: 0 <= i < n ==> ids[i] == counter + i + 1
  {
    if n == 0 then [] else IdsAfter(counter, n - 1) + [counter + n]
  }

  /** A run of `send`s that does not exhaust the id space succeeds, uses the
      ids after the counter in order, and appends exactly their pushes. */
  lemma {:induction false} SendAllSpec(t: Transport, requests: seq<(Messages.Message, Callback)>)
    requires t.counter + |requests| <= U64_MAX
    ensures SendAll(t, requests)
         == Ok((Transport(t.counter + |requests|, t.pushes + Planned(t.counter, requests)),
                IdsAfter(t.counter, |requests|)))
  {
    if |requests| > 0 {
      var front := requests[..|requests| - 1];
      var last := requests[|requests| - 1];
      var id: U64 := t.counter + |requests|;
      SendAllSpec(t, front);
      var t1 := Transport(t.counter + |front|, t.pushes + Planned(t.counter, front));
      assert SendAll(t, front) == Ok((t1, IdsAfter(t.counter, |front|)));
      var t2 := Transport(id, t1.pushes + SendPushes(id, last));
      assert Send(t1, last.0, last.1) == Ok((t2, id));
      assert t2.pushes == t.pushes + Planned(t.counter, requests);
      assert SendAll(t, requests) == Ok((t2, IdsAfter(t.counter, |front|) + [id]));
      assert IdsAfter(t.counter, |requests|) == IdsAfter(t.counter, |front|) + [id];
    } else {
      assert t.pushes + [] == t.pushes;
    }
  }

  /** The i-th request's pushes sit at positions 2i and 2i + 1. */
  lemma {:induction false} PlannedAt(counter: nat, requests: seq<(Messages.Message, Callback)>, i: nat)
    requires counter + |requests| <= U64_MAX
    requires i < |requests|
    ensures |Planned(counter, requests)| == 2 * |requests|
    ensures Planned(counter, requests)[2 * i] == Register(counter + i + 1, requests[i].1)
    ensures Planned(counter, requests)[2 * i + 1]
         == Enqueue(requests[i].0, counter + i + 1)
  {
    var front := requests[..|requests| - 1];
    if i < |front| {
      PlannedAt(counter, front, i);
      assert front[i] == requests[i];
    } else if |front| > 0 {
      PlannedAt(counter, front, 0);
    }
  }

  /** From a fresh connection the ids are 1, 2, 3, ... (so strictly
      increasing and never reused), and the pushes are exactly those of the
      requests in order, each registration just before the frame serialised
      with its id (see `PlannedAt`; that frame decodes back to the id, see
      `QueuedFrame`). */
  lemma SendsFromConnection(requests: seq<(Messages.Message, Callback)>)
    requires |requests| <= U64_MAX
    ensures var r := SendAll(Connected, requests);
      && r.Ok?
      && r.value.1 == IdsAfter(0, |requests|)
      && (forall i, j :: 0 <= i < j < |requests| ==> r.value.1[i] < r.value.1[j])
      && r.value.0 == Transport(|requests|, Planned(0, requests))
  {
    SendAllSpec(Connected, requests);
    assert Connected.pushes + Planned(0, requests) == Planned(0, requests);
  }

  /** Once the counter has reached the maximum, every further `send` fails
      and pushes nothing. */
  lemma SendAfterExhaustion(t: Transport, msg: Messages.Message, callback: Callback)
    requires t.counter == U64_MAX
    ensures Send(t, msg, callback) == Err(IdSpaceExhausted)
  {
  }

  // ---------------------------------------------------------------------
  // Reader thread
  // ---------------------------------------------------------------------

  /** What parsing a text frame as JSON yields, as far as dispatch looks at
      it: no JSON at all, JSON without an unsigned 64-bit `id`, or JSON with
      one. The JSON parser itself is a parameter of the model. */
  datatype Parsed = Unparsable | WithoutId | WithId(id: U64)

  /** A callback answered with a frame; the parsed response is kept as the
      text it was parsed from. */
  datatype Fulfilment = Fulfilment(id: U64, callback: Callback, response: string)

  /** What the reader logs and then carries on after. */
  datatype Diagnostic = ParseFailure(text: string) | NoCallback(id: U64)

  /** Why the reader returned. `MissingId` stands for the panic on a parsed
      frame without an unsigned integer `id`. */
  datatype StopReason = PeerClosed | ReadFailed | PongUndeliverable | MissingId

  datatype Status = Listening | Stopped(reason: StopReason)

  /** The reader's state: its callback table, what it has put on the
      writer's queue, the callbacks it has answered, its log, whether the
      writer still drains the queue, and whether it is still looping. */
  datatype Receiver = Receiver(
    callbacks: map<U64, Callback>,
    outbox: seq<Frame>,
    fulfilled: seq<Fulfilment>,
    diagnostics: seq<Diagnostic>,
    writerAlive: bool,
    status: Status)

  /** The reader as spawned: an empty table, nothing sent or answered. */
  const Spawned: Receiver := Receiver(map[], [], [], [], true, Listening)

  /** What the reader can observe: a registration arriving from `send`, a
      frame read from the socket, a failed read, or the writer having exited
      (after which sends on its queue fail). */
  datatype Event =
    | Registered(id: U64, callback: Callback)
    | Received(frame: Frame)
    | ReadError
    | WriterExited

  /** Reply with `Close(None)` if the writer still listens, and stop. */
  function Shutdown(r: Receiver, reason: StopReason): Receiver {
    r.(outbox := if r.writerAlive then r.outbox + [Close(None)] else r.outbox,
       status := Stopped(reason))
  }

  /** The handling of a text frame once it has been parsed. */
  function Dispatch(r: Receiver, text: string, parsed: Parsed): Receiver {
    match parsed
    case Unparsable => r.(diagnostics := r.diagnostics + [ParseFailure(text)])
    case WithoutId => r.(status := Stopped(MissingId))
    case WithId(id) =>
      if id in r.callbacks then Fulfil(r, id, text)
      else
        r.(diagnostics := r.diagnostics + [NoCallback(id)])
  }

  /** The callback pending under `id` answered with `text`, its entry gone. */
  function Fulfil(r: Receiver, id: U64, text: string): Receiver
    requires id in r.callbacks
  {
    r.(callbacks := r.callbacks - {id}, fulfilled := r.fulfilled + [Fulfilment(id, r.callbacks[id], text)])
  }

  /** One turn of the reader loop. A stopped reader has returned and
      observes nothing more. */
  function Step(r: Receiver, e: Event, parse: string -> Parsed): Receiver {
    if r.status.Stopped? then r
    else
      match e
      case Registered(id, callback) => r.(callbacks := r.callbacks[id := callback])
      case WriterExited => r.(writerAlive := false)
      case ReadError => Shutdown(r, ReadFailed)
      case Received(frame) =>
        match frame
        case Close(_) => Shutdown(r, PeerClosed)
        case Ping(data) =>
          if r.writerAlive then r.(outbox := r.outbox + [Pong(data)])
          else r.(status := Stopped(PongUndeliverable))
        case Text(text) => Dispatch(r, text, parse(text))
        case _ => r
  }

  /** The reader after a sequence of events. */
  function Run(r: Receiver, events: seq<Event>, parse: string -> Parsed): Receiver {
    if |events| == 0 then r
    else Step(Run(r, events[..|events| - 1], parse), events[|events| - 1], parse)
  }

  /** A response to a registered id removes exactly that entry, answers the
      callback stored under it with the frame, and changes nothing else. */
  lemma ResponseFulfilsItsCallback(r: Receiver, text: string, parse: string -> Parsed, id: U64)
    requires r.status == Listening && parse(text) == WithId(id) && id in r.callbacks
    ensures var r1 := Step(r, Received(Text(text)), parse);
      && r1.callbacks.Keys == r.callbacks.Keys - {id}
      && (forall k :: k in r1.callbacks ==> r1.callbacks[k] == r.callbacks[k])
      && r1.fulfilled == r.fulfilled + [Fulfilment(id, r.callbacks[id], text)]
      && r1.outbox == r.outbox && r1.diagnostics == r.diagnostics && r1.status == Listening
  {
  }

  /** A response to an id nobody waits for is logged; the table is kept and
      the reader goes on. */
  lemma UnmatchedResponseIsLogged(r: Receiver, text: string, parse: string -> Parsed, id: U64)
    requires r.status == Listening && parse(text) == WithId(id) && id !in r.callbacks
    ensures Step(r, Received(Text(text)), parse) == r.(diagnostics := r.diagnostics + [NoCallback(id)])
  {
  }

  /** A ping is answered with a pong carrying the same payload; if the
      writer is gone the reader gives up instead. The table is untouched. */
  lemma PingIsAnswered(r: Receiver, data: seq<U8>, parse: string -> Parsed)
    requires r.status == Listening
    ensures var r1 := Step(r, Received(Ping(data)), parse);
      && r1.callbacks == r.callbacks && r1.fulfilled == r.fulfilled
      && (r.writerAlive ==> r1.outbox == r.outbox + [Pong(data)] && r1.status == Listening)
      && (!r.writerAlive ==> r1.outbox == r.outbox && r1.status == Stopped(PongUndeliverable))
  {
  }

  /** A close frame or a failed read makes the reader ask the writer to
      close (if it still can) and return; pending callbacks stay unanswered. */
  lemma CloseAndReadErrorStop(r: Receiver, e: Event, parse: string -> Parsed)
    requires r.status == Listening
    requires e == ReadError || (e.Received? && e.frame.Close?)
    ensures var r1 := Step(r, e, parse);
      && r1.status == Stopped(if e == ReadError then ReadFailed else PeerClosed)
      && r1.outbox == r.outbox + (if r.writerAlive then [Close(None)] else [])
      && r1.callbacks == r.callbacks && r1.fulfilled == r.fulfilled
  {
  }

  /** Unparsable text is logged and skipped; binary and pong frames are
      ignored; neither touches the table or the writer's queue. */
  lemma IgnoredFrames(r: Receiver, frame: Frame, parse: string -> Parsed)
    requires r.status == Listening
    requires frame.Binary? || frame.Pong? || (frame.Text? && parse(frame.text) == Unparsable)
    ensures var r1 := Step(r, Received(frame), parse);
      && r1.callbacks == r.callbacks && r1.fulfilled == r.fulfilled
      && r1.outbox == r.outbox && r1.status == Listening
      && r1.diagnostics == r.diagnostics + (if frame.Text? then [ParseFailure(frame.text)] else [])
  {
  }

  /** A parsed frame without an id ends the reader, answering nothing. */
  lemma FrameWithoutIdStops(r: Receiver, text: string, parse: string -> Parsed)
    requires r.status == Listening && parse(text) == WithoutId
    ensures Step(r, Received(Text(text)), parse) == r.(status := Stopped(MissingId))
  {
  }

  /** Events are consumed one after another. */
  lemma {:induction false} RunAppend(r: Receiver, a: seq<Event>, b: seq<Event>, parse: string -> Parsed)
    ensures Run(r, a + b, parse) == Run(Run(r, a, parse), b, parse)
    decreases |b|
  {
    if |b| == 0 {
      assert a + b == a;
    } else {
      assert (a + b)[..|a + b| - 1] == a + b[..|b| - 1];
      RunAppend(r, a, b[..|b| - 1], parse);
    }
  }

  /** Once the reader has returned, nothing changes it any more. */
  lemma {:induction false} StoppedStaysStopped(r: Receiver, events: seq<Event>, parse: string -> Parsed)
    requires r.status.Stopped?
    ensures Run(r, events, parse) == r
  {
    if |events| > 0 {
      StoppedStaysStopped(r, events[..|events| - 1], parse);
    }
  }

  /** One step appends at most one frame: a pong while listening, or the
      final close. */
  lemma StepOutbox(r: Receiver, e: Event, parse: string -> Parsed)
    ensures var r1 := Step(r, e, parse);
      || (r1.outbox == r.outbox && (r.status.Stopped? ==> r1.status == r.status))
      || (r.status == Listening && r1.status == Listening && |r1.outbox| == |r.outbox| + 1
          && r1.outbox[..|r.outbox|] == r.outbox && r1.outbox[|r.outbox|].Pong?)
      || (r.status == Listening && r1.status.Stopped? && r1.outbox == r.outbox + [Close(None)])
  {
    var r1 := Step(r, e, parse);
    if r.status == Listening && e.Received? && e.frame.Ping? && r.writerAlive {
      assert r1.outbox[..|r.outbox|] == r.outbox;
    }
  }

  /** The reader only ever appends to the writer's queue, only pongs and
      closes, and a close is the last thing it appends. */
  lemma {:induction false} OutboxGrowsByPongsThenClose(r: Receiver, events: seq<Event>, parse: string -> Parsed)
    requires r.status == Listening
    ensures var r1 := Run(r, events, parse);
      && |r.outbox| <= |r1.outbox| && r1.outbox[..|r.outbox|] == r.outbox
      && (forall k :: |r.outbox| <= k < |r1.outbox| ==> r1.outbox[k].Pong? || r1.outbox[k] == Close(None))
      && (forall k :: |r.outbox| <= k < |r1.outbox| - 1 ==> r1.outbox[k].Pong?)
      && (r1.status == Listening ==> forall k :: |r.outbox| <= k < |r1.outbox| ==> r1.outbox[k].Pong?)
  {
    if |events| > 0 {
      var r0 := Run(r, events[..|events| - 1], parse);
      OutboxGrowsByPongsThenClose(r, events[..|events| - 1], parse);
      var r1 := Step(r0, events[|events| - 1], parse);
      StepOutbox(r0, events[|events| - 1], parse);
      assert r1.outbox[..|r.outbox|] == r0.outbox[..|r.outbox|];
    }
  }

  // Correlation: every registration is answered at most once, with its own
  // callback, and nothing is lost while the reader listens.

  /** Every registration in `events` uses an id not registered before it. */
  predicate FreshRegistrations(registered: map<U64, Callback>, events: seq<Event>) {
    && (forall i :: 0 <= i < |events| && events[i].Registered? ==> events[i].id !in registered)
    && (forall i, j :: 0 <= i < j < |events| && events[i].Registered? && events[j].Registered?
          ==> events[i].id != events[j].id)
  }

  /** The registrations made so far, by id. */
  function Registrations(registered: map<U64, Callback>, events: seq<Event>): (m: map<U64, Callback>)
    ensures forall k :: k in m <==>
      (k in registered || exists i :: 0 <= i < |events| && events[i].Registered? && events[i].id == k)
  {
    if |events| == 0 then registered
    else
      var front := events[..|events| - 1];
      var m := Registrations(registered, front);
      var e := events[|events| - 1];
      assert forall i :: 0 <= i < |front| ==> front[i] == events[i];
      if e.Registered? then m[e.id := e.callback] else m
  }

  /** Some callback has been answered for `id`. */
  predicate Answered(r: Receiver, id: U64) {
    exists k :: 0 <= k < |r.fulfilled| && r.fulfilled[k].id == id
  }

  /** The reader's bookkeeping agrees with the registrations made: pending
      and answered callbacks are the registered ones, no id is answered twice
      or both answered and pending, and while the reader listens every
      registered id is pending or answered. */
  predicate Consistent(r: Receiver, registered: map<U64, Callback>) {
    && PendingRegistered(r, registered)
    && AnswersRegistered(r, registered)
    && AnsweredOnce(r.fulfilled)
    && NoneLost(r, registered)
  }

  predicate PendingRegistered(r: Receiver, registered: map<U64, Callback>) {
    forall id :: id in r.callbacks ==> id in registered && r.callbacks[id] == registered[id]
  }

  predicate AnswersRegistered(r: Receiver, registered: map<U64, Callback>) {
    forall k :: 0 <= k < |r.fulfilled| ==>
      && r.fulfilled[k].id in registered
      && r.fulfilled[k].callback == registered[r.fulfilled[k].id]
      && r.fulfilled[k].id !in r.callbacks
  }

  predicate AnsweredOnce(fs: seq<Fulfilment>) {
    forall k, l :: 0 <= k < l < |fs| ==> fs[k].id != fs[l].id
  }

  predicate NoneLost(r: Receiver, registered: map<U64, Callback>) {
    r.status == Listening ==> forall id :: id in registered ==> id in r.callbacks || Answered(r, id)
  }

  lemma StepConsistent(r: Receiver, registered: map<U64, Callback>, e: Event, parse: string -> Parsed)
    requires Consistent(r, registered)
    requires e.Registered? ==> e.id !in registered
    ensures Consistent(Step(r, e, parse), if e.Registered? then registered[e.id := e.callback] else registered)
  {
    if r.status == Listening {
      match e
      case Registered(id, callback) => RegisterConsistent(r, registered, id, callback);
      case Received(Text(text)) =>
        if parse(text).WithId? && parse(text).id in r.callbacks {
          FulfilConsistent(r, registered, text, parse(text).id);
        } else {
          KeepsTables(r, Step(r, e, parse), registered);
        }
      case _ => KeepsTables(r, Step(r, e, parse), registered);
    }
  }

  lemma RegisterConsistent(r: Receiver, registered: map<U64, Callback>, id: U64, callback: Callback)
    requires Consistent(r, registered) && id !in registered && r.status == Listening
    ensures Consistent(r.(callbacks := r.callbacks[id := callback]), registered[id := callback])
  {
  }

  lemma FulfilConsistent(r: Receiver, registered: map<U64, Callback>, text: string, id: U64)
    requires Consistent(r, registered) && r.status == Listening && id in r.callbacks
    ensures Consistent(Dispatch(r, text, WithId(id)), registered)
  {
    FulfilAnswersRegistered(r, registered, text, id);
    FulfilAnsweredOnce(r, registered, text, id);
    FulfilNoneLost(r, registered, text, id);
  }

  lemma FulfilAnswersRegistered(r: Receiver, registered: map<U64, Callback>, text: string, id: U64)
    requires PendingRegistered(r, registered) && AnswersRegistered(r, registered) && id in r.callbacks
    ensures AnswersRegistered(Fulfil(r, id, text), registered)
  {
    var r1 := Fulfil(r, id, text);
    forall k | 0 <= k < |r1.fulfilled|
      ensures r1.fulfilled[k].id in registered
      ensures r1.fulfilled[k].callback == registered[r1.fulfilled[k].id]
      ensures r1.fulfilled[k].id !in r1.callbacks
    {
      if k < |r.fulfilled| {
        assert r1.fulfilled[k] == r.fulfilled[k];
      }
    }
  }

  lemma FulfilAnsweredOnce(r: Receiver, registered: map<U64, Callback>, text: string, id: U64)
    requires AnswersRegistered(r, registered) && AnsweredOnce(r.fulfilled) && id in r.callbacks
    ensures AnsweredOnce(Fulfil(r, id, text).fulfilled)
  {
    var fs := Fulfil(r, id, text).fulfilled;
    forall k, l | 0 <= k < l < |fs|
      ensures fs[k].id != fs[l].id
    {
      assert fs[k] == r.fulfilled[k];
      if l < |r.fulfilled| {
        assert fs[l] == r.fulfilled[l];
      }
    }
  }

  lemma FulfilNoneLost(r: Receiver, registered: map<U64, Callback>, text: string, id: U64)
    requires NoneLost(r, registered) && r.status == Listening && id in r.callbacks
    ensures NoneLost(Fulfil(r, id, text), registered)
  {
    var r1 := Fulfil(r, id, text);
    var n := |r.fulfilled|;
    forall x | x in registered
      ensures x in r1.callbacks || Answered(r1, x)
    {
      if x == id {
        assert r1.fulfilled[n].id == id;
      } else if x !in r.callbacks {
        var k :| 0 <= k < n && r.fulfilled[k].id == x;
        assert r1.fulfilled[k] == r.fulfilled[k];
      }
    }
  }

  /** A step that leaves the table and the answers alone keeps consistency. */
  lemma KeepsTables(r: Receiver, r1: Receiver, registered: map<U64, Callback>)
    requires Consistent(r, registered)
    requires r1.callbacks == r.callbacks && r1.fulfilled == r.fulfilled
    requires r1.status == Listening ==> r.status == Listening
    ensures Consistent(r1, registered)
  {
    if r1.status == Listening {
      forall x | x in registered
        ensures x in r1.callbacks || Answered(r1, x)
      {
        assert x in r.callbacks || Answered(r, x);
      }
    }
  }

  /** Consistency survives any event sequence whose registrations are fresh,
      in particular the ones `send` produces (see `SentRegistrationsAreFresh`). */
  lemma {:induction false} RunConsistent(r: Receiver, registered: map<U64, Callback>, events: seq<Event>,
                                         parse: string -> Parsed)
    requires Consistent(r, registered) && FreshRegistrations(registered, events)
    ensures Consistent(Run(r, events, parse), Registrations(registered, events))
  {
    if |events| > 0 {
      var front := events[..|events| - 1];
      var e := events[|events| - 1];
      assert forall i :: 0 <= i < |front| ==> front[i] == events[i];
      RunConsistent(r, registered, front, parse);
      var m := Registrations(registered, front);
      if e.Registered? {
        assert e.id !in m;
      }
      StepConsistent(Run(r, front, parse), m, e, parse);
    }
  }

  /** From a freshly spawned reader, every answered callback is the one
      registered under the answer's id, answered once, and while the reader
      listens no registration is lost. */
  lemma ReaderCorrelatesResponses(events: seq<Event>, parse: string -> Parsed)
    requires FreshRegistrations(map[], events)
    ensures Consistent(Run(Spawned, events, parse), Registrations(map[], events))
  {
    RunConsistent(Spawned, map[], events, parse);
  }

  /** The callbacks of a run of requests, in order. */
  function CallbacksOf(requests: seq<(Messages.Message, Callback)>): (cs: seq<Callback>)
    ensures |cs| == |requests|
    ensures forall i :: 0 <= i < |requests| ==> cs[i] == requests[i].1
  {
    seq(|requests|, i requires 0 <= i < |requests| => requests[i].1)
  }

  /** The registrations `send` pushes from a fresh connection carry pairwise
      distinct ids, so, read in order, they are fresh registrations for a
      freshly spawned reader, and both `ReaderCorrelatesResponses` and
      `AnsweredInAnyOrder` apply to them. */
  lemma SentRegistrationsAreFresh(requests: seq<(Messages.Message, Callback)>)
    requires |requests| <= U64_MAX
    ensures var ids := IdsAfter(0, |requests|);
      && Distinct(ids)
      && |Planned(0, requests)| == 2 * |requests|
      && (forall i :: 0 <= i < |requests| ==> Planned(0, requests)[2 * i] == Register(ids[i], requests[i].1))
      && FreshRegistrations(map[], RegistrationEvents(ids, CallbacksOf(requests)))
  {
    var ids := IdsAfter(0, |requests|);
    if |requests| > 0 {
      PlannedAt(0, requests, 0);
    }
    forall i | 0 <= i < |requests|
      ensures Planned(0, requests)[2 * i] == Register(ids[i], requests[i].1)
    {
      PlannedAt(0, requests, i);
    }
  }

  // Any answer order: n registrations followed by their n responses in any
  // permutation leave no callback pending and answer each one once.

  function RegistrationEvents(ids: seq<U64>, callbacks: seq<Callback>): (events: seq<Event>)
    requires |ids| == |callbacks|
    ensures |events| == |ids|
    ensures forall i :: 0 <= i < |ids| ==> events[i] == Registered(ids[i], callbacks[i])
  {
    seq(|ids|, i requires 0 <= i < |ids| => Registered(ids[i], callbacks[i]))
  }

  function ResponseEvents(texts: seq<string>): (events: seq<Event>)
    ensures |events| == |texts|
    ensures forall j :: 0 <= j < |texts| ==> events[j] == Received(Text(texts[j]))
  {
    seq(|texts|, j requires 0 <= j < |texts| => Received(Text(texts[j])))
  }

  /** The table registering `callbacks[i]` under `ids[i]`, later ones winning. */
  function TableOf(ids: seq<U64>, callbacks: seq<Callback>): (m: map<U64, Callback>)
    requires |ids| == |callbacks|
    ensures forall k :: k in m <==> k in ids
  {
    if |ids| == 0 then map[]
    else TableOf(ids[..|ids| - 1], callbacks[..|ids| - 1])[ids[|ids| - 1] := callbacks[|ids| - 1]]
  }

  predicate Distinct(xs: seq<U64>) {
    forall i, j :: 0 <= i < j < |xs| ==> xs[i] != xs[j]
  }

  lemma {:induction false} TableOfDistinct(ids: seq<U64>, callbacks: seq<Callback>, i: nat)
    requires |ids| == |callbacks| && Distinct(ids) && i < |ids|
    ensures TableOf(ids, callbacks)[ids[i]] == callbacks[i]
  {
    if i < |ids| - 1 {
      TableOfDistinct(ids[..|ids| - 1], callbacks[..|ids| - 1], i);
    }
  }

  /** Registrations alone only fill the table. */
  lemma {:induction false} RegistrationsFill(ids: seq<U64>, callbacks: seq<Callback>, parse: string -> Parsed)
    requires |ids| == |callbacks|
    ensures Run(Spawned, RegistrationEvents(ids, callbacks), parse) == Spawned.(callbacks := TableOf(ids, callbacks))
  {
    if |ids| > 0 {
      var n := |ids| - 1;
      assert RegistrationEvents(ids, callbacks)[..n] == RegistrationEvents(ids[..n], callbacks[..n]);
      RegistrationsFill(ids[..n], callbacks[..n], parse);
    }
  }

  /** The answers for `answered` ids, each with the callback the table held. */
  function AnswersFor(table: map<U64, Callback>, answered: seq<U64>, texts: seq<string>): (fs: seq<Fulfilment>)
    requires |answered| == |texts|
    requires forall j :: 0 <= j < |answered| ==> answered[j] in table
    ensures |fs| == |answered|
    ensures forall j :: 0 <= j < |answered| ==> fs[j] == Fulfilment(answered[j], table[answered[j]], texts[j])
  {
    seq(|answered|, j requires 0 <= j < |answered| => Fulfilment(answered[j], table[answered[j]], texts[j]))
  }

  /** The reader after answering `answered`, one text each, in order. */
  function AfterResponses(r: Receiver, answered: seq<U64>, texts: seq<string>): Receiver
    requires |answered| == |texts|
    requires forall j :: 0 <= j < |answered| ==> answered[j] in r.callbacks
  {
    r.(callbacks := r.callbacks - (set x | x in answered),
       fulfilled := r.fulfilled + AnswersFor(r.callbacks, answered, texts))
  }

  /** Responses for distinct pending ids each remove their entry and answer
      its callback, in arrival order. */
  lemma {:induction false} ResponsesFulfil(r: Receiver, texts: seq<string>, answered: seq<U64>, parse: string -> Parsed)
    requires r.status == Listening
    requires |texts| == |answered| && Distinct(answered)
    requires forall j :: 0 <= j < |answered| ==> answered[j] in r.callbacks && parse(texts[j]) == WithId(answered[j])
    ensures Run(r, ResponseEvents(texts), parse) == AfterResponses(r, answered, texts)
  {
    if |texts| > 0 {
      var n := |texts| - 1;
      var events := ResponseEvents(texts);
      var r0 := AfterResponses(r, answered[..n], texts[..n]);
      assert Run(r, events[..n], parse) == r0 by {
        assert events[..n] == ResponseEvents(texts[..n]);
        ResponsesFulfil(r, texts[..n], answered[..n], parse);
      }
      assert Run(r, events, parse) == Step(r0, Received(Text(texts[n])), parse);
      AnswerOneMore(r, answered, texts);
    }
  }

  /** Answering one more distinct pending id extends the answers by one. */
  lemma AnswerOneMore(r: Receiver, answered: seq<U64>, texts: seq<string>)
    requires 0 < |answered| == |texts| && Distinct(answered)
    requires forall j :: 0 <= j < |answered| ==> answered[j] in r.callbacks
    ensures var n := |answered| - 1;
      var r0 := AfterResponses(r, answered[..n], texts[..n]);
      && answered[n] in r0.callbacks
      && Fulfil(r0, answered[n], texts[n]) == AfterResponses(r, answered, texts)
  {
    var n := |answered| - 1;
    var m := r.callbacks;
    var x := answered[n];
    var r0 := AfterResponses(r, answered[..n], texts[..n]);
    assert x in r0.callbacks && r0.callbacks[x] == m[x] by {
      assert x !in (set y | y in answered[..n]);
    }
    AnswersStep(m, answered, texts);
    RemoveOneMore(m, answered);
    assert r0.fulfilled + [Fulfilment(x, m[x], texts[n])] == r.fulfilled + AnswersFor(m, answered, texts);
  }

  lemma AnswersStep(table: map<U64, Callback>, answered: seq<U64>, texts: seq<string>)
    requires 0 < |answered| == |texts|
    requires forall j :: 0 <= j < |answered| ==> answered[j] in table
    ensures var n := |answered| - 1;
      AnswersFor(table, answered[..n], texts[..n]) + [Fulfilment(answered[n], table[answered[n]], texts[n])]
        == AnswersFor(table, answered, texts)
  {
  }

  lemma RemoveOneMore(table: map<U64, Callback>, answered: seq<U64>)
    requires 0 < |answered|
    ensures var n := |answered| - 1;
      (table - (set y | y in answered[..n])) - {answered[n]} == table - (set y | y in answered)
  {
    var n := |answered| - 1;
    assert (set y | y in answered) == (set y | y in answered[..n]) + {answered[n]} by {
      assert answered == answered[..n] + [answered[n]];
    }
  }

  /** A sequence with distinct elements holds each value at most once. */
  lemma {:induction false} DistinctMultiplicity(xs: seq<U64>, x: U64)
    requires Distinct(xs)
    ensures multiset(xs)[x] <= 1
  {
    if |xs| > 0 {
      var n := |xs| - 1;
      assert xs == xs[..n] + [xs[n]];
      DistinctMultiplicity(xs[..n], x);
      if x == xs[n] {
        assert x !in xs[..n];
      }
    }
  }

  /** A value found at two positions occurs at least twice. */
  lemma {:induction false} RepeatMultiplicity(xs: seq<U64>, i: nat, j: nat)
    requires i < j < |xs| && xs[i] == xs[j]
    ensures multiset(xs)[xs[i]] >= 2
  {
    assert xs == xs[..j] + [xs[j]] + xs[j + 1..];
    assert xs[i] in xs[..j];
  }

  /** n requests answered in any order: afterwards nothing is pending, the
      reader still listens and has sent nothing, and the j-th response
      answered the callback registered under its id; every registration is
      answered. */
  lemma AnsweredInAnyOrder(ids: seq<U64>, callbacks: seq<Callback>, texts: seq<string>, answered: seq<U64>,
                           parse: string -> Parsed)
    requires |callbacks| == |ids| && |texts| == |answered|
    requires Distinct(ids)
    requires multiset(answered) == multiset(ids)
    requires forall j :: 0 <= j < |texts| ==> parse(texts[j]) == WithId(answered[j])
    ensures var r := Run(Spawned, RegistrationEvents(ids, callbacks) + ResponseEvents(texts), parse);
      && r.status == Listening && r.callbacks == map[] && r.outbox == [] && r.diagnostics == []
      && AnswersMatch(r.fulfilled, ids, callbacks, texts)
  {
    PermutationFacts(ids, answered);
    AnsweredState(ids, callbacks, texts, answered, parse);
    PairedAnswers(ids, callbacks, texts, answered);
  }

  /** The j-th answer carries the j-th response text to a callback
      registered under its id, and every registration has an answer. */
  predicate AnswersMatch(fs: seq<Fulfilment>, ids: seq<U64>, callbacks: seq<Callback>, texts: seq<string>)
    requires |callbacks| == |ids|
  {
    && |fs| == |texts|
    && (forall j :: 0 <= j < |texts| ==> AnswerIsOwned(fs, ids, callbacks, texts, j))
    && (forall i :: 0 <= i < |ids| ==> RegistrationIsAnswered(fs, ids, callbacks, i))
  }

  predicate AnswerIsOwned(fs: seq<Fulfilment>, ids: seq<U64>, callbacks: seq<Callback>, texts: seq<string>, j: nat)
    requires |callbacks| == |ids| && |fs| == |texts| && j < |texts|
  {
    exists i :: 0 <= i < |ids| && fs[j] == Fulfilment(ids[i], callbacks[i], texts[j])
  }

  predicate RegistrationIsAnswered(fs: seq<Fulfilment>, ids: seq<U64>, callbacks: seq<Callback>, i: nat)
    requires |callbacks| == |ids| && i < |ids|
  {
    exists j :: 0 <= j < |fs| && fs[j].id == ids[i] && fs[j].callback == callbacks[i]
  }

  /** Each answer for a permutation of distinct registered ids goes to the
      callback registered under its id, and every registration gets one. */
  lemma PairedAnswers(ids: seq<U64>, callbacks: seq<Callback>, texts: seq<string>, answered: seq<U64>)
    requires |callbacks| == |ids| && |texts| == |answered|
    requires Distinct(ids) && forall x :: x in answered <==> x in ids
    ensures AnswersMatch(AnswersFor(TableOf(ids, callbacks), answered, texts), ids, callbacks, texts)
  {
    var fs := AnswersFor(TableOf(ids, callbacks), answered, texts);
    forall j | 0 <= j < |texts|
      ensures AnswerIsOwned(fs, ids, callbacks, texts, j)
    {
      var i := AnswerOwner(ids, callbacks, texts, answered, j);
    }
    forall i | 0 <= i < |ids|
      ensures RegistrationIsAnswered(fs, ids, callbacks, i)
    {
      var j := AnswerOf(ids, callbacks, texts, answered, i);
    }
  }

  /** The registration a response answers. */
  lemma AnswerOwner(ids: seq<U64>, callbacks: seq<Callback>, texts: seq<string>, answered: seq<U64>, j: nat)
    returns (i: nat)
    requires |callbacks| == |ids| && |texts| == |answered| && j < |texts|
    requires Distinct(ids) && forall x :: x in answered <==> x in ids
    ensures i < |ids|
    ensures AnswersFor(TableOf(ids, callbacks), answered, texts)[j] == Fulfilment(ids[i], callbacks[i], texts[j])
  {
    assert answered[j] in answered;
    i :| 0 <= i < |ids| && ids[i] == answered[j];
    TableOfDistinct(ids, callbacks, i);
  }

  /** The response that answers a registration. */
  lemma AnswerOf(ids: seq<U64>, callbacks: seq<Callback>, texts: seq<string>, answered: seq<U64>, i: nat)
    returns (j: nat)
    requires |callbacks| == |ids| && |texts| == |answered| && i < |ids|
    requires Distinct(ids) && forall x :: x in answered <==> x in ids
    ensures j < |texts|
    ensures var f := AnswersFor(TableOf(ids, callbacks), answered, texts)[j];
      f.id == ids[i] && f.callback == callbacks[i]
  {
    assert ids[i] in ids;
    j :| 0 <= j < |answered| && answered[j] == ids[i];
    TableOfDistinct(ids, callbacks, i);
  }

  /** A rearrangement of distinct ids is distinct and has the same members. */
  lemma PermutationFacts(ids: seq<U64>, answered: seq<U64>)
    requires Distinct(ids) && multiset(answered) == multiset(ids)
    ensures Distinct(answered)
    ensures forall x :: x in answered <==> x in ids
  {
    forall x ensures x in answered <==> x in ids {
      assert x in answered <==> x in multiset(answered);
      assert x in ids <==> x in multiset(ids);
    }
    forall i, j | 0 <= i < j < |answered| ensures answered[i] != answered[j] {
      if answered[i] == answered[j] {
        RepeatMultiplicity(answered, i, j);
        DistinctMultiplicity(ids, answered[i]);
      }
    }
  }

  lemma RemoveAll(table: map<U64, Callback>, answered: seq<U64>)
    requires forall k :: k in table ==> k in answered
    ensures table - (set x | x in answered) == map[]
  {
    assert (table - (set x | x in answered)).Keys == {};
  }

  /** The reader's state after the registrations and all their responses. */
  lemma AnsweredState(ids: seq<U64>, callbacks: seq<Callback>, texts: seq<string>, answered: seq<U64>,
                      parse: string -> Parsed)
    requires |callbacks| == |ids| && |texts| == |answered|
    requires Distinct(answered) && forall x :: x in answered <==> x in ids
    requires forall j :: 0 <= j < |texts| ==> parse(texts[j]) == WithId(answered[j])
    ensures Run(Spawned, RegistrationEvents(ids, callbacks) + ResponseEvents(texts), parse)
         == Spawned.(fulfilled := AnswersFor(TableOf(ids, callbacks), answered, texts))
  {
    var regs := RegistrationEvents(ids, callbacks);
    var responses := ResponseEvents(texts);
    RunAppend(Spawned, regs, responses, parse);
    RegistrationsFill(ids, callbacks, parse);
    ResponsesEmptyTable(ids, callbacks, texts, answered, parse);
  }

  /** Starting from the table of all registrations, the responses answer
      every entry and leave the table empty. */
  lemma ResponsesEmptyTable(ids: seq<U64>, callbacks: seq<Callback>, texts: seq<string>, answered: seq<U64>,
                            parse: string -> Parsed)
    requires |callbacks| == |ids| && |texts| == |answered|
    requires Distinct(answered) && forall x :: x in answered <==> x in ids
    requires forall j :: 0 <= j < |texts| ==> parse(texts[j]) == WithId(answered[j])
    ensures Run(Spawned.(callbacks := TableOf(ids, callbacks)), ResponseEvents(texts), parse)
         == Spawned.(fulfilled := AnswersFor(TableOf(ids, callbacks), answered, texts))
  {
    var table := TableOf(ids, callbacks);
    assert forall j :: 0 <= j < |answered| ==> answered[j] in table;
    ResponsesFulfil(Spawned.(callbacks := table), texts, answered, parse);
    AllAnswered(table, answered, texts);
  }

  /** Answering every pending id empties the table. */
  lemma AllAnswered(table: map<U64, Callback>, answered: seq<U64>, texts: seq<string>)
    requires |answered| == |texts|
    requires forall j :: 0 <= j < |answered| ==> answered[j] in table
    requires forall k :: k in table ==> k in answered
    ensures AfterResponses(Spawned.(callbacks := table), answered, texts)
         == Spawned.(fulfilled := AnswersFor(table, answered, texts))
  {
    RemoveAll(table, answered);
    assert [] + AnswersFor(table, answered, texts) == AnswersFor(table, answered, texts);
  }

  // ---------------------------------------------------------------------
  // Writer thread
  // ---------------------------------------------------------------------

  /** A message the writer takes off its queue, with whether writing it to
      the socket succeeds. */
  datatype Queued = Queued(frame: Frame, writes: bool)

  /** Why the writer returned: it found its queue empty, it wrote a close
      frame, or a write failed (after which it tried one more close). */
  datatype WriterExit = QueueEmpty | CloseWritten | WriteFailed

  function FramesOf(queue: seq<Queued>): (frames: seq<Frame>)
    ensures |frames| == |queue|
    ensures forall i :: 0 <= i < |queue| ==> frames[i] == queue[i].frame
  {
    seq(|queue|, i requires 0 <= i < |queue| => queue[i].frame)
  }

  /** The message makes the writer stop: a close frame, or a failed write. */
  predicate Stops(q: Queued) {
    q.frame.Close? || !q.writes
  }

  /** The writer loop over the messages it takes, in order. `attempted` are
      the frames it tries to write, `taken` how many messages it took off the
      queue. It writes messages in queue order, stops right after the first
      close frame or failed write (adding a best-effort `Close(None)` after a
      failure), and otherwise drains the queue. */
  method RunWriter(queue: seq<Queued>) returns (attempted: seq<Frame>, taken: nat, exit: WriterExit)
    ensures taken <= |queue|
    ensures forall i :: 0 <= i < taken - 1 ==> !Stops(queue[i])
    ensures exit == QueueEmpty <==> forall i :: 0 <= i < |queue| ==> !Stops(queue[i])
    ensures exit == QueueEmpty ==> taken == |queue| && attempted == FramesOf(queue)
    ensures exit == CloseWritten ==>
      0 < taken && queue[taken - 1].frame.Close? && attempted == FramesOf(queue[..taken])
    ensures exit == WriteFailed ==>
      && 0 < taken && !queue[taken - 1].frame.Close? && !queue[taken - 1].writes
      && attempted == FramesOf(queue[..taken]) + [Close(None)]
  {
    attempted := [];
    taken := 0;
    while taken < |queue|
      invariant taken <= |queue|
      invariant forall i :: 0 <= i < taken ==> !Stops(queue[i])
      invariant attempted == FramesOf(queue[..taken])
    {
      var q := queue[taken];
      taken := taken + 1;
      if q.frame.Close? {
        attempted := attempted + [q.frame];
        assert queue[..taken] == queue[..taken - 1] + [q];
        return attempted, taken, CloseWritten;
      }
      attempted := attempted + [q.frame];
      assert queue[..taken] == queue[..taken - 1] + [q];
      if !q.writes {
        attempted := attempted + [Close(None)];
        return attempted, taken, WriteFailed;
      }
    }
    assert queue[..taken] == queue;
    exit := QueueEmpty;
  }
}
