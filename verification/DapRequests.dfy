/**
 * Correlating Debug Adapter Protocol requests with responses. Callers, timers and the reader are
 * concurrent; a run is any interleaving of their atomic steps.
 */
module DapRequests {
  import opened Wrappers

  /** What a caller finds in its one-shot channel: the response at an index of `received`, or the drain's error. */
  datatype Letter = Answer(index: nat) | Closed

  datatype Completion = Responded(index: nat) | Disconnected | TimedOut | WriteFailed

  datatype Phase =
    | Numbered                          // has a sequence number, no slot yet
    | Registered                        // has a slot, request not written yet
    | Waiting                           // request written
    | TimingOut                         // the timer fired, the slot is still to be withdrawn
    | Finished(completion: Completion)

  datatype Call = Call(number: int, phase: Phase, inbox: Option<Letter>)

  datatype Reader = Running | Ended | Drained

  datatype State<P> = State(
    nextSeq: int,
    issued: seq<int>,                   // every sequence number handed out, in order
    calls: map<nat, Call>,
    pending: map<int, nat>,             // sequence number to waiting caller
    received: seq<(int, P)>,            // every response the reader looked up: request number and payload
    reader: Reader)

  datatype Event<P> =
    | Begin(id: nat)                    // a request takes its number
    | OtherMessage                      // a notification or a reverse response takes a number
    | Register(id: nat)
    | Write(id: nat, ok: bool)
    | Response(number: int, payload: P)
    | Resume(id: nat)                   // the caller takes the letter out of its channel
    | TimerFires(id: nat)
    | Withdraw(id: nat)                 // the timed-out caller removes its slot
    | EndOfStream
    | DrainPending

  function Init<P>(): State<P> {
    State(1, [], map[], map[], [], Running)
  }

  predicate InPhase<P>(s: State<P>, id: nat, phase: Phase) {
    id in s.calls && s.calls[id].phase == phase
  }

  predicate Enabled<P>(s: State<P>, e: Event<P>) {
    match e
    case Begin(id) => id !in s.calls
    case OtherMessage => true
    case Register(id) => InPhase(s, id, Numbered)
    case Write(id, _) => InPhase(s, id, Registered)
    case Response(_, _) => s.reader.Running?
    case Resume(id) => InPhase(s, id, Waiting) && s.calls[id].inbox.Some?
    case TimerFires(id) => InPhase(s, id, Waiting) && s.calls[id].inbox.None?
    case Withdraw(id) => InPhase(s, id, TimingOut)
    case EndOfStream => s.reader.Running?
    case DrainPending => s.reader.Ended?
  }

  function WithPhase<P>(s: State<P>, id: nat, phase: Phase): State<P>
    requires id in s.calls
  {
    s.(calls := s.calls[id := s.calls[id].(phase := phase)])
  }

  function Outcome(letter: Letter): Completion {
    match letter
    case Answer(index) => Responded(index)
    case Closed => Disconnected
  }

  function TakeNumber<P>(s: State<P>): State<P> {
    s.(nextSeq := s.nextSeq + 1, issued := s.issued + [s.nextSeq])
  }

  predicate HoldsSlot<P>(s: State<P>, id: nat) {
    id in s.calls && s.calls[id].number in s.pending && s.pending[s.calls[id].number] == id
  }

  /** The slot is removed and its channel filled while the table is locked. */
  function Deliver<P>(s: State<P>, number: int, payload: P): State<P> {
    var t := s.(received := s.received + [(number, payload)]);
    if number in s.pending && s.pending[number] in s.calls then
      var id := s.pending[number];
      t.(pending := s.pending - {number},
         calls := s.calls[id := s.calls[id].(inbox := Some(Answer(|s.received|)))])
    else t
  }

  function DrainAll<P>(s: State<P>): State<P> {
    s.(reader := Drained,
       pending := map[],
       calls := map id | id in s.calls ::
         if HoldsSlot(s, id) then s.calls[id].(inbox := Some(Closed)) else s.calls[id])
  }

  function Next<P>(s: State<P>, e: Event<P>): State<P>
    requires Enabled(s, e)
  {
    match e
    case Begin(id) => TakeNumber(s).(calls := s.calls[id := Call(s.nextSeq, Numbered, None)])
    case OtherMessage => TakeNumber(s)
    case Register(id) =>
      WithPhase(s, id, Registered).(pending := s.pending[s.calls[id].number := id])
    case Write(id, ok) => WithPhase(s, id, if ok then Waiting else Finished(WriteFailed))
    case Response(number, payload) => Deliver(s, number, payload)
    case Resume(id) => WithPhase(s, id, Finished(Outcome(s.calls[id].inbox.value)))
    case TimerFires(id) => WithPhase(s, id, TimingOut)
    case Withdraw(id) =>
      WithPhase(s, id, Finished(TimedOut)).(pending := s.pending - {s.calls[id].number})
    case EndOfStream => s.(reader := Ended)
    case DrainPending => DrainAll(s)
  }

  /** The state after a run, or nothing if some step of it could not happen. */
  function Run<P>(s: State<P>, events: seq<Event<P>>): Option<State<P>>
    decreases |events|
  {
    if events == [] then Some(s)
    else if Enabled(s, events[0]) then Run(Next(s, events[0]), events[1..])
    else None
  }

  // ---------------------------------------------------------------------
  // What every reachable state satisfies.

  /** A caller with a slot that nobody has filled or withdrawn. */
  predicate Open(c: Call) {
    && c.inbox.None?
    && (c.phase.Registered? || c.phase.Waiting? || c.phase.TimingOut? || c.phase == Finished(WriteFailed))
  }

  ghost predicate GoodCall<P>(s: State<P>, id: nat) {
    id in s.calls ==>
      var c := s.calls[id];
      && 1 <= c.number < s.nextSeq
      // A slot is held exactly by the open calls.
      && (Open(c) <==> HoldsSlot(s, id))
      && (c.phase.Numbered? ==> c.inbox.None?)
      // A letter carries the caller's own number, or comes from the drain.
      && (c.inbox.Some? && c.inbox.value.Answer? ==>
            c.inbox.value.index < |s.received| && s.received[c.inbox.value.index].0 == c.number)
      && (c.inbox == Some(Closed) ==> s.reader.Drained?)
      // A finished caller was finished by its letter, by its timer, or by its own failed write.
      && (c.phase.Finished? && c.phase.completion.Responded? ==>
            c.inbox == Some(Answer(c.phase.completion.index)))
      && (c.phase == Finished(Disconnected) ==> c.inbox == Some(Closed))
  }

  /** The numbers handed out are 1, 2, 3 and so on. */
  ghost predicate Counted<P>(s: State<P>) {
    && s.nextSeq == |s.issued| + 1
    && forall i :: 0 <= i < |s.issued| ==> s.issued[i] == i + 1
  }

  ghost predicate OwnNumbers<P>(s: State<P>) {
    forall a, b :: a in s.calls && b in s.calls && s.calls[a].number == s.calls[b].number ==> a == b
  }

  ghost predicate OwnSlots<P>(s: State<P>) {
    forall n :: n in s.pending ==> s.pending[n] in s.calls && s.calls[s.pending[n]].number == n
  }

  ghost predicate Inv<P>(s: State<P>) {
    Counted(s) && OwnNumbers(s) && OwnSlots(s) && forall id :: GoodCall(s, id)
  }

  /** A step that only gives another caller a new phase. */
  lemma PhaseKeepsOthers<P>(s: State<P>, t: State<P>, other: nat, phase: Phase, id: nat)
    requires other in s.calls && id != other && GoodCall(s, id)
    requires t.calls == WithPhase(s, other, phase).calls && t.received == s.received && t.reader == s.reader
    requires t.nextSeq == s.nextSeq && (HoldsSlot(t, id) <==> HoldsSlot(s, id))
    ensures GoodCall(t, id)
  {
  }

  lemma StepKeepsCall<P>(s: State<P>, e: Event<P>, id: nat)
    requires OwnNumbers(s) && OwnSlots(s) && GoodCall(s, id) && Enabled(s, e)
    requires e.Register? || e.Write? || e.Resume? || e.TimerFires? || e.Withdraw?
    ensures GoodCall(Next(s, e), id)
  {
    if id != e.id {
      assert id in s.calls ==> s.calls[id].number != s.calls[e.id].number;
      PhaseKeepsOthers(s, Next(s, e), e.id, Next(s, e).calls[e.id].phase, id);
    }
  }

  lemma DeliverKeepsCall<P>(s: State<P>, number: int, payload: P, id: nat)
    requires OwnNumbers(s) && OwnSlots(s) && GoodCall(s, id)
    ensures GoodCall(Deliver(s, number, payload), id)
  {
    if id in s.calls && HoldsSlot(s, id) {
      assert s.calls[id].number == number ==> s.pending[number] == id;
    }
  }

  lemma PendingNumbersAreOld<P>(s: State<P>)
    requires Inv(s)
    ensures forall n :: n in s.pending ==> n < s.nextSeq
  {
    forall n | n in s.pending
      ensures n < s.nextSeq
    {
      assert GoodCall(s, s.pending[n]);
    }
  }

  lemma NextKeepsCall<P>(s: State<P>, e: Event<P>, id: nat)
    requires Inv(s) && Enabled(s, e)
    ensures GoodCall(Next(s, e), id)
  {
    assert GoodCall(s, id);
    match e {
      case Begin(_) => PendingNumbersAreOld(s);
      case OtherMessage =>
      case Response(number, payload) => DeliverKeepsCall(s, number, payload, id);
      case EndOfStream =>
      case DrainPending =>
      case _ => StepKeepsCall(s, e, id);
    }
  }

  lemma NextKeepsNumbers<P>(s: State<P>, e: Event<P>)
    requires Inv(s) && Enabled(s, e)
    ensures Counted(Next(s, e)) && OwnNumbers(Next(s, e)) && OwnSlots(Next(s, e))
  {
    forall id | id in s.calls
      ensures s.calls[id].number < s.nextSeq
    {
      assert GoodCall(s, id);
    }
  }

  lemma NextKeepsInv<P>(s: State<P>, e: Event<P>)
    requires Inv(s) && Enabled(s, e)
    ensures Inv(Next(s, e))
  {
    forall id ensures GoodCall(Next(s, e), id) {
      NextKeepsCall(s, e, id);
    }
    NextKeepsNumbers(s, e);
  }

  lemma {:induction false} RunKeepsInv<P>(s: State<P>, events: seq<Event<P>>)
    requires Inv(s) && Run(s, events).Some?
    decreases |events|
    ensures Inv(Run(s, events).value)
  {
    if events != [] {
      NextKeepsInv(s, events[0]);
      RunKeepsInv(Next(s, events[0]), events[1..]);
    }
  }

  lemma InitIsGood<P>()
    ensures Inv(Init<P>())
  {
  }

  /** In every interleaving all sequence numbers are distinct, and so are those of the requests. */
  lemma NumbersAreDistinct<P>(events: seq<Event<P>>)
    requires Run(Init<P>(), events).Some?
    ensures var s := Run(Init<P>(), events).value;
      && (forall i, j :: 0 <= i < j < |s.issued| ==> s.issued[i] != s.issued[j])
      && (forall a, b :: a in s.calls && b in s.calls && a != b ==> s.calls[a].number != s.calls[b].number)
      && (forall a :: a in s.calls ==> s.calls[a].number in s.issued)
  {
    InitIsGood<P>();
    RunKeepsInv(Init<P>(), events);
    var s := Run(Init<P>(), events).value;
    forall a | a in s.calls ensures s.calls[a].number in s.issued {
      assert GoodCall(s, a);
      assert s.issued[s.calls[a].number - 1] == s.calls[a].number;
    }
  }

  /** Which steps of the run explain how a caller ended. */
  ghost predicate Explains<P>(events: seq<Event<P>>, id: nat, completion: Completion) {
    match completion
    case Responded(index) => Resume(id) in events
    case Disconnected => Resume(id) in events && DrainPending in events
    case TimedOut => TimerFires(id) in events && Withdraw(id) in events
    case WriteFailed => Write(id, false) in events
  }

  /** What must have been a step of the run for the caller to be where it is. */
  ghost predicate Traced<P>(s: State<P>, events: seq<Event<P>>, id: nat) {
    id in s.calls ==>
      && (s.calls[id].phase.Finished? ==> Explains(events, id, s.calls[id].phase.completion))
      && (s.calls[id].phase.TimingOut? ==> TimerFires(id) in events)
      && (s.calls[id].inbox == Some(Closed) ==> DrainPending in events)
  }

  lemma TracedStep<P>(s: State<P>, events: seq<Event<P>>, e: Event<P>, id: nat)
    requires Inv(s) && Enabled(s, e) && Traced(s, events, id)
    ensures Traced(Next(s, e), events + [e], id)
  {
    assert GoodCall(s, id);
    var more := events + [e];
    assert e in more && forall x :: x in events ==> x in more;
  }

  lemma {:induction false} RunIsTraced<P>(s: State<P>, past: seq<Event<P>>, events: seq<Event<P>>, id: nat)
    requires Inv(s) && Traced(s, past, id) && Run(s, events).Some?
    ensures Traced(Run(s, events).value, past + events, id)
    decreases |events|
  {
    if events == [] {
      assert past + events == past;
    } else {
      NextKeepsInv(s, events[0]);
      TracedStep(s, past, events[0], id);
      RunIsTraced(Next(s, events[0]), past + [events[0]], events[1..], id);
      assert past + [events[0]] + events[1..] == past + events;
    }
  }

  /**
   * A finished caller took the response to its own number or the drain's error out of its channel, or
   * its own timer fired and withdrew it, or its own write failed.
   */
  lemma CompletedByItsOwn<P>(events: seq<Event<P>>, id: nat)
    requires Run(Init<P>(), events).Some?
    ensures var s := Run(Init<P>(), events).value;
      id in s.calls && s.calls[id].phase.Finished? ==>
        && Explains(events, id, s.calls[id].phase.completion)
        && match s.calls[id].phase.completion
           case Responded(index) => index < |s.received| && s.received[index].0 == s.calls[id].number
           case Disconnected => s.reader.Drained?
           case TimedOut => s.calls[id].number !in s.pending
           case WriteFailed => s.calls[id].inbox.None? ==> HoldsSlot(s, id)
  {
    InitIsGood<P>();
    RunKeepsInv(Init<P>(), events);
    RunIsTraced(Init<P>(), [], events, id);
    assert [] + events == events;
    var s := Run(Init<P>(), events).value;
    assert GoodCall(s, id);
    if id in s.calls && s.calls[id].number in s.pending {
      assert s.pending[s.calls[id].number] == id;
    }
  }

  /** What a step can do to a caller that is settled: nothing, or finish it with the letter it holds. */
  ghost predicate Settled(c: Call) {
    c.phase.Finished? || (c.phase.Waiting? && c.inbox.Some?)
  }

  ghost predicate Continues(before: Call, after: Call) {
    && after.number == before.number
    && (before.phase.Finished? ==> after.phase == before.phase)
    && (before.inbox.Some? ==> after.inbox == before.inbox)
    && (before.phase.Waiting? && before.inbox.Some? ==>
          after.phase == before.phase || after.phase == Finished(Outcome(before.inbox.value)))
  }

  lemma NextContinues<P>(s: State<P>, e: Event<P>, id: nat)
    requires Inv(s) && Enabled(s, e) && id in s.calls
    ensures id in Next(s, e).calls && Continues(s.calls[id], Next(s, e).calls[id])
  {
    assert GoodCall(s, id);
    if e.Response? && e.number in s.pending { assert GoodCall(s, s.pending[e.number]); }
  }

  /**
   * A caller completes at most once, and a letter is final: from the moment a waiting caller's channel
   * is filled, no timer and no drain can change how the caller ends.
   */
  lemma {:induction false} CompletesAtMostOnce<P>(s: State<P>, events: seq<Event<P>>, id: nat)
    requires Inv(s) && id in s.calls && Settled(s.calls[id])
    requires Run(s, events).Some?
    decreases |events|
    ensures id in Run(s, events).value.calls && Continues(s.calls[id], Run(s, events).value.calls[id])
  {
    if events != [] {
      NextKeepsInv(s, events[0]);
      NextContinues(s, events[0], id);
      CompletesAtMostOnce(Next(s, events[0]), events[1..], id);
    }
  }

  /**
   * Because the slot is registered before the request is written, a response to a written request
   * finds its slot, unless the caller has already been answered, timed out or drained; it is then
   * what the caller completes with, in every continuation in which the caller completes.
   */
  lemma ResponseFindsItsCaller<P>(before: seq<Event<P>>, id: nat, payload: P, after: seq<Event<P>>)
    requires Run(Init<P>(), before).Some?
    requires var s := Run(Init<P>(), before).value;
      && InPhase(s, id, Waiting) && s.calls[id].inbox.None? && s.reader.Running?
      && Run(Next(s, Response(s.calls[id].number, payload)), after).Some?
    ensures var s := Run(Init<P>(), before).value;
      var end := Run(Next(s, Response(s.calls[id].number, payload)), after).value;
      && id in end.calls
      && end.calls[id].inbox == Some(Answer(|s.received|))
      && |s.received| < |end.received| && end.received[|s.received|] == (s.calls[id].number, payload)
      && (end.calls[id].phase.Waiting? || end.calls[id].phase == Finished(Responded(|s.received|)))
  {
    InitIsGood<P>();
    RunKeepsInv(Init<P>(), before);
    var s := Run(Init<P>(), before).value;
    var e := Response(s.calls[id].number, payload);
    assert GoodCall(s, id);
    NextKeepsInv(s, e);
    CompletesAtMostOnce(Next(s, e), after, id);
    ReceivedGrows(Next(s, e), after);
  }

  lemma {:induction false} ReceivedGrows<P>(s: State<P>, events: seq<Event<P>>)
    requires Run(s, events).Some?
    ensures s.received <= Run(s, events).value.received
    decreases |events|
  {
    if events != [] { ReceivedGrows(Next(s, events[0]), events[1..]); }
  }

  /** A response that finds no slot changes no caller: late replies are discarded. */
  lemma LateResponseIsDiscarded<P>(s: State<P>, number: int, payload: P)
    requires Inv(s) && s.reader.Running?
    requires forall id :: id in s.calls && s.calls[id].number == number ==> !Open(s.calls[id])
    ensures Next(s, Response(number, payload)).calls == s.calls
    ensures Next(s, Response(number, payload)).pending == s.pending
  {
    forall n | n in s.pending ensures Open(s.calls[s.pending[n]]) {
      assert GoodCall(s, s.pending[n]);
    }
  }

  // ---------------------------------------------------------------------
  // The end of the stream.

  lemma {:induction false} RunAppend<P>(s: State<P>, first: seq<Event<P>>, second: seq<Event<P>>)
    ensures Run(s, first + second)
         == match Run(s, first) case Some(t) => Run(t, second) case None => None
    decreases |first|
  {
    if first == [] {
      assert first + second == second;
    } else {
      assert (first + second)[1..] == first[1..] + second;
      if Enabled(s, first[0]) { RunAppend(Next(s, first[0]), first[1..], second); }
    }
  }

  lemma RunOne<P>(s: State<P>, e: Event<P>)
    ensures Run(s, [e]) == if Enabled(s, e) then Some(Next(s, e)) else None
  {
  }

  /** After any run a new request can begin and any other message can be sent. */
  lemma MessagesCanBeSent<P>(events: seq<Event<P>>, id: nat)
    requires Run(Init<P>(), events).Some? && id !in Run(Init<P>(), events).value.calls
    ensures Run(Init<P>(), events + [Begin(id)]).Some? && Run(Init<P>(), events + [OtherMessage]).Some?
  {
    RunAppend(Init<P>(), events, [Begin(id)]);
    RunAppend(Init<P>(), events, [OtherMessage]);
    RunOne(Run(Init<P>(), events).value, Begin(id));
    RunOne(Run(Init<P>(), events).value, OtherMessage);
  }

  /** After any run the stream can end, and then the pending requests can be drained. */
  lemma StreamCanEnd<P>(events: seq<Event<P>>)
    requires Run(Init<P>(), events).Some? && Run(Init<P>(), events).value.reader.Running?
    ensures Run(Init<P>(), events + [EndOfStream, DrainPending]).Some?
  {
    var s := Run(Init<P>(), events).value;
    RunAppend(Init<P>(), events, [EndOfStream, DrainPending]);
    var last: seq<Event<P>> := [EndOfStream, DrainPending];
    assert last[1..] == [DrainPending];
    RunOne(Next(s, EndOfStream), DrainPending);
  }

  /**
   * A run that ends with the drain leaves no slot behind. Every caller that held one finds the drain's
   * error in its channel, and nothing else changes for any caller.
   */
  lemma DrainReachesEveryone<P>(events: seq<Event<P>>)
    requires Run(Init<P>(), events + [DrainPending]).Some?
    ensures Run(Init<P>(), events).Some?
    ensures var s := Run(Init<P>(), events).value;
      var end := Run(Init<P>(), events + [DrainPending]).value;
      && end.pending == map[] && end.reader.Drained? && end.calls.Keys == s.calls.Keys
      && forall id :: id in s.calls ==>
           && end.calls[id].number == s.calls[id].number && end.calls[id].phase == s.calls[id].phase
           && end.calls[id].inbox == if HoldsSlot(s, id) then Some(Closed) else s.calls[id].inbox
  {
    RunAppend(Init<P>(), events, [DrainPending]);
    RunOne(Run(Init<P>(), events).value, DrainPending);
  }

  /** Whoever still waits for an answer then can take the error at once, and ends in no other way. */
  lemma DrainedCallerDisconnects<P>(events: seq<Event<P>>, id: nat, after: seq<Event<P>>)
    requires Run(Init<P>(), events + [DrainPending] + after).Some?
    requires Run(Init<P>(), events).Some? && HoldsSlot(Run(Init<P>(), events).value, id)
    requires Run(Init<P>(), events).value.calls[id].phase.Waiting?
    ensures Run(Init<P>(), events + [DrainPending, Resume(id)]).Some?
    ensures var end := Run(Init<P>(), events + [DrainPending] + after).value;
      id in end.calls && (end.calls[id].phase.Waiting? || end.calls[id].phase == Finished(Disconnected))
  {
    RunAppend(Init<P>(), events + [DrainPending], after);
    RunAppend(Init<P>(), events + [DrainPending], [Resume(id)]);
    assert events + [DrainPending] + [Resume(id)] == events + [DrainPending, Resume(id)];
    DrainReachesEveryone(events);
    var drained := Run(Init<P>(), events + [DrainPending]).value;
    RunOne(drained, Resume(id));
    InitIsGood<P>();
    RunKeepsInv(Init<P>(), events + [DrainPending]);
    CompletesAtMostOnce(drained, after, id);
  }

  /** A caller that registers after the drain, or is not there yet. */
  ghost predicate Missed<P>(s: State<P>, id: nat) {
    && s.reader.Drained?
    && (id in s.calls ==>
          && s.calls[id].inbox.None?
          && (s.calls[id].phase.Finished? ==> s.calls[id].phase.completion in {TimedOut, WriteFailed}))
  }

  lemma {:induction false} StaysMissed<P>(s: State<P>, events: seq<Event<P>>, id: nat)
    requires Missed(s, id) && Run(s, events).Some?
    ensures Missed(Run(s, events).value, id)
    decreases |events|
  {
    if events != [] { StaysMissed(Next(s, events[0]), events[1..], id); }
  }

  /** The drain misses the callers without a slot: one that registers later is never told, and can only time out or fail to write. */
  lemma LateRequestOnlyTimesOut<P>(events: seq<Event<P>>, id: nat, after: seq<Event<P>>)
    requires Run(Init<P>(), events + [DrainPending] + after).Some?
    requires Run(Init<P>(), events).Some? &&
      var s := Run(Init<P>(), events).value;
      id !in s.calls || s.calls[id].phase.Numbered?
    ensures var end := Run(Init<P>(), events + [DrainPending] + after).value;
      id in end.calls ==>
        && end.calls[id].inbox.None?
        && (end.calls[id].phase.Finished? ==> end.calls[id].phase.completion in {TimedOut, WriteFailed})
  {
    RunAppend(Init<P>(), events + [DrainPending], after);
    DrainReachesEveryone(events);
    InitIsGood<P>();
    RunKeepsInv(Init<P>(), events);
    assert GoodCall(Run(Init<P>(), events).value, id);
    StaysMissed(Run(Init<P>(), events + [DrainPending]).value, after, id);
  }

  /** Such a run exists: the request is written to an adapter that is gone, and waits. */
  lemma RequestMissesDrain()
    ensures var run := Run(Init<int>(), [Begin(0), EndOfStream, DrainPending, Register(0), Write(0, true)]);
      run.Some? && InPhase(run.value, 0, Waiting) && run.value.calls[0].inbox.None?
  {
    var run := [Begin(0), EndOfStream, DrainPending, Register(0), Write(0, true)];
    var s: State<int> := Init();
    assert Run(s, run) == Run(Next(s, Begin(0)), run[1..]);
    assert run[1..][1..] == run[2..] && run[2..][1..] == run[3..] && run[3..][1..] == run[4..] && run[4..][1..] == [];
  }

  // ---------------------------------------------------------------------
  // No caller hangs.

  /** The steps with which a caller can finish alone. */
  function OwnSteps<P>(call: Call, id: nat): seq<Event<P>> {
    match call.phase
    case Numbered => [Register(id), Write(id, true), TimerFires(id), Withdraw(id)]
    case Registered => [Write(id, true)] + if call.inbox.Some? then [Resume(id)] else [TimerFires(id), Withdraw(id)]
    case Waiting => if call.inbox.Some? then [Resume(id)] else [TimerFires(id), Withdraw(id)]
    case TimingOut => [Withdraw(id)]
    case Finished(_) => []
  }

  /** Whatever happened before, a caller can finish by its own steps. */
  lemma NobodyHangs<P>(events: seq<Event<P>>, id: nat)
    requires Run(Init<P>(), events).Some? && id in Run(Init<P>(), events).value.calls
    ensures var steps := OwnSteps(Run(Init<P>(), events).value.calls[id], id);
      var run := Run(Init<P>(), events + steps);
      |steps| <= 4 && run.Some? && id in run.value.calls && run.value.calls[id].phase.Finished?
  {
    InitIsGood<P>();
    RunKeepsInv(Init<P>(), events);
    var s := Run(Init<P>(), events).value;
    assert GoodCall(s, id);
    RunAppend(Init<P>(), events, OwnSteps(s.calls[id], id));
    OwnStepsFinish(s, id);
  }

  lemma {:induction false} OwnStepsFinish<P>(s: State<P>, id: nat)
    requires id in s.calls && (s.calls[id].phase.Numbered? ==> s.calls[id].inbox.None?)
    ensures var run := Run(s, OwnSteps(s.calls[id], id));
      run.Some? && id in run.value.calls && run.value.calls[id].phase.Finished?
    decreases |OwnSteps<P>(s.calls[id], id)|
  {
    var steps := OwnSteps<P>(s.calls[id], id);
    if steps != [] {
      var next := Next(s, steps[0]);
      assert steps[1..] == OwnSteps(next.calls[id], id);
      OwnStepsFinish(next, id);
    }
  }
}
