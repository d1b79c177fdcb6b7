// Pending requests: waiters, timeouts and response handlers, interleaved.
//
// Each lock acquisition on the shared map is one atomic step, so every
// interleaving of callers and workers is a sequence of steps.
module RequestMaps {
  type RequestId = nat
  type HandlerId = nat

  datatype Response = Response(id: RequestId, body: nat)

  // How send_request_and_wait ends.
  datatype Outcome = Resolved(response: Response) | UnableToSend | ResponseTimeout | BadResponse

  // Where a call of send_request_and_wait stands. In SendFailed and TimedOut it
  // still has to remove its entry; from TimedOut on its receiver is gone.
  datatype Waiter = Registered | SendFailed | Waiting | TimedOut | Done(outcome: Outcome)

  // The sending half of the channel of one request.
  datatype Sender = Sender(owner: RequestId)

  // Where a call of handle_response stands.
  datatype Handler =
    Arrived(response: Response) | Checked(response: Response) | Holding(response: Response, sender: Sender) | Finished

  datatype State = State(
    pending: map<RequestId, Sender>,
    waiters: map<RequestId, Waiter>,
    handlers: map<HandlerId, Handler>,
    slots: map<RequestId, Response>)

  const INIT: State := State(map[], map[], map[], map[])

  datatype Step =
    | Add(id: RequestId)
    | SendOk(id: RequestId)
    | SendFail(id: RequestId)
    | RemoveUnsent(id: RequestId)
    | Arrive(h: HandlerId, response: Response)
    | Contains(h: HandlerId)
    | Take(h: HandlerId)
    | Send(h: HandlerId)
    | Receive(id: RequestId)
    | SenderDropped(id: RequestId)
    | Timeout(id: RequestId)
    | RemoveTimedOut(id: RequestId)

  predicate WaiterIs(s: State, id: RequestId, w: Waiter) {
    id in s.waiters && s.waiters[id] == w
  }

  // Some handler has taken the sender of this request and not used it yet.
  ghost predicate Held(s: State, id: RequestId) {
    exists h | h in s.handlers :: s.handlers[h].Holding? && s.handlers[h].sender.owner == id
  }

  // When a step can be taken. Request ids are fresh, handlers get fresh numbers.
  ghost predicate Enabled(s: State, step: Step) {
    match step
    case Add(id) => id !in s.waiters
    case SendOk(id) => WaiterIs(s, id, Registered)
    case SendFail(id) => WaiterIs(s, id, Registered)
    case RemoveUnsent(id) => WaiterIs(s, id, SendFailed)
    case Arrive(h, _) => h !in s.handlers
    case Contains(h) => h in s.handlers && s.handlers[h].Arrived?
    case Take(h) => h in s.handlers && s.handlers[h].Checked?
    case Send(h) => h in s.handlers && s.handlers[h].Holding?
    case Receive(id) => WaiterIs(s, id, Waiting) && id in s.slots
    case SenderDropped(id) => WaiterIs(s, id, Waiting) && id !in s.slots && id !in s.pending && !Held(s, id)
    case Timeout(id) => WaiterIs(s, id, Waiting) && id !in s.slots
    case RemoveTimedOut(id) => WaiterIs(s, id, TimedOut)
  }

  predicate ReceiverOpen(s: State, id: RequestId) {
    id in s.waiters && (s.waiters[id].Registered? || s.waiters[id].SendFailed? || s.waiters[id].Waiting?)
  }

  // What the step does.
  ghost function Apply(s: State, step: Step): State
    requires Enabled(s, step)
  {
    match step
    case Add(id) => s.(pending := s.pending[id := Sender(id)], waiters := s.waiters[id := Registered])
    case SendOk(id) => s.(waiters := s.waiters[id := Waiting])
    case SendFail(id) => s.(waiters := s.waiters[id := SendFailed])
    case RemoveUnsent(id) => s.(pending := s.pending - {id}, waiters := s.waiters[id := Done(UnableToSend)])
    case Arrive(h, response) => s.(handlers := s.handlers[h := Arrived(response)])
    case Contains(h) =>
      var r := s.handlers[h].response;
      s.(handlers := s.handlers[h := if r.id in s.pending then Checked(r) else Finished])
    case Take(h) =>
      var r := s.handlers[h].response;
      if r.id in s.pending then
        s.(pending := s.pending - {r.id}, handlers := s.handlers[h := Holding(r, s.pending[r.id])])
      else s.(handlers := s.handlers[h := Finished])
    case Send(h) =>
      var owner := s.handlers[h].sender.owner;
      var t := s.(handlers := s.handlers[h := Finished]);
      if ReceiverOpen(s, owner) then t.(slots := s.slots[owner := s.handlers[h].response]) else t
    case Receive(id) => s.(waiters := s.waiters[id := Done(Resolved(s.slots[id]))])
    case SenderDropped(id) => s.(waiters := s.waiters[id := Done(BadResponse)])
    case Timeout(id) => s.(waiters := s.waiters[id := TimedOut])
    case RemoveTimedOut(id) => s.(pending := s.pending - {id}, waiters := s.waiters[id := Done(ResponseTimeout)])
  }

  // ----- what every step keeps -----

  // The map holds senders of unfinished waiters, under their own ids.
  ghost predicate PendingOk(s: State) {
    forall id | id in s.pending ::
      s.pending[id].owner == id && id in s.waiters && !s.waiters[id].Done? && id !in s.slots
  }

  // A taken sender answers a response with its id, and left the map.
  ghost predicate HoldingOk(s: State, h: HandlerId)
    requires h in s.handlers && s.handlers[h].Holding?
  {
    var id := s.handlers[h].sender.owner;
    id == s.handlers[h].response.id && id in s.waiters && id !in s.pending && id !in s.slots
  }

  ghost predicate HandlersOk(s: State) {
    && (forall h | h in s.handlers && s.handlers[h].Holding? :: HoldingOk(s, h))
    && (forall g, h | g in s.handlers && h in s.handlers && s.handlers[g].Holding? && s.handlers[h].Holding? &&
                      s.handlers[g].sender == s.handlers[h].sender :: g == h)
  }

  ghost predicate SlotsOk(s: State) {
    forall id | id in s.slots :: s.slots[id].id == id && id in s.waiters
  }

  // An open request still has its sender somewhere, or its answer.
  ghost predicate WaitersOk(s: State) {
    forall id | id in s.waiters ::
      && ((s.waiters[id].Registered? || s.waiters[id].Waiting?) ==> id in s.pending || Held(s, id) || id in s.slots)
      && (s.waiters[id].Done? ==>
            s.waiters[id].outcome != BadResponse &&
            (s.waiters[id].outcome.Resolved? ==> id in s.slots && s.slots[id] == s.waiters[id].outcome.response))
  }

  ghost predicate Inv(s: State) {
    PendingOk(s) && HandlersOk(s) && SlotsOk(s) && WaitersOk(s)
  }

  lemma StepKeepsInv(s: State, step: Step)
    requires Inv(s) && Enabled(s, step)
    ensures Inv(Apply(s, step))
  {
    var t := Apply(s, step);
    KeepsPending(s, step);
    KeepsHandlers(s, step);
    KeepsWaiters(s, step);
  }

  lemma KeepsPending(s: State, step: Step)
    requires Inv(s) && Enabled(s, step)
    ensures PendingOk(Apply(s, step)) && SlotsOk(Apply(s, step))
  {
  }

  lemma KeepsHandlers(s: State, step: Step)
    requires Inv(s) && Enabled(s, step)
    ensures HandlersOk(Apply(s, step))
  {
  }

  lemma KeepsWaiters(s: State, step: Step)
    requires Inv(s) && Enabled(s, step)
    ensures WaitersOk(Apply(s, step))
  {
    var t := Apply(s, step);
    forall id | id in t.waiters && (t.waiters[id].Registered? || t.waiters[id].Waiting?)
      ensures id in t.pending || Held(t, id) || id in t.slots
    {
      StillHeld(s, step, id);
    }
  }

  // A sender that is in hand stays there or delivers.
  lemma StillHeld(s: State, step: Step, id: RequestId)
    requires Inv(s) && Enabled(s, step)
    requires var t := Apply(s, step); id in t.waiters && (t.waiters[id].Registered? || t.waiters[id].Waiting?)
    ensures var t := Apply(s, step); id in t.pending || Held(t, id) || id in t.slots
  {
    if Held(s, id) {
      HeldStays(s, step, id);
    } else if step.Take? && id in s.pending {
      TakenIsHeld(s, step.h, id);
    }
  }

  lemma HeldStays(s: State, step: Step, id: RequestId)
    requires Inv(s) && Enabled(s, step) && Held(s, id)
    requires var t := Apply(s, step); id in t.waiters && (t.waiters[id].Registered? || t.waiters[id].Waiting?)
    ensures var t := Apply(s, step); Held(t, id) || id in t.slots
  {
    var t := Apply(s, step);
    var h :| h in s.handlers && s.handlers[h].Holding? && s.handlers[h].sender.owner == id;
    assert h in t.handlers;
    assert step != Send(h) ==> t.handlers[h] == s.handlers[h];
  }

  lemma TakenIsHeld(s: State, h: HandlerId, id: RequestId)
    requires Inv(s) && Enabled(s, Take(h)) && id in s.pending
    ensures var t := Apply(s, Take(h)); id in t.pending || Held(t, id)
  {
    var t := Apply(s, Take(h));
    assert h in t.handlers;
  }

  // ----- whole runs -----

  // The state after any sequence of steps; a step that cannot be taken is skipped.
  ghost function After(steps: seq<Step>): State {
    if steps == [] then INIT
    else
      var s, step := After(steps[..|steps| - 1]), steps[|steps| - 1];
      if Enabled(s, step) then Apply(s, step) else s
  }

  lemma {:induction false} RunKeepsInv(steps: seq<Step>)
    ensures Inv(After(steps))
  {
    if steps != [] {
      var s, step := After(steps[..|steps| - 1]), steps[|steps| - 1];
      RunKeepsInv(steps[..|steps| - 1]);
      if Enabled(s, step) {
        StepKeepsInv(s, step);
      }
    }
  }

  // In every run: no request ends in BadResponse, because no sender of an open
  // request is ever lost; a resolved request got a response with its own id;
  // and the map holds entries of known, unfinished requests only, under their id.
  lemma RunIsSafe(steps: seq<Step>, id: RequestId)
    ensures var s := After(steps);
            && !Enabled(s, SenderDropped(id))
            && (id in s.waiters && s.waiters[id].Done? ==> s.waiters[id].outcome != BadResponse && id !in s.pending)
            && (id in s.waiters && s.waiters[id].Done? && s.waiters[id].outcome.Resolved? ==>
                  s.waiters[id].outcome.response.id == id)
            && (id in s.pending ==> id in s.waiters && !s.waiters[id].Done? && s.pending[id].owner == id)
  {
    RunKeepsInv(steps);
  }

  // A finished request stays as it ended, and an answer once delivered is
  // never replaced: each request is resolved at most once.
  lemma {:induction false} ResolvedOnce(steps: seq<Step>, more: seq<Step>, id: RequestId)
    ensures var s, t := After(steps), After(steps + more);
            && (id in s.waiters && s.waiters[id].Done? ==> id in t.waiters && t.waiters[id] == s.waiters[id])
            && (id in s.slots ==> id in t.slots && t.slots[id] == s.slots[id])
    decreases |more|
  {
    if more == [] {
      assert steps + more == steps;
    } else {
      var all, front := steps + more, more[..|more| - 1];
      assert all[..|all| - 1] == steps + front;
      ResolvedOnce(steps, front, id);
      RunKeepsInv(steps + front);
      FinalStates(After(steps + front), all[|all| - 1], id);
    }
  }

  lemma FinalStates(s: State, step: Step, id: RequestId)
    requires Inv(s)
    ensures Enabled(s, step) ==>
              var t := Apply(s, step);
              && (id in s.waiters && s.waiters[id].Done? ==> id in t.waiters && t.waiters[id] == s.waiters[id])
              && (id in s.slots ==> id in t.slots && t.slots[id] == s.slots[id])
  {
  }

  ghost predicate HasArrived(steps: seq<Step>, r: Response) {
    exists i | 0 <= i < |steps| :: steps[i].Arrive? && steps[i].response == r
  }

  // Everything in hand or delivered came in from outside.
  ghost predicate FromOutside(s: State, steps: seq<Step>) {
    && (forall h | h in s.handlers && !s.handlers[h].Finished? :: HasArrived(steps, s.handlers[h].response))
    && (forall id | id in s.slots :: HasArrived(steps, s.slots[id]))
  }

  lemma ArrivedLater(steps: seq<Step>, step: Step, r: Response)
    requires HasArrived(steps, r) || (step.Arrive? && step.response == r)
    ensures HasArrived(steps + [step], r)
  {
    var all := steps + [step];
    if HasArrived(steps, r) {
      var i :| 0 <= i < |steps| && steps[i].Arrive? && steps[i].response == r;
      assert all[i] == steps[i];
    } else {
      assert all[|steps|] == step;
    }
  }

  lemma StepFromOutside(s: State, steps: seq<Step>, step: Step)
    requires FromOutside(s, steps)
    ensures FromOutside(s, steps + [step])
    ensures Enabled(s, step) ==> FromOutside(Apply(s, step), steps + [step])
  {
    forall r | HasArrived(steps, r) || (step.Arrive? && step.response == r)
      ensures HasArrived(steps + [step], r)
    {
      ArrivedLater(steps, step, r);
    }
  }

  lemma {:induction false} RunFromOutside(steps: seq<Step>)
    ensures FromOutside(After(steps), steps)
  {
    if steps != [] {
      var p, last := steps[..|steps| - 1], steps[|steps| - 1];
      RunFromOutside(p);
      StepFromOutside(After(p), p, last);
      assert steps == p + [last];
    }
  }

  // A request is resolved only by a response that arrived.
  lemma ResolvedByArrival(steps: seq<Step>, id: RequestId)
    requires var s := After(steps); id in s.waiters && s.waiters[id].Done? && s.waiters[id].outcome.Resolved?
    ensures HasArrived(steps, After(steps).waiters[id].outcome.response)
  {
    RunKeepsInv(steps);
    RunFromOutside(steps);
  }

  // ----- how requests and handlers end -----

  // How a request ends is fixed by where it stood: failed sends and timeouts
  // are reported as such, and an answer is the one that was delivered.
  lemma OutcomeFits(s: State, step: Step, id: RequestId)
    requires Inv(s) && Enabled(s, step) && id in s.waiters && !s.waiters[id].Done?
    ensures var w, t := s.waiters[id], Apply(s, step).waiters;
            && id in t
            && (t[id].Done? ==>
                  && id !in Apply(s, step).pending
                  && (t[id].outcome.UnableToSend? <==> w.SendFailed?)
                  && (t[id].outcome.ResponseTimeout? <==> w.TimedOut?)
                  && (t[id].outcome.Resolved? <==> w.Waiting?)
                  && (w.Waiting? ==> id in s.slots && t[id].outcome == Resolved(s.slots[id])))
  {
  }

  // A handler discards its response only if the request is not pending, or its
  // receiver is closed; in every other case the response is delivered.
  lemma HandlerEnds(s: State, step: Step, h: HandlerId)
    requires Inv(s) && Enabled(s, step) && h in s.handlers && !s.handlers[h].Finished?
    requires h in Apply(s, step).handlers && Apply(s, step).handlers[h].Finished?
    ensures var r, t := s.handlers[h].response, Apply(s, step);
            || (r.id in t.slots && t.slots[r.id] == r)
            || (!s.handlers[h].Holding? && r.id !in s.pending)
            || (s.handlers[h].Holding? && !ReceiverOpen(s, r.id))
  {
  }

  // A request whose sending fails ends so, and leaves the map.
  lemma UnsentEnds(s: State, id: RequestId)
    requires WaiterIs(s, id, Registered)
    ensures Enabled(s, SendFail(id)) && Enabled(Apply(s, SendFail(id)), RemoveUnsent(id))
    ensures var t := Apply(Apply(s, SendFail(id)), RemoveUnsent(id));
            WaiterIs(t, id, Done(UnableToSend)) && id !in t.pending
  {
  }

  // A waiting request without an answer can time out, ends so, and leaves the map.
  lemma TimeoutEnds(s: State, id: RequestId)
    requires WaiterIs(s, id, Waiting) && id !in s.slots
    ensures Enabled(s, Timeout(id)) && Enabled(Apply(s, Timeout(id)), RemoveTimedOut(id))
    ensures var t := Apply(Apply(s, Timeout(id)), RemoveTimedOut(id));
            WaiterIs(t, id, Done(ResponseTimeout)) && id !in t.pending
  {
  }

  // ----- delivery -----

  // From a state on; steps that cannot be taken are skipped.
  ghost function From(s: State, steps: seq<Step>): State
    decreases |steps|
  {
    if steps == [] then s else From(Next(s, steps[0]), steps[1..])
  }

  ghost function Next(s: State, step: Step): State {
    if Enabled(s, step) then Apply(s, step) else s
  }

  lemma {:induction false} AfterIsFrom(before: seq<Step>, more: seq<Step>)
    ensures After(before + more) == From(After(before), more)
    decreases |more|
  {
    if more == [] {
      assert before + more == before;
    } else {
      var longer := before + [more[0]];
      assert longer[..|longer| - 1] == before;
      assert before + more == longer + more[1..];
      AfterIsFrom(longer, more[1..]);
    }
  }

  // The steps that answer a request, in their order.
  function OwnStep(k: nat, id: RequestId, h: HandlerId, r: Response): Step {
    if k == 0 then Arrive(h, r) else if k == 1 then Contains(h) else if k == 2 then Take(h)
    else if k == 3 then Send(h) else Receive(id)
  }

  // How far the answer has come after k of them.
  ghost predicate Stage(s: State, k: nat, id: RequestId, h: HandlerId, r: Response) {
    if k == 5 then WaiterIs(s, id, Done(Resolved(r)))
    else
      && WaiterIs(s, id, Waiting)
      && (k <= 2 <==> id in s.pending)
      && (k == 0 ==> h !in s.handlers)
      && (1 <= k <= 3 ==> h in s.handlers && id !in s.slots)
      && (k == 1 ==> s.handlers[h] == Arrived(r))
      && (k == 2 ==> s.handlers[h] == Checked(r))
      && (k == 3 ==> s.handlers[h] == Holding(r, Sender(id)))
      && (k == 4 ==> id in s.slots && s.slots[id] == r)
  }

  // A step of somebody else that does not get in the way: it neither times the
  // request out nor takes its sender, and is not one of the steps above.
  ghost predicate Elsewhere(s: State, step: Step, id: RequestId, h: HandlerId) {
    && step != Timeout(id) && step != Receive(id)
    && !(step.Arrive? && step.h == h) && step != Contains(h) && step != Take(h) && step != Send(h)
    && !(step.Take? && step.h in s.handlers && s.handlers[step.h].Checked? && s.handlers[step.h].response.id == id &&
         id in s.pending)
  }

  // The steps from the k-th on come in their order, anything else in between.
  ghost predicate Interleaved(s: State, steps: seq<Step>, k: nat, id: RequestId, h: HandlerId, r: Response)
    decreases |steps|
  {
    if steps == [] then k == 5
    else if k < 5 && steps[0] == OwnStep(k, id, h, r) then
      Interleaved(Next(s, steps[0]), steps[1..], k + 1, id, h, r)
    else (k == 5 || Elsewhere(s, steps[0], id, h)) && Interleaved(Next(s, steps[0]), steps[1..], k, id, h, r)
  }

  // Each of them can be taken when its turn comes.
  ghost predicate NoneBlocked(s: State, steps: seq<Step>, k: nat, id: RequestId, h: HandlerId, r: Response)
    decreases |steps|
  {
    if steps == [] then true
    else if k < 5 && steps[0] == OwnStep(k, id, h, r) then
      Enabled(s, steps[0]) && NoneBlocked(Next(s, steps[0]), steps[1..], k + 1, id, h, r)
    else NoneBlocked(Next(s, steps[0]), steps[1..], k, id, h, r)
  }

  lemma OwnStepAdvances(s: State, k: nat, id: RequestId, h: HandlerId, r: Response)
    requires Inv(s) && k < 5 && Stage(s, k, id, h, r) && r.id == id
    ensures var step := OwnStep(k, id, h, r);
            Enabled(s, step) && Stage(Apply(s, step), k + 1, id, h, r)
  {
  }

  lemma ElsewhereKeepsStage(s: State, step: Step, k: nat, id: RequestId, h: HandlerId, r: Response)
    requires Inv(s) && k <= 5 && Stage(s, k, id, h, r) && r.id == id
    requires k == 5 || Elsewhere(s, step, id, h)
    ensures Stage(Next(s, step), k, id, h, r)
  {
    if k == 5 {
      FinalStates(s, step, id);
    } else if Enabled(s, step) {
      WaiterUntouched(s, step, k, id, h, r);
      SlotUntouched(s, step, k, id, h, r);
      HandlerUntouched(s, step, id, h);
    }
  }

  lemma WaiterUntouched(s: State, step: Step, k: nat, id: RequestId, h: HandlerId, r: Response)
    requires Inv(s) && k < 5 && Stage(s, k, id, h, r)
    requires Enabled(s, step) && Elsewhere(s, step, id, h)
    ensures var t := Apply(s, step);
            id in t.waiters && t.waiters[id] == Waiting && (id in t.pending <==> id in s.pending)
  {
  }

  // Only a handler in hand of the request's own sender could fill its slot.
  lemma SlotUntouched(s: State, step: Step, k: nat, id: RequestId, h: HandlerId, r: Response)
    requires Inv(s) && k < 5 && Stage(s, k, id, h, r) && r.id == id
    requires Enabled(s, step) && Elsewhere(s, step, id, h)
    ensures var t := Apply(s, step).slots;
            (id in t <==> id in s.slots) && (id in t ==> t[id] == s.slots[id])
  {
  }

  lemma HandlerUntouched(s: State, step: Step, id: RequestId, h: HandlerId)
    requires Enabled(s, step) && Elsewhere(s, step, id, h)
    ensures var t := Apply(s, step).handlers;
            (h in t <==> h in s.handlers) && (h in t ==> t[h] == s.handlers[h])
  {
  }

  // A response that arrives for a waiting request is delivered, however the
  // steps of its handler interleave with everything else.
  lemma {:induction false} Delivered(s: State, steps: seq<Step>, k: nat, id: RequestId, h: HandlerId, r: Response)
    requires Inv(s) && k <= 5 && Stage(s, k, id, h, r) && r.id == id && Interleaved(s, steps, k, id, h, r)
    ensures NoneBlocked(s, steps, k, id, h, r)
    ensures WaiterIs(From(s, steps), id, Done(Resolved(r)))
    decreases |steps|
  {
    if steps != [] {
      var step := steps[0];
      if Enabled(s, step) {
        StepKeepsInv(s, step);
      }
      if k < 5 && step == OwnStep(k, id, h, r) {
        OwnStepAdvances(s, k, id, h, r);
        Delivered(Next(s, step), steps[1..], k + 1, id, h, r);
      } else {
        ElsewhereKeepsStage(s, step, k, id, h, r);
        Delivered(Next(s, step), steps[1..], k, id, h, r);
      }
    }
  }

  // In whole runs: a request that waits is answered by the response with its id
  // that arrives next.
  lemma RequestIsAnswered(before: seq<Step>, steps: seq<Step>, id: RequestId, h: HandlerId, r: Response)
    requires WaiterIs(After(before), id, Waiting) && id in After(before).pending && h !in After(before).handlers
    requires r.id == id && Interleaved(After(before), steps, 0, id, h, r)
    ensures NoneBlocked(After(before), steps, 0, id, h, r)
    ensures WaiterIs(After(before + steps), id, Done(Resolved(r)))
  {
    RunKeepsInv(before);
    Delivered(After(before), steps, 0, id, h, r);
    AfterIsFrom(before, steps);
  }

  // The plain case, from an empty map.
  lemma OneRequestAnswered(id: RequestId, h: HandlerId, r: Response)
    requires r.id == id
    ensures WaiterIs(After([Add(id), SendOk(id), Arrive(h, r), Contains(h), Take(h), Send(h), Receive(id)]), id,
                     Done(Resolved(r)))
  {
    var before, steps := [Add(id), SendOk(id)], [Arrive(h, r), Contains(h), Take(h), Send(h), Receive(id)];
    WaitsAfterSend(id);
    InOrder(After(before), id, h, r);
    RequestIsAnswered(before, steps, id, h, r);
    assert before + steps == [Add(id), SendOk(id), Arrive(h, r), Contains(h), Take(h), Send(h), Receive(id)];
  }

  lemma WaitsAfterSend(id: RequestId)
    ensures var s := After([Add(id), SendOk(id)]);
            WaiterIs(s, id, Waiting) && id in s.pending && s.handlers == map[]
  {
    assert [Add(id)][..0] == [];
    assert After([Add(id)]) == Apply(INIT, Add(id));
    assert [Add(id), SendOk(id)][..1] == [Add(id)];
  }

  lemma InOrder(s: State, id: RequestId, h: HandlerId, r: Response)
    ensures Interleaved(s, [Arrive(h, r), Contains(h), Take(h), Send(h), Receive(id)], 0, id, h, r)
  {
    var all := [Arrive(h, r), Contains(h), Take(h), Send(h), Receive(id)];
    var s1 := Next(s, Arrive(h, r));
    var s2 := Next(s1, Contains(h));
    var s3 := Next(s2, Take(h));
    var s4 := Next(s3, Send(h));
    assert all[1..][1..] == all[2..] && all[2..][1..] == all[3..] && all[3..][1..] == all[4..] && all[4..][1..] == [];
    assert Interleaved(Next(s4, Receive(id)), [], 5, id, h, r);
    assert Interleaved(s4, all[4..], 4, id, h, r);
    assert Interleaved(s3, all[3..], 3, id, h, r);
    assert Interleaved(s2, all[2..], 2, id, h, r);
    assert Interleaved(s1, all[1..], 1, id, h, r);
  }
}
