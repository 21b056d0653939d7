/** A oneshot channel used by any number of sends, receives and non-blocking receives at once. */
module Oneshot {
  import opened Wrappers

  type Value = nat

  datatype SendResult = Sent | SenderUsed | ReceiverGone

  /** `NoEndpoint` is what a call finds when the receiving endpoint was taken before: `recv` reports
      it as already used and `try-recv` as closed. */
  datatype Result = Got(value: Value) | Empty | SenderGone | NoEndpoint | RecvCancelled

  /** Where a `recv` or `try-recv` call stands.  `Racing` holds the lock and the endpoint. */
  datatype Call = Idle | Queued | Racing | Returned(result: Result) | Dropped(racing: bool)

  /** `sender` and `receiver` tell whether the two cells still hold their endpoints, `slot` is the
      value in flight, `sends` the calls to `send` so far with what they reported. */
  datatype State = State(
    sender: bool,
    slot: Option<Value>,
    receiver: bool,
    receiverDropped: bool,
    owner: Option<nat>,
    calls: seq<Call>,
    cancelled: set<nat>,
    sends: seq<(Value, SendResult)>)

  /** `TryRecv` carries whether another thread holds the lock at that moment. */
  datatype Event =
    | Send(v: Value)
    | DropSender
    | DropReceiver
    | Cancel(i: nat)
    | RecvStart(i: nat)
    | RecvLock(i: nat)
    | RecvValue(i: nat)
    | RecvClosed(i: nat)
    | RecvCancel(i: nat)
    | DropCall(i: nat)
    | TryRecv(i: nat, contended: bool)

  function Init(n: nat): State {
    State(true, None, true, false, None, seq(n, _ => Idle), {}, [])
  }

  /** The receiving endpoint exists, in its cell or in the hands of a `recv`. */
  predicate EndpointAlive(s: State) { s.receiver || s.owner.Some? }

  predicate Enabled(s: State, e: Event) {
    match e
    case Send(_) => true
    case DropSender => s.sender
    case DropReceiver => s.owner.None? && s.receiver
    case Cancel(_) => true
    case RecvStart(i) => i < |s.calls| && s.calls[i].Idle?
    case RecvLock(i) => i < |s.calls| && s.calls[i].Queued? && s.owner.None?
    case RecvValue(i) => i < |s.calls| && s.calls[i].Racing? && s.slot.Some?
    case RecvClosed(i) => i < |s.calls| && s.calls[i].Racing? && s.slot.None? && !s.sender
    case RecvCancel(i) => i < |s.calls| && s.calls[i].Racing? && i in s.cancelled
    case DropCall(i) => i < |s.calls| && (s.calls[i].Queued? || s.calls[i].Racing?)
    case TryRecv(i, _) => i < |s.calls| && s.calls[i].Idle?
  }

  function Answer(s: State, i: nat, r: Result): State
    requires i < |s.calls|
  {
    s.(calls := s.calls[i := Returned(r)])
  }

  /** An event that cannot happen leaves the state alone. */
  function Step(s: State, e: Event): State {
    if !Enabled(s, e) then s
    else match e
      case Send(v) =>
        if !s.sender then s.(sends := s.sends + [(v, SenderUsed)])
        else if EndpointAlive(s) then s.(sender := false, slot := Some(v), sends := s.sends + [(v, Sent)])
        else s.(sender := false, sends := s.sends + [(v, ReceiverGone)])
      case DropSender => s.(sender := false)
      case DropReceiver => s.(receiver := false, receiverDropped := true, slot := None)
      case Cancel(i) => s.(cancelled := s.cancelled + {i})
      case RecvStart(i) => s.(calls := s.calls[i := Queued])
      case RecvLock(i) =>
        if s.receiver then s.(receiver := false, owner := Some(i), calls := s.calls[i := Racing])
        else Answer(s, i, NoEndpoint)
      case RecvValue(i) => Answer(s.(slot := None, owner := None), i, Got(s.slot.value))
      case RecvClosed(i) => Answer(s.(owner := None), i, SenderGone)
      case RecvCancel(i) => Answer(s.(slot := None, owner := None), i, RecvCancelled)
      case DropCall(i) =>
        if s.calls[i].Racing? then s.(slot := None, owner := None, calls := s.calls[i := Dropped(true)])
        else s.(calls := s.calls[i := Dropped(false)])
      case TryRecv(i, contended) =>
        if contended || s.owner.Some? then Answer(s, i, Empty)
        else if !s.receiver then Answer(s, i, NoEndpoint)
        else if s.slot.Some? then Answer(s.(receiver := false, slot := None), i, Got(s.slot.value))
        else if s.sender then Answer(s, i, Empty)
        else Answer(s.(receiver := false), i, SenderGone)
  }

  function Exec(s: State, events: seq<Event>): State
    decreases |events|
  {
    if events == [] then s else Exec(Step(s, events[0]), events[1..])
  }

  // ---------- what every step keeps ----------

  /** The call used up the receiving endpoint. */
  predicate Consumed(c: Call) {
    || (c.Returned? && (c.result.Got? || c.result.SenderGone? || c.result.RecvCancelled?))
    || c == Dropped(true)
  }

  predicate IsSent(s: State, k: int)
    requires 0 <= k < |s.sends|
  {
    s.sends[k].1.Sent?
  }

  /** The endpoint is in its cell or in the hands of the one call that races. */
  predicate OwnerInv(s: State) {
    && !(s.receiver && s.owner.Some?)
    && (s.owner.Some? ==> s.owner.value < |s.calls| && s.calls[s.owner.value].Racing?)
    && (forall i :: 0 <= i < |s.calls| && s.calls[i].Racing? ==> s.owner == Some(i))
  }

  predicate SomeConsumed(s: State) {
    exists i :: 0 <= i < |s.calls| && Consumed(s.calls[i])
  }

  /** The endpoint is alive, or was dropped, or was used up by one call. */
  predicate ConsumedInv(s: State) {
    && (EndpointAlive(s) ==> !s.receiverDropped && !SomeConsumed(s))
    && (s.receiverDropped ==> !SomeConsumed(s))
    && (!EndpointAlive(s) && !s.receiverDropped ==> SomeConsumed(s))
    && (forall i, j :: 0 <= i < |s.calls| && 0 <= j < |s.calls| && Consumed(s.calls[i]) && Consumed(s.calls[j])
          ==> i == j)
  }

  /** The sending endpoint sends once. */
  predicate SenderInv(s: State) {
    && (s.sender ==> s.slot.None? && forall k :: 0 <= k < |s.sends| ==> !IsSent(s, k))
    && (forall k, l :: 0 <= k < |s.sends| && 0 <= l < |s.sends| && IsSent(s, k) && IsSent(s, l) ==> k == l)
  }

  predicate WasSent(s: State, v: Value) {
    exists k :: 0 <= k < |s.sends| && s.sends[k] == (v, Sent)
  }

  /** A value in flight or delivered was sent; one sent is in flight as long as the endpoint lives. */
  predicate ValueInv(s: State) {
    && (s.slot.Some? ==> EndpointAlive(s) && WasSent(s, s.slot.value))
    && (forall i :: 0 <= i < |s.calls| && s.calls[i].Returned? && s.calls[i].result.Got? ==>
          WasSent(s, s.calls[i].result.value))
    && (forall k :: 0 <= k < |s.sends| && IsSent(s, k) && EndpointAlive(s) ==> s.slot == Some(s.sends[k].0))
  }

  /** Nobody is told the sender is gone once a send succeeded, or while one still can. */
  predicate ClosedInv(s: State) {
    forall i :: 0 <= i < |s.calls| && s.calls[i] == Returned(SenderGone) ==>
      !s.sender && forall k :: 0 <= k < |s.sends| ==> !IsSent(s, k)
  }

  predicate Inv(s: State) {
    OwnerInv(s) && ConsumedInv(s) && SenderInv(s) && ValueInv(s) && ClosedInv(s)
  }

  lemma InitInv(n: nat)
    ensures Inv(Init(n))
  {
  }

  lemma RacingOwned(s: State, e: Event, i: nat)
    requires OwnerInv(s) && i < |Step(s, e).calls| && Step(s, e).calls[i].Racing?
    ensures Step(s, e).owner == Some(i)
  {
    var t := Step(s, e);
    if i < |s.calls| && s.calls[i].Racing? {
      assert s.owner == Some(i);
    } else {
      assert e == RecvLock(i);
    }
  }

  lemma OwnerKept(s: State, e: Event)
    requires OwnerInv(s)
    ensures OwnerInv(Step(s, e))
  {
    var t := Step(s, e);
    forall i | 0 <= i < |t.calls| && t.calls[i].Racing? ensures t.owner == Some(i) {
      RacingOwned(s, e, i);
    }
    if t.owner.Some? && e.RecvLock? && t.owner != s.owner { assert t.calls[e.i].Racing?; }
  }

  /** The call an event belongs to. */
  function Actor(e: Event): nat {
    match e
    case RecvStart(i) => i
    case RecvLock(i) => i
    case RecvValue(i) => i
    case RecvClosed(i) => i
    case RecvCancel(i) => i
    case DropCall(i) => i
    case TryRecv(i, _) => i
    case _ => 0
  }

  lemma UsedUpStays(s: State, e: Event)
    requires OwnerInv(s)
    ensures |Step(s, e).calls| == |s.calls|
    ensures forall k :: 0 <= k < |s.calls| && Consumed(s.calls[k]) ==> Step(s, e).calls[k] == s.calls[k]
  {
  }

  /** A call is used up by its own event only, and together with the endpoint. */
  lemma UsedUpWithEndpoint(s: State, e: Event, k: nat)
    requires OwnerInv(s) && k < |s.calls| == |Step(s, e).calls|
    requires Consumed(Step(s, e).calls[k]) && !Consumed(s.calls[k])
    ensures var t := Step(s, e);
      k == Actor(e) && EndpointAlive(s) && !EndpointAlive(t) && t.receiverDropped == s.receiverDropped
  {
  }

  lemma EndpointGoes(s: State, e: Event)
    requires OwnerInv(s)
    ensures var t := Step(s, e);
            && (EndpointAlive(t) ==> EndpointAlive(s) && t.receiverDropped == s.receiverDropped)
            && (t.receiverDropped && !s.receiverDropped ==> t.calls == s.calls)
            && (s.receiverDropped ==> t.receiverDropped)
  {
  }

  lemma EndpointGoesWithCall(s: State, e: Event)
    requires OwnerInv(s)
    requires EndpointAlive(s) && !EndpointAlive(Step(s, e)) && !Step(s, e).receiverDropped
    ensures Actor(e) < |Step(s, e).calls| && Consumed(Step(s, e).calls[Actor(e)])
  {
  }

  lemma ConsumedKept(s: State, e: Event)
    requires Inv(s)
    ensures ConsumedInv(Step(s, e))
  {
    var t := Step(s, e);
    UsedUpStays(s, e);
    EndpointGoes(s, e);
    forall k | 0 <= k < |t.calls| && Consumed(t.calls[k]) && !Consumed(s.calls[k])
      ensures k == Actor(e) && EndpointAlive(s) && !EndpointAlive(t) && t.receiverDropped == s.receiverDropped
    {
      UsedUpWithEndpoint(s, e, k);
    }
    if EndpointAlive(s) && !EndpointAlive(t) && !t.receiverDropped {
      EndpointGoesWithCall(s, e);
    }
    if SomeConsumed(s) {
      var i :| 0 <= i < |s.calls| && Consumed(s.calls[i]);
      assert Consumed(t.calls[i]);
    }
  }

  /** What one event does to the list of sends. */
  lemma SendsGrow(s: State, e: Event)
    ensures var t := Step(s, e);
            && |s.sends| <= |t.sends|
            && (forall k :: 0 <= k < |s.sends| ==> t.sends[k] == s.sends[k])
            && |t.sends| <= |s.sends| + (if e.Send? then 1 else 0)
            && (|s.sends| < |t.sends| ==>
                  t.sends[|s.sends|] == (e.v, if !s.sender then SenderUsed else if EndpointAlive(s) then Sent else ReceiverGone))
  {
  }

  lemma SenderKept(s: State, e: Event)
    requires Inv(s)
    ensures SenderInv(Step(s, e))
  {
    var t := Step(s, e);
    SendsGrow(s, e);
    if s.sender {
      assert forall k :: 0 <= k < |s.sends| ==> !IsSent(s, k) && !IsSent(t, k);
    } else {
      forall k | 0 <= k < |t.sends| && IsSent(t, k) ensures k < |s.sends| && IsSent(s, k) {
        if k < |s.sends| { assert t.sends[k] == s.sends[k]; }
      }
    }
  }

  lemma StillSent(s: State, e: Event, v: Value)
    requires WasSent(s, v)
    ensures WasSent(Step(s, e), v)
  {
    SendsGrow(s, e);
    var k :| 0 <= k < |s.sends| && s.sends[k] == (v, Sent);
    assert Step(s, e).sends[k] == (v, Sent);
  }

  lemma SlotKept(s: State, e: Event)
    requires Inv(s) && Step(s, e).slot.Some?
    ensures EndpointAlive(Step(s, e)) && WasSent(Step(s, e), Step(s, e).slot.value)
  {
    var t := Step(s, e);
    SendsGrow(s, e);
    if s.slot == t.slot { StillSent(s, e, s.slot.value); }
    else { assert t.sends[|s.sends|] == (t.slot.value, Sent); }
  }

  lemma DeliveryKept(s: State, e: Event, i: nat)
    requires Inv(s)
    requires i < |Step(s, e).calls| && Step(s, e).calls[i].Returned? && Step(s, e).calls[i].result.Got?
    ensures WasSent(Step(s, e), Step(s, e).calls[i].result.value)
  {
    var v := Step(s, e).calls[i].result.value;
    assert s.calls[i] == Step(s, e).calls[i] || s.slot == Some(v);
    StillSent(s, e, v);
  }

  lemma InFlightKept(s: State, e: Event, k: nat)
    requires Inv(s)
    requires k < |Step(s, e).sends| && IsSent(Step(s, e), k) && EndpointAlive(Step(s, e))
    ensures Step(s, e).slot == Some(Step(s, e).sends[k].0)
  {
    SendsGrow(s, e);
    EndpointGoes(s, e);
    if k < |s.sends| { assert IsSent(s, k) && s.slot == Some(s.sends[k].0); }
  }

  lemma ValueKept(s: State, e: Event)
    requires Inv(s)
    ensures ValueInv(Step(s, e))
  {
    var t := Step(s, e);
    if t.slot.Some? { SlotKept(s, e); }
    forall i | 0 <= i < |t.calls| && t.calls[i].Returned? && t.calls[i].result.Got?
      ensures WasSent(t, t.calls[i].result.value)
    {
      DeliveryKept(s, e, i);
    }
    forall k | 0 <= k < |t.sends| && IsSent(t, k) && EndpointAlive(t)
      ensures t.slot == Some(t.sends[k].0)
    {
      InFlightKept(s, e, k);
    }
  }

  lemma ClosedKept(s: State, e: Event)
    requires Inv(s)
    ensures ClosedInv(Step(s, e))
  {
    var t := Step(s, e);
    SendsGrow(s, e);
    forall i | 0 <= i < |t.calls| && t.calls[i] == Returned(SenderGone)
      ensures !t.sender && forall k :: 0 <= k < |t.sends| ==> !IsSent(t, k)
    {
      assert !s.sender;
      assert s.calls[i] == t.calls[i] || (EndpointAlive(s) && s.slot.None?);
      assert forall k :: 0 <= k < |s.sends| ==> !IsSent(s, k);
      assert forall k :: 0 <= k < |t.sends| && IsSent(t, k) ==> k < |s.sends| && IsSent(s, k);
    }
  }

  lemma StepKeepsInv(s: State, e: Event)
    requires Inv(s)
    ensures Inv(Step(s, e))
  {
    OwnerKept(s, e);
    ConsumedKept(s, e);
    SenderKept(s, e);
    ValueKept(s, e);
    ClosedKept(s, e);
  }

  lemma {:induction false} ExecKeepsInv(s: State, events: seq<Event>)
    requires Inv(s)
    ensures Inv(Exec(s, events))
    decreases |events|
  {
    if events != [] {
      StepKeepsInv(s, events[0]);
      ExecKeepsInv(Step(s, events[0]), events[1..]);
    }
  }

  // ---------- what holds of every run ----------

  predicate Delivered(s: State, i: int)
    requires 0 <= i < |s.calls|
  {
    s.calls[i].Returned? && s.calls[i].result.Got?
  }

  lemma RunInv(n: nat, events: seq<Event>)
    ensures Inv(Exec(Init(n), events))
  {
    InitInv(n);
    ExecKeepsInv(Init(n), events);
  }

  /** At most one send succeeds, at most one receive of either kind returns a value, and it is the
      value that was sent. */
  lemma SingleDelivery(n: nat, events: seq<Event>)
    ensures var s := Exec(Init(n), events);
            && (forall k, l :: 0 <= k < |s.sends| && 0 <= l < |s.sends| && IsSent(s, k) && IsSent(s, l) ==> k == l)
            && (forall i, j :: 0 <= i < |s.calls| && 0 <= j < |s.calls| && Delivered(s, i) && Delivered(s, j)
                  ==> i == j)
            && (forall i :: 0 <= i < |s.calls| && Delivered(s, i) ==>
                  WasSent(s, s.calls[i].result.value))
  {
    RunInv(n, events);
    var s := Exec(Init(n), events);
    assert forall i :: 0 <= i < |s.calls| && Delivered(s, i) ==> Consumed(s.calls[i]);
  }

  // ---------- why each answer is given ----------

  /** The values of the sends among `events`, in order. */
  function SentValues(events: seq<Event>): seq<Value> {
    if events == [] then []
    else (if events[0].Send? then [events[0].v] else []) + SentValues(events[1..])
  }

  lemma {:induction false} SentAppend(events: seq<Event>, e: Event)
    ensures SentValues(events + [e]) == SentValues(events) + (if e.Send? then [e.v] else [])
    decreases |events|
  {
    if events != [] {
      SentAppend(events[1..], e);
      assert (events + [e])[1..] == events[1..] + [e];
    } else {
      assert [e][1..] == [] && events + [e] == [e];
    }
  }

  /** The events so far account for every answer that is not a value, and for every endpoint gone. */
  ghost predicate Explained(s: State, past: seq<Event>) {
    && (forall i :: i in s.cancelled <==> Cancel(i) in past)
    && (s.receiverDropped ==> DropReceiver in past)
    && (forall i :: 0 <= i < |s.calls| ==> CallExplained(s.calls[i], i, past))
    && SendsExplained(s, past)
  }

  predicate CallExplained(c: Call, i: nat, past: seq<Event>) {
    match c
    case Returned(RecvCancelled) => Cancel(i) in past
    case Returned(SenderGone) => DropSender in past
    case Dropped(_) => DropCall(i) in past
    case _ => true
  }

  /** Every send is recorded; all but the first find the sender used, and the first does when it was
      dropped.  A send that finds no receiver finds none that lives. */
  predicate SendsExplained(s: State, past: seq<Event>) {
    && |s.sends| == |SentValues(past)|
    && (forall k :: 0 <= k < |s.sends| ==> s.sends[k].0 == SentValues(past)[k])
    && (s.sends != [] ==> !s.sender)
    && (forall k :: 0 < k < |s.sends| ==> s.sends[k].1.SenderUsed?)
    && (!s.sender && (s.sends == [] || s.sends[0].1.SenderUsed?) ==> DropSender in past)
    && (s.sends != [] && s.sends[0].1.ReceiverGone? ==> !EndpointAlive(s))
  }

  /** What makes a call end without a value. */
  lemma NewEnd(s: State, e: Event, i: nat)
    requires OwnerInv(s) && i < |s.calls| == |Step(s, e).calls| && Step(s, e).calls[i] != s.calls[i]
    ensures var c := Step(s, e).calls[i];
      && (c == Returned(RecvCancelled) ==> i in s.cancelled)
      && (c == Returned(SenderGone) ==> EndpointAlive(s) && s.slot.None? && !s.sender)
      && (c.Dropped? ==> e == DropCall(i))
  {
  }

  lemma NothingSentYet(s: State, past: seq<Event>)
    requires Inv(s) && SendsExplained(s, past) && EndpointAlive(s) && s.slot.None? && !s.sender
    ensures DropSender in past
  {
    if s.sends != [] { assert !IsSent(s, 0); }
  }

  lemma CallStaysExplained(s: State, past: seq<Event>, e: Event, i: nat)
    requires Inv(s) && Explained(s, past) && i < |s.calls| == |Step(s, e).calls|
    ensures CallExplained(Step(s, e).calls[i], i, past + [e])
  {
    assert CallExplained(s.calls[i], i, past);
    var c := Step(s, e).calls[i];
    if c != s.calls[i] {
      NewEnd(s, e, i);
      if c == Returned(SenderGone) { NothingSentYet(s, past); }
    }
  }

  lemma SenderMoves(s: State, e: Event)
    ensures var t := Step(s, e);
      && (t.sender ==> s.sender && !e.Send?) && (s.sender && !t.sender ==> e == DropSender || e.Send?)
      && (if e.Send? then |t.sends| == |s.sends| + 1 else t.sends == s.sends)
  {
  }

  lemma OtherKeepsSends(s: State, past: seq<Event>, e: Event)
    requires OwnerInv(s) && SendsExplained(s, past) && !e.Send?
    ensures SendsExplained(Step(s, e), past + [e])
  {
    SenderMoves(s, e);
    SentAppend(past, e);
    EndpointGoes(s, e);
  }

  lemma SendsStayExplained(s: State, past: seq<Event>, e: Event)
    requires Inv(s) && SendsExplained(s, past)
    ensures SendsExplained(Step(s, e), past + [e])
  {
    if e.Send? {
      SendsGrow(s, e);
      SenderMoves(s, e);
      SentAppend(past, e);
      EndpointGoes(s, e);
    } else {
      OtherKeepsSends(s, past, e);
    }
  }

  lemma StepExplained(s: State, past: seq<Event>, e: Event)
    requires Inv(s) && Explained(s, past)
    ensures Explained(Step(s, e), past + [e])
  {
    var t := Step(s, e);
    UsedUpStays(s, e);
    forall i | 0 <= i < |t.calls| ensures CallExplained(t.calls[i], i, past + [e]) {
      CallStaysExplained(s, past, e, i);
    }
    SendsStayExplained(s, past, e);
  }

  lemma {:induction false} ExecExplained(s: State, past: seq<Event>, events: seq<Event>)
    requires Inv(s) && Explained(s, past)
    ensures Explained(Exec(s, events), past + events)
    decreases |events|
  {
    if events == [] {
      assert past + events == past;
    } else {
      StepKeepsInv(s, events[0]);
      StepExplained(s, past, events[0]);
      ExecExplained(Step(s, events[0]), past + [events[0]], events[1..]);
      assert past + events == past + [events[0]] + events[1..];
    }
  }

  /** In every run: a receive reports a cancellation only if it was cancelled and a closed channel only
      if the sender was dropped; a call is dropped, and the receiver, only by its own event; and every
      send is accounted for. */
  lemma AnswersExplained(n: nat, events: seq<Event>)
    ensures Explained(Exec(Init(n), events), events)
  {
    InitInv(n);
    ExecExplained(Init(n), [], events);
    assert [] + events == events;
  }

  /** Delivered, or lost with the endpoint on purpose. */
  predicate AccountsFor(c: Call, i: nat, v: Value, events: seq<Event>) {
    || c == Returned(Got(v))
    || (c == Returned(RecvCancelled) && Cancel(i) in events)
    || (c == Dropped(true) && DropCall(i) in events)
  }

  /** A sent value is in flight to a live endpoint, or delivered, or was lost together with the
      endpoint, by a receive that was cancelled or dropped or by dropping the receiver. */
  lemma SentValueAccountedFor(n: nat, events: seq<Event>, k: nat)
    requires k < |Exec(Init(n), events).sends| && IsSent(Exec(Init(n), events), k)
    ensures var s := Exec(Init(n), events);
            if EndpointAlive(s) then s.slot == Some(s.sends[k].0)
            else
              || (s.receiverDropped && DropReceiver in events)
              || exists i :: 0 <= i < |s.calls| && AccountsFor(s.calls[i], i, s.sends[k].0, events)
  {
    RunInv(n, events);
    AnswersExplained(n, events);
    var s := Exec(Init(n), events);
    if !EndpointAlive(s) && !s.receiverDropped {
      var i :| 0 <= i < |s.calls| && Consumed(s.calls[i]);
      assert CallExplained(s.calls[i], i, events) && s.calls[i] != Returned(SenderGone);
      if Delivered(s, i) {
        var l :| 0 <= l < |s.sends| && s.sends[l] == (s.calls[i].result.value, Sent);
        assert IsSent(s, l) && l == k;
      }
      assert AccountsFor(s.calls[i], i, s.sends[k].0, events);
    }
  }

  /** The endpoint is gone exactly when it was dropped or used up by some call. */
  predicate EndpointSpent(s: State) { s.receiverDropped || SomeConsumed(s) }

  /** What each kind of call is told, read off the calls and sends that went before. */
  lemma CallsAnswered(n: nat, events: seq<Event>, i: nat, v: Value)
    ensures var s := Exec(Init(n), events);
      && (Enabled(s, RecvLock(i)) ==>
            Step(s, RecvLock(i)).calls[i] == if EndpointSpent(s) then Returned(NoEndpoint) else Racing)
      && (Enabled(s, TryRecv(i, false)) && s.owner.None? ==>
            var c := Step(s, TryRecv(i, false)).calls[i];
            && (c == Returned(NoEndpoint) <==> EndpointSpent(s))
            && (c == Returned(Got(v)) <==> !EndpointSpent(s) && WasSent(s, v))
            && (c == Returned(SenderGone) <==> !EndpointSpent(s) && !s.sender && forall w :: !WasSent(s, w))
            && (c == Returned(Empty) <==> !EndpointSpent(s) && s.sender))
      && (i < |s.calls| && s.calls[i].Racing? ==>
            && (Enabled(s, RecvValue(i)) && Step(s, RecvValue(i)).calls[i] == Returned(Got(v)) <==> WasSent(s, v))
            && (Enabled(s, RecvClosed(i)) <==> !s.sender && forall w :: !WasSent(s, w)))
  {
    RunInv(n, events);
    ReadOffState(Exec(Init(n), events), v);
  }

  /** A receive that finds the lock held changes nothing and reports nothing. */
  lemma ContendedChangesNothing(s: State, i: nat, contended: bool)
    requires Enabled(s, TryRecv(i, contended)) && (contended || s.owner.Some?)
    ensures Step(s, TryRecv(i, contended)) == Answer(s, i, Empty)
  {
  }

  /** What spends the endpoint: dropping it, a receive that ends, dropping the receive that holds it, and
      a non-blocking receive that finds a value or no sender. */
  predicate Spends(s: State, e: Event) {
    && Enabled(s, e)
    && match e
       case DropReceiver | RecvValue(_) | RecvClosed(_) | RecvCancel(_) => true
       case DropCall(i) => s.owner == Some(i)
       case TryRecv(_, contended) => !contended && s.owner.None? && (s.sends != [] || !s.sender)
       case _ => false
  }

  lemma SpentExactlyBy(n: nat, events: seq<Event>, e: Event)
    requires EndpointAlive(Exec(Init(n), events))
    ensures var s := Exec(Init(n), events);
      && (EndpointAlive(Step(s, e)) <==> !Spends(s, e))
      && (s.sender && !Step(s, e).sender <==> s.sender && (e.Send? || e == DropSender))
  {
    var s := Exec(Init(n), events);
    RunInv(n, events);
    AnswersExplained(n, events);
    if s.sends != [] && s.slot.None? { assert !IsSent(s, 0); }
  }

  /** Once spent it stays spent. */
  lemma {:induction false} StaysSpent(s: State, events: seq<Event>)
    requires Inv(s) && EndpointSpent(s)
    ensures EndpointSpent(Exec(s, events))
    decreases |events|
  {
    if events != [] {
      UsedUpStays(s, events[0]);
      EndpointGoes(s, events[0]);
      StepKeepsInv(s, events[0]);
      if SomeConsumed(s) {
        var i :| 0 <= i < |s.calls| && Consumed(s.calls[i]);
        assert Consumed(Step(s, events[0]).calls[i]);
      }
      StaysSpent(Step(s, events[0]), events[1..]);
    }
  }

  /** What is in flight is what was sent, as long as the endpoint lives. */
  lemma ReadOffState(s: State, v: Value)
    requires Inv(s)
    ensures EndpointAlive(s) <==> !EndpointSpent(s)
    ensures EndpointAlive(s) ==> (WasSent(s, v) <==> s.slot == Some(v))
    ensures EndpointAlive(s) ==> ((forall w :: !WasSent(s, w)) <==> s.slot.None?)
  {
    forall w: Value | EndpointAlive(s) && WasSent(s, w) ensures s.slot == Some(w) {
      var k :| 0 <= k < |s.sends| && s.sends[k] == (w, Sent);
      assert IsSent(s, k);
    }
  }

  /** What a send is told: the first one finds the sender unless it was dropped, and then the endpoint
      unless that is spent. */
  lemma SendsAnswered(n: nat, events: seq<Event>, v: Value)
    ensures var s := Exec(Init(n), events);
      var t := Step(s, Send(v));
      && |t.sends| == |s.sends| + 1 && t.sends[..|s.sends|] == s.sends && t.sends[|s.sends|].0 == v
      && (t.sends[|s.sends|].1 == SenderUsed <==> !s.sender)
      && (t.sends[|s.sends|].1 == Sent <==> s.sender && !EndpointSpent(s))
      && (SentValues(events) != [] ==> !s.sender)
      && (!s.sender && SentValues(events) == [] ==> DropSender in events)
  {
    RunInv(n, events);
    AnswersExplained(n, events);
    ReadOffState(Exec(Init(n), events), v);
  }

  /** A receive that was told the sender is gone is right: no send succeeded, and none ever will. */
  lemma ClosedMeansNeverSent(n: nat, events: seq<Event>, i: nat, k: nat)
    requires i < |Exec(Init(n), events).calls| && Exec(Init(n), events).calls[i] == Returned(SenderGone)
    requires k < |Exec(Init(n), events).sends|
    ensures !IsSent(Exec(Init(n), events), k)
  {
    RunInv(n, events);
  }

  // ---------- what an empty non-blocking receive leaves behind ----------

  /** Nothing was sent yet, and both endpoints are in their cells. */
  predicate Open(s: State) { s.owner.None? && s.receiver && s.slot.None? && s.sender }

  /** `v` is in flight and the receiving endpoint is in its cell. */
  predicate Full(s: State, v: Value) { s.owner.None? && s.receiver && s.slot == Some(v) && !s.sender }

  /** What may happen before the send: anything that neither takes nor drops an endpoint. */
  predicate LeavesOpen(e: Event) { e.Cancel? || e.RecvStart? || e.DropCall? || e.TryRecv? }

  /** What may happen before the receive: further sends too, but no uncontended receive. */
  predicate LeavesFull(e: Event) {
    e.Cancel? || e.RecvStart? || e.DropCall? || e.Send? || (e.TryRecv? && e.contended)
  }

  lemma {:induction false} StaysOpen(s: State, events: seq<Event>)
    requires OwnerInv(s) && Open(s) && forall e :: e in events ==> LeavesOpen(e)
    ensures OwnerInv(Exec(s, events)) && Open(Exec(s, events))
    decreases |events|
  {
    if events != [] {
      assert events[0] in events;
      OwnerKept(s, events[0]);
      assert Open(Step(s, events[0]));
      StaysOpen(Step(s, events[0]), events[1..]);
    }
  }

  lemma {:induction false} StaysFull(s: State, v: Value, events: seq<Event>)
    requires OwnerInv(s) && Full(s, v) && forall e :: e in events ==> LeavesFull(e)
    ensures OwnerInv(Exec(s, events)) && Full(Exec(s, events), v)
    decreases |events|
  {
    if events != [] {
      assert events[0] in events;
      OwnerKept(s, events[0]);
      assert Full(Step(s, events[0]), v);
      StaysFull(Step(s, events[0]), v, events[1..]);
    }
  }

  lemma {:induction false} ExecConcat(s: State, a: seq<Event>, b: seq<Event>)
    ensures Exec(s, a + b) == Exec(Exec(s, a), b)
    decreases |a|
  {
    if a == [] {
      assert a + b == b;
    } else {
      assert (a + b)[1..] == a[1..] + b;
      ExecConcat(Step(s, a[0]), a[1..], b);
    }
  }

  /** The run up to the send that follows an empty non-blocking receive. */
  function UpToSend(before: seq<Event>, i: nat, between: seq<Event>): seq<Event> {
    before + ([TryRecv(i, false)] + between)
  }

  lemma EmptyLeavesOpen(n: nat, before: seq<Event>, i: nat, between: seq<Event>)
    requires var s := Exec(Init(n), before);
      && Enabled(s, TryRecv(i, false)) && s.owner.None? && Step(s, TryRecv(i, false)).calls[i] == Returned(Empty)
    requires forall e :: e in between ==> LeavesOpen(e)
    ensures OwnerInv(Exec(Init(n), UpToSend(before, i, between))) && Open(Exec(Init(n), UpToSend(before, i, between)))
  {
    var s := Exec(Init(n), before);
    RunInv(n, before);
    OwnerKept(s, TryRecv(i, false));
    assert Open(Step(s, TryRecv(i, false)));
    ExecConcat(Init(n), before, [TryRecv(i, false)] + between);
    assert ([TryRecv(i, false)] + between)[1..] == between;
    StaysOpen(Step(s, TryRecv(i, false)), between);
  }

  /** An empty answer keeps the endpoint usable: when the lock was free, the next send is sent, and the
      next non-blocking receive that finds the lock free returns its value, whatever calls start, are
      cancelled, are dropped while queued or find nothing in between. */
  lemma EmptyTryKeepsEndpoint(n: nat, before: seq<Event>, i: nat, between: seq<Event>, v: Value,
                              later: seq<Event>, j: nat)
    requires var s := Exec(Init(n), before);
      && Enabled(s, TryRecv(i, false)) && s.owner.None? && Step(s, TryRecv(i, false)).calls[i] == Returned(Empty)
    requires forall e :: e in between ==> LeavesOpen(e)
    requires forall e :: e in later ==> LeavesFull(e)
    ensures var s := Exec(Init(n), UpToSend(before, i, between));
      var t := Exec(Step(s, Send(v)), later);
      && Step(s, Send(v)).sends == s.sends + [(v, Sent)]
      && (Enabled(t, TryRecv(j, false)) ==> Step(t, TryRecv(j, false)).calls[j] == Returned(Got(v)))
  {
    EmptyLeavesOpen(n, before, i, between);
    var s := Exec(Init(n), UpToSend(before, i, between));
    OwnerKept(s, Send(v));
    StaysFull(Step(s, Send(v)), v, later);
  }

  // ---------- what a blocking receive gets ----------

  /** Call `i` holds the endpoint, and `v` is on its way to it. */
  predicate Awaited(s: State, i: nat, v: Value) {
    i < |s.calls| && s.calls[i].Racing? && s.owner == Some(i) && s.slot == Some(v) && !s.sender && !s.receiver
  }

  lemma {:induction false} StaysDelivered(s: State, events: seq<Event>, i: nat)
    requires i < |s.calls| && s.calls[i].Returned?
    ensures |Exec(s, events).calls| == |s.calls| && Exec(s, events).calls[i] == s.calls[i]
    decreases |events|
  {
    if events != [] {
      assert Step(s, events[0]).calls[i] == s.calls[i];
      StaysDelivered(Step(s, events[0]), events[1..], i);
    }
  }

  lemma {:induction false} AwaitedArrives(s: State, i: nat, v: Value, later: seq<Event>)
    requires OwnerInv(s) && Awaited(s, i, v) && RecvCancel(i) !in later && DropCall(i) !in later
    ensures var u := Exec(s, later);
      if RecvValue(i) in later then i < |u.calls| && u.calls[i] == Returned(Got(v)) else Awaited(u, i, v)
    decreases |later|
  {
    if later != [] {
      var e := later[0];
      assert e in later;
      if e == RecvValue(i) {
        StaysDelivered(Step(s, e), later[1..], i);
      } else {
        OwnerKept(s, e);
        assert Awaited(Step(s, e), i, v);
        AwaitedArrives(Step(s, e), i, v, later[1..]);
        assert later == [e] + later[1..];
      }
    }
  }

  /** A value sent to an endpoint that call `i` holds is what that call returns, whatever else happens,
      unless the call itself is dropped or acts on its cancellation: it cannot report a closed channel,
      and no other call gets the value. */
  lemma HeldReceiveGetsValue(n: nat, before: seq<Event>, i: nat, v: Value, later: seq<Event>)
    requires var s := Exec(Init(n), before);
      s.owner == Some(i) && Step(s, Send(v)).sends == s.sends + [(v, Sent)]
    requires RecvCancel(i) !in later && DropCall(i) !in later
    ensures var u := Exec(Step(Exec(Init(n), before), Send(v)), later);
      if RecvValue(i) in later then i < |u.calls| && u.calls[i] == Returned(Got(v))
      else Awaited(u, i, v) && Step(u, RecvValue(i)).calls[i] == Returned(Got(v)) && !Enabled(u, RecvClosed(i))
  {
    RunInv(n, before);
    var s := Exec(Init(n), before);
    SendsGrow(s, Send(v));
    OwnerKept(s, Send(v));
    AwaitedArrives(Step(s, Send(v)), i, v, later);
  }

  /** The plain run: a receive waits, the value is sent, and the receive returns it. */
  lemma ReceiveRun(v: Value)
    ensures var s := Exec(Init(1), [RecvStart(0), RecvLock(0), Send(v), RecvValue(0)]);
      |s.calls| == 1 && s.calls[0] == Returned(Got(v)) && s.sends == [(v, Sent)]
  {
    var s1 := Step(Init(1), RecvStart(0));
    var s2 := Step(s1, RecvLock(0));
    var s3 := Step(s2, Send(v));
    assert s1.calls[0] == Queued && s2.calls[0] == Racing && s3.slot == Some(v);
    var s4 := Step(s3, RecvValue(0));
    assert s4.calls[0] == Returned(Got(v)) && s4.sends == s3.sends == [] + [(v, Sent)];
    assert |s4.calls| == 1 && [] + [(v, Sent)] == [(v, Sent)];
    ExecConcat(Init(1), [RecvStart(0), RecvLock(0)], [Send(v), RecvValue(0)]);
    assert [RecvStart(0), RecvLock(0)] + [Send(v), RecvValue(0)] == [RecvStart(0), RecvLock(0), Send(v), RecvValue(0)];
    TwoSteps(Init(1), RecvStart(0), RecvLock(0));
    TwoSteps(s2, Send(v), RecvValue(0));
    assert Exec(Init(1), [RecvStart(0), RecvLock(0), Send(v), RecvValue(0)]) == s4;
  }

  lemma TwoSteps(s: State, e: Event, f: Event)
    ensures Exec(s, [e, f]) == Step(Step(s, e), f)
  {
    assert [e, f][1..] == [f] && [f][1..] == [];
    assert Exec(Step(s, e), [f]) == Exec(Step(Step(s, e), f), []);
  }

  /** A contended answer says nothing of the kind: it is also given after the endpoint is gone. */
  lemma ContendedEmptyAfterDelivery(n: nat, events: seq<Event>, i: nat, j: nat)
    requires i < |Exec(Init(n), events).calls| && Delivered(Exec(Init(n), events), i)
    requires Enabled(Exec(Init(n), events), TryRecv(j, true))
    ensures var t := Step(Exec(Init(n), events), TryRecv(j, true));
      t.calls[j] == Returned(Empty) && !EndpointAlive(t)
  {
    RunInv(n, events);
    assert Consumed(Exec(Init(n), events).calls[i]);
  }

  /** Such a run: 7 is sent and received, and a second call finds the lock held. */
  lemma ContendedRun()
    ensures var s := Exec(Init(2), [Send(7), TryRecv(0, false), TryRecv(1, true)]);
      |s.calls| == 2 && s.calls[0] == Returned(Got(7)) && s.calls[1] == Returned(Empty) && !EndpointAlive(s)
  {
    var s1 := Step(Init(2), Send(7));
    var s2 := Step(s1, TryRecv(0, false));
    var s3 := Step(s2, TryRecv(1, true));
    var events := [Send(7), TryRecv(0, false), TryRecv(1, true)];
    assert events[1..] == [TryRecv(0, false), TryRecv(1, true)];
    assert events[1..][1..] == [TryRecv(1, true)];
    assert Exec(s2, [TryRecv(1, true)]) == s3;
    assert Exec(s1, events[1..]) == s3;
  }

  /** After a delivery the endpoint is gone: every later receive, blocking or not, is told so. */
  lemma NothingAfterDelivery(n: nat, events: seq<Event>, i: nat, j: nat)
    requires i < |Exec(Init(n), events).calls| && Delivered(Exec(Init(n), events), i)
    ensures var s := Exec(Init(n), events);
            && !EndpointAlive(s) && s.slot.None?
            && (Enabled(s, RecvLock(j)) ==> Step(s, RecvLock(j)).calls[j] == Returned(NoEndpoint))
            && (Enabled(s, TryRecv(j, false)) ==> Step(s, TryRecv(j, false)).calls[j] == Returned(NoEndpoint))
            && !Enabled(s, RecvValue(j)) && !Enabled(s, RecvClosed(j))
  {
    RunInv(n, events);
    assert Consumed(Exec(Init(n), events).calls[i]);
  }

  // ---------- the code that makes the steps ----------

  /** The two endpoint cells and the calls on them, updated in place. */
  class Channel {
    var sender: bool
    var slot: Option<Value>
    var receiver: bool
    var receiverDropped: bool
    var owner: Option<nat>
    var calls: seq<Call>
    var cancelled: set<nat>
    var sends: seq<(Value, SendResult)>

    function View(): State
      reads this
    {
      State(sender, slot, receiver, receiverDropped, owner, calls, cancelled, sends)
    }

    constructor (n: nat)
      ensures View() == Init(n)
    {
      sender, slot, receiver, receiverDropped, owner := true, None, true, false, None;
      calls, cancelled, sends := seq(n, _ => Idle), {}, [];
    }

    /** The sender is taken before anything else, so a failed send uses it up too. */
    method SendValue(v: Value) returns (r: SendResult)
      modifies this
      ensures View() == Step(old(View()), Send(v))
      ensures sends == old(sends) + [(v, r)]
    {
      var taken := sender;
      sender := false;
      if !taken {
        r := SenderUsed;
      } else if receiver || owner.Some? {
        slot := Some(v);
        r := Sent;
      } else {
        r := ReceiverGone;
      }
      sends := sends + [(v, r)];
    }

    /** `recv` up to its suspension: the endpoint leaves its cell and the lock stays held. */
    method TakeReceiver(i: nat)
      requires Enabled(View(), RecvLock(i))
      modifies this
      ensures View() == Step(old(View()), RecvLock(i))
    {
      var taken := receiver;
      receiver := false;
      if taken {
        owner := Some(i);
        calls := calls[i := Racing];
      } else {
        calls := calls[i := Returned(NoEndpoint)];
      }
    }

    method Deliver(i: nat)
      requires Enabled(View(), RecvValue(i))
      modifies this
      ensures View() == Step(old(View()), RecvValue(i))
    {
      var v := slot.value;
      slot := None;
      owner := None;
      calls := calls[i := Returned(Got(v))];
    }

    method ObserveCancel(i: nat)
      requires Enabled(View(), RecvCancel(i))
      modifies this
      ensures View() == Step(old(View()), RecvCancel(i))
    {
      slot := None;
      owner := None;
      calls := calls[i := Returned(RecvCancelled)];
    }

    /** `try-recv`: takes the endpoint out, and puts it back only when nothing was there yet. */
    method TryReceive(i: nat, contended: bool) returns (r: Result)
      requires Enabled(View(), TryRecv(i, contended))
      modifies this
      ensures View() == Step(old(View()), TryRecv(i, contended))
      ensures calls[i] == Returned(r)
    {
      if contended || owner.Some? {
        r := Empty;
      } else if !receiver {
        r := NoEndpoint;
      } else {
        receiver := false;
        match slot {
          case Some(v) =>
            slot := None;
            r := Got(v);
          case None =>
            if sender {
              receiver := true;
              r := Empty;
            } else {
              r := SenderGone;
            }
        }
      }
      calls := calls[i := Returned(r)];
    }
  }
}
