/**
  * The health service: a table of statuses read by Check, and a table of broadcast channels read
  * by Watch, each behind its own lock. A call takes the locks one after the other, so the calls in
  * flight interleave between them; a run is a sequence of the steps done under one lock.
  */
module Health {
  import opened Wire

  datatype ServingStatus = Unknown | Serving | NotServing | ServiceUnknown

  /** A broadcast channel: its latest value, how often it was sent to, and who listens. */
  datatype Channel = Channel(value: ServingStatus, version: nat, receivers: set<nat>)

  /** What the two locks guard. */
  datatype Shared = Shared(statuses: map<string, ServingStatus>, channels: map<string, Channel>)
  {
    function Check(service: string): ServingStatus {
      if service in statuses then statuses[service] else ServiceUnknown
    }

    function Lookup(service: string): Option<ServingStatus> {
      if service in statuses then Some(statuses[service]) else None
    }

    /** The channel, if there is one, says what Check answers. */
    predicate Agrees(service: string) {
      service in channels ==> channels[service].value == Check(service)
    }

    /** A send reaches a live receiver, or needs to change nothing. */
    predicate Hears(service: string, status: ServingStatus) {
      service in channels && (channels[service].receivers != {} || channels[service].value == status)
    }

    function Inserted(service: string, status: ServingStatus): Shared {
      this.(statuses := statuses[service := status])
    }

    /** Sending on a channel nobody listens to leaves its value as it was. */
    function Notified(service: string, status: ServingStatus): Shared {
      if service in channels && channels[service].receivers != {} then
        var sent := channels[service].(value := status, version := channels[service].version + 1);
        this.(channels := channels[service := sent])
      else this
    }

    function Joined(service: string, initial: Option<ServingStatus>, receiver: nat): Shared {
      var joined :=
        if service in channels then channels[service].(receivers := channels[service].receivers + {receiver})
        else Channel(if initial.Some? then initial.value else ServiceUnknown, 0, {receiver});
      this.(channels := channels[service := joined])
    }

    function Left(service: string, receiver: nat): Shared
      requires service in channels
    {
      var left := channels[service].(receivers := channels[service].receivers - {receiver});
      this.(channels := channels[service := left])
    }
  }

  /** The state behind the service and its handle; every method is what one lock is held for. */
  class HealthState {
    var statuses: map<string, ServingStatus>
    var channels: map<string, Channel>

    function Value(): Shared
      reads this
    {
      Shared(statuses, channels)
    }

    constructor ()
      ensures Value() == Initial().shared
    {
      statuses := map["" := Serving];
      channels := map[];
    }

    method InsertStatus(service: string, status: ServingStatus)
      modifies this
      ensures Value() == old(Value()).Inserted(service, status)
    {
      statuses := statuses[service := status];
    }

    method Notify(service: string, status: ServingStatus)
      modifies this
      ensures Value() == old(Value()).Notified(service, status)
    {
      if service in channels {
        var channel := channels[service];
        if channel.receivers != {} {
          channels := channels[service := channel.(value := status, version := channel.version + 1)];
        }
      }
    }

    method Check(service: string) returns (status: ServingStatus)
      ensures status == Value().Check(service)
    {
      if service in statuses {
        status := statuses[service];
      } else {
        status := ServiceUnknown;
      }
    }

    method Lookup(service: string) returns (initial: Option<ServingStatus>)
      ensures initial == Value().Lookup(service)
    {
      if service in statuses {
        initial := Some(statuses[service]);
      } else {
        initial := None;
      }
    }

    method Join(service: string, initial: Option<ServingStatus>, receiver: nat)
      modifies this
      ensures Value() == old(Value()).Joined(service, initial, receiver)
    {
      if service in channels {
        var channel := channels[service];
        channels := channels[service := channel.(receivers := channel.receivers + {receiver})];
      } else {
        var value := match initial
          case Some(status) => status
          case None => ServiceUnknown;
        channels := channels[service := Channel(value, 0, {receiver})];
      }
    }

    /** Both steps with no other in between: Check answers the status, and the channel says it if it is heard. */
    method SetStatus(service: string, status: ServingStatus)
      modifies this
      ensures Value().Check(service) == status
      ensures Value().Agrees(service) <==> (service in channels ==> old(Value()).Hears(service, status))
      ensures forall s :: s != service ==> (Value().Agrees(s) <==> old(Value()).Agrees(s))
    {
      InsertStatus(service, status);
      Notify(service, status);
    }

    /** Both steps with no other in between: a new channel agrees with the table. */
    method Watch(service: string, receiver: nat)
      modifies this
      ensures statuses == old(statuses) && service in channels && receiver in channels[service].receivers
      ensures forall s :: Value().Agrees(s) <==> old(Value()).Agrees(s)
    {
      var initial := Lookup(service);
      Join(service, initial, receiver);
    }
  }

  // ---- Runs ------------------------------------------------------------------------------------------

  /** A call to set a status that still has to notify. */
  datatype Setter = Setter(service: string, status: ServingStatus)

  /** A call to watch that has looked its service up and still has to join. */
  datatype Joiner = Joiner(service: string, initial: Option<ServingStatus>)

  /** A response stream: the version it has seen, and all it has sent to its client. */
  datatype Watcher = Watcher(service: string, seen: Option<nat>, reports: seq<ServingStatus>)

  datatype State = State(
    shared: Shared, setters: map<nat, Setter>, joiners: map<nat, Joiner>, watchers: map<nat, Watcher>)

  datatype Event =
    | InsertStatus(task: nat, service: string, status: ServingStatus)
    | Notify(task: nat)
    | Lookup(task: nat, service: string)
    | Join(task: nat)
    | Report(task: nat)
    | Drop(task: nat)

  function Initial(): State {
    State(Shared(map["" := Serving], map[]), map[], map[], map[])
  }

  /** Streams report their channel's value first of all, and then whenever it was sent to. */
  predicate Enabled(state: State, event: Event) {
    match event
    case InsertStatus(task, _, _) => task !in state.setters
    case Notify(task) => task in state.setters
    case Lookup(task, _) => task !in state.joiners && task !in state.watchers
    case Join(task) => task in state.joiners && task !in state.watchers
    case Report(task) =>
      task in state.watchers && HasChannel(state, task) &&
      state.watchers[task].seen != Some(ChannelOf(state, task).version)
    case Drop(task) => task in state.watchers && HasChannel(state, task)
  }

  predicate HasChannel(state: State, task: nat)
    requires task in state.watchers
  {
    state.watchers[task].service in state.shared.channels
  }

  function ChannelOf(state: State, task: nat): Channel
    requires task in state.watchers && HasChannel(state, task)
  {
    state.shared.channels[state.watchers[task].service]
  }

  function Step(state: State, event: Event): State
    requires Enabled(state, event)
  {
    var shared := state.shared;
    match event
    case InsertStatus(task, service, status) =>
      state.(shared := shared.Inserted(service, status), setters := state.setters[task := Setter(service, status)])
    case Notify(task) =>
      var setter := state.setters[task];
      state.(shared := shared.Notified(setter.service, setter.status), setters := state.setters - {task})
    case Lookup(task, service) =>
      state.(joiners := state.joiners[task := Joiner(service, shared.Lookup(service))])
    case Join(task) =>
      var joiner := state.joiners[task];
      state.(
        shared := shared.Joined(joiner.service, joiner.initial, task),
        joiners := state.joiners - {task},
        watchers := state.watchers[task := Watcher(joiner.service, None, [])])
    case Report(task) =>
      var watcher := state.watchers[task];
      var channel := ChannelOf(state, task);
      var reported := watcher.(seen := Some(channel.version), reports := watcher.reports + [channel.value]);
      state.(watchers := state.watchers[task := reported])
    case Drop(task) =>
      state.(shared := shared.Left(state.watchers[task].service, task), watchers := state.watchers - {task})
  }

  predicate Possible(state: State, events: seq<Event>)
    decreases events
  {
    events == [] || (Enabled(state, events[0]) && Possible(Step(state, events[0]), events[1..]))
  }

  function Run(state: State, events: seq<Event>): State
    requires Possible(state, events)
    decreases events
  {
    if events == [] then state else Run(Step(state, events[0]), events[1..])
  }

  // ---- What a watcher can see ------------------------------------------------------------------------

  ghost predicate Given(events: seq<Event>, service: string, status: ServingStatus) {
    exists i ::
      0 <= i < |events| && events[i].InsertStatus? && events[i].service == service && events[i].status == status
  }

  /** The status a service has before anybody sets it. */
  function BuiltIn(service: string): ServingStatus {
    if service == "" then Serving else ServiceUnknown
  }

  ghost predicate Known(given: (string, ServingStatus) -> bool, service: string, status: ServingStatus) {
    status == BuiltIn(service) || given(service, status)
  }

  /** Every status held for a service is built in or among the given ones. */
  ghost predicate Accounted(state: State, given: (string, ServingStatus) -> bool) {
    (forall s :: Known(given, s, state.shared.Check(s))) &&
    (forall s :: s in state.shared.channels ==> Known(given, s, state.shared.channels[s].value)) &&
    (forall t :: t in state.setters ==> given(state.setters[t].service, state.setters[t].status)) &&
    (forall t :: t in state.joiners ==> Known(given, state.joiners[t].service, InitialValue(state.joiners[t]))) &&
    (forall t, i :: t in state.watchers && 0 <= i < |state.watchers[t].reports| ==>
      Known(given, state.watchers[t].service, state.watchers[t].reports[i]))
  }

  function InitialValue(joiner: Joiner): ServingStatus {
    if joiner.initial.Some? then joiner.initial.value else ServiceUnknown
  }

  lemma StepIsAccounted(state: State, event: Event, given: (string, ServingStatus) -> bool)
    requires Accounted(state, given) && Enabled(state, event)
    requires event.InsertStatus? ==> given(event.service, event.status)
    ensures Accounted(Step(state, event), given)
  {
    var next := Step(state, event);
    forall s
      ensures Known(given, s, next.shared.Check(s))
    {
      assert Known(given, s, state.shared.Check(s));
    }
    forall s | s in next.shared.channels
      ensures Known(given, s, next.shared.channels[s].value)
    {
    }
    forall t | t in next.joiners
      ensures Known(given, next.joiners[t].service, InitialValue(next.joiners[t]))
    {
      var service := next.joiners[t].service;
      assert t !in state.joiners ==> InitialValue(next.joiners[t]) == state.shared.Check(service);
      assert Known(given, service, state.shared.Check(service));
    }
    forall t, i | t in next.watchers && 0 <= i < |next.watchers[t].reports|
      ensures Known(given, next.watchers[t].service, next.watchers[t].reports[i])
    {
      if t in state.watchers && i < |state.watchers[t].reports| {
        assert next.watchers[t].reports[i] == state.watchers[t].reports[i];
      }
    }
  }

  lemma {:induction false} RunIsAccounted(state: State, events: seq<Event>, given: (string, ServingStatus) -> bool)
    requires Accounted(state, given) && Possible(state, events)
    requires forall i :: 0 <= i < |events| && events[i].InsertStatus? ==> given(events[i].service, events[i].status)
    ensures Accounted(Run(state, events), given)
    decreases events
  {
    if events != [] {
      StepIsAccounted(state, events[0], given);
      RunIsAccounted(Step(state, events[0]), events[1..], given);
    }
  }

  /** In every run, all that Check answers and all that streams report was built in or set for that service. */
  lemma NothingIsInvented(events: seq<Event>, service: string)
    requires Possible(Initial(), events)
    ensures
      var end := Run(Initial(), events);
      var known := status => status == BuiltIn(service) || Given(events, service, status);
      known(end.shared.Check(service)) &&
      forall t, i :: t in end.watchers && end.watchers[t].service == service && 0 <= i < |end.watchers[t].reports| ==>
        known(end.watchers[t].reports[i])
  {
    var given := (s, status) => Given(events, s, status);
    RunIsAccounted(Initial(), events, given);
  }

  /** Before anything is set the server as a whole is serving, and every named service is unknown. */
  lemma InitiallyServing(service: string)
    ensures Initial().shared.Check(service) == if service == "" then Serving else ServiceUnknown
    ensures Initial().shared.channels == map[]
  {
  }

  // ---- When channel and table agree ------------------------------------------------------------------

  /** Nobody is half way through setting the service. */
  ghost predicate Unset(state: State, service: string) {
    forall t :: t in state.setters ==> state.setters[t].service != service
  }

  predicate SetsNot(event: Event, service: string) {
    !(event.InsertStatus? && event.service == service)
  }

  ghost predicate NoneSets(events: seq<Event>, service: string) {
    forall i :: 0 <= i < |events| ==> SetsNot(events[i], service)
  }

  ghost predicate OnlySetter(state: State, service: string, task: nat, status: ServingStatus) {
    task in state.setters && state.setters[task] == Setter(service, status) &&
    forall t :: t in state.setters && t != task ==> state.setters[t].service != service
  }

  /** Until the only call setting a service notifies, its status stands still. */
  lemma {:induction false} PendingKeeps(
    state: State, events: seq<Event>, service: string, task: nat, status: ServingStatus)
    requires Possible(state, events) && OnlySetter(state, service, task, status) && NoneSets(events, service)
    requires Notify(task) !in events
    ensures
      var end := Run(state, events);
      OnlySetter(end, service, task, status) && end.shared.Check(service) == state.shared.Check(service)
    decreases events
  {
    if events != [] {
      assert SetsNot(events[0], service);
      assert events[0] != Notify(task);
      PendingKeeps(Step(state, events[0]), events[1..], service, task, status);
    }
  }

  // ---- What a channel says ----------------------------------------------------------------------------

  /** What a step makes the channel say: a status that is heard, or what the stream that makes it looked up. */
  function Announces(state: State, event: Event, service: string): Option<ServingStatus>
    requires Enabled(state, event)
  {
    match event
    case Notify(task) =>
      var setter := state.setters[task];
      if setter.service == service && service in state.shared.channels && state.shared.channels[service].receivers != {}
      then Some(setter.status)
      else None
    case Join(task) =>
      var joiner := state.joiners[task];
      if joiner.service == service && service !in state.shared.channels then Some(InitialValue(joiner)) else None
    case _ => None
  }

  function LastAnnounced(state: State, events: seq<Event>, service: string): Option<ServingStatus>
    requires Possible(state, events)
    decreases events
  {
    if events == [] then None
    else
      var later := LastAnnounced(Step(state, events[0]), events[1..], service);
      if later.Some? then later else Announces(state, events[0], service)
  }

  function LastSet(events: seq<Event>, service: string): Option<ServingStatus> {
    if events == [] then None
    else
      var later := LastSet(events[1..], service);
      if later.Some? then later
      else if SetsNot(events[0], service) then None
      else Some(events[0].status)
  }

  /** In every run the channel says what was announced last, and Check answers what was set last. */
  lemma {:induction false} LastOnesCount(state: State, events: seq<Event>, service: string)
    requires Possible(state, events)
    ensures
      var end := Run(state, events).shared;
      var (said, given) := (LastAnnounced(state, events, service), LastSet(events, service));
      end.Check(service) == (if given.Some? then given.value else state.shared.Check(service)) &&
      (service in end.channels <==> service in state.shared.channels || said.Some?) &&
      (service in end.channels ==>
        end.channels[service].value == if said.Some? then said.value else state.shared.channels[service].value)
    decreases events
  {
    if events != [] {
      LastOnesCount(Step(state, events[0]), events[1..], service);
    }
  }

  lemma {:induction false} NothingSet(events: seq<Event>, service: string)
    ensures LastSet(events, service).None? <==> NoneSets(events, service)
  {
    if events != [] {
      NothingSet(events[1..], service);
      assert NoneSets(events, service) <==> SetsNot(events[0], service) && NoneSets(events[1..], service) by {
        assert forall i :: 0 < i < |events| ==> events[i] == events[1..][i - 1];
      }
    }
  }

  /** While nobody sets the service, a channel that is there says nothing new. */
  lemma {:induction false} QuietSaysNothing(state: State, events: seq<Event>, service: string)
    requires Possible(state, events) && Unset(state, service) && NoneSets(events, service)
    requires service in state.shared.channels
    ensures LastAnnounced(state, events, service).None?
    decreases events
  {
    if events != [] {
      assert SetsNot(events[0], service);
      QuietSaysNothing(Step(state, events[0]), events[1..], service);
    }
  }

  // ---- One setting and what becomes of it --------------------------------------------------------------

  /** A call that sets a status: what happens between its two steps, and what happens after them. */
  datatype Setting = Setting(task: nat, service: string, status: ServingStatus, during: seq<Event>, after: seq<Event>)
  {
    function Begin(): Event {
      InsertStatus(task, service, status)
    }

    function Events(): seq<Event> {
      [Begin()] + (during + ([Notify(task)] + after))
    }

    /** Nobody sets the service again; calls that have begun before may overlap with this one. */
    ghost predicate Last(before: State) {
      Enabled(before, Begin()) &&
      NoneSets(during, service) && NoneSets(after, service) && Notify(task) !in during &&
      Possible(Step(before, Begin()), during) &&
      var sending := Run(Step(before, Begin()), during);
      Enabled(sending, Notify(task)) && Possible(Step(sending, Notify(task)), after)
    }

    /** Nor has anybody else begun to. */
    ghost predicate Alone(before: State) {
      Last(before) && Unset(before, service)
    }

    /** The state in which the call is about to notify. */
    ghost function Sending(before: State): State
      requires Last(before)
    {
      Run(Step(before, Begin()), during)
    }

    ghost function Notified(before: State): State
      requires Last(before)
    {
      Step(Sending(before), Notify(task))
    }

    ghost function End(before: State): State
      requires Last(before)
    {
      Run(Notified(before), after)
    }

    /** What the channel says after the call's own step. */
    ghost function SaidAfter(before: State): Option<ServingStatus>
      requires Last(before)
    {
      LastAnnounced(Notified(before), after, service)
    }
  }

  /** A call stays half way through until it notifies. */
  lemma {:induction false} StaysPending(state: State, events: seq<Event>, task: nat)
    requires Possible(state, events) && task in state.setters && Notify(task) !in events
    ensures var end := Run(state, events); task in end.setters && end.setters[task] == state.setters[task]
    decreases events
  {
    if events != [] {
      assert events[0] != Notify(task);
      StaysPending(Step(state, events[0]), events[1..], task);
    }
  }

  /**
    * Settings of a service may overlap: behind the one that inserted last, Check answers its status, and
    * the channel says the same if and only if it also notified last and was heard, or whoever was heard
    * last announced an equal status.
    */
  lemma LastSettingDecides(before: State, call: Setting)
    requires call.Last(before)
    ensures
      var end := call.End(before).shared;
      end.Check(call.service) == call.status &&
      (call.service in end.channels ==>
        (end.channels[call.service].value == call.status <==>
          match call.SaidAfter(before)
          case Some(said) => said == call.status
          case None => call.Sending(before).shared.Hears(call.service, call.status)))
  {
    var begun, sending := Step(before, call.Begin()), call.Sending(before);
    NothingSet(call.during, call.service);
    NothingSet(call.after, call.service);
    LastOnesCount(begun, call.during, call.service);
    LastOnesCount(call.Notified(before), call.after, call.service);
    StaysPending(begun, call.during, call.task);
    assert sending.setters[call.task] == Setter(call.service, call.status);
  }

  lemma {:induction false} RunConcat(state: State, first: seq<Event>, second: seq<Event>)
    requires Possible(state, first + second)
    ensures Possible(state, first) && Possible(Run(state, first), second)
    ensures Run(state, first + second) == Run(Run(state, first), second)
    decreases first
  {
    if first == [] {
      assert first + second == second;
    } else {
      assert (first + second)[1..] == first[1..] + second;
      RunConcat(Step(state, first[0]), first[1..], second);
    }
  }

  lemma {:induction false} SplitAt(events: seq<Event>, event: Event) returns (front: seq<Event>, back: seq<Event>)
    requires event in events
    ensures events == front + ([event] + back) && event !in front
  {
    if events[0] == event {
      front, back := [], events[1..];
    } else {
      front, back := SplitAt(events[1..], event);
      front := [events[0]] + front;
    }
  }

  lemma NotifiesOnce(state: State, events: seq<Event>, task: nat)
    requires Possible(state, events) && task in state.setters && Unset(Run(state, events), state.setters[task].service)
    ensures Notify(task) in events
  {
    if Notify(task) !in events {
      StaysPending(state, events, task);
    }
  }

  /** A run that begins by setting the service, and ends with nobody half way through it, is a last setting. */
  lemma BeginsWithLast(state: State, events: seq<Event>, service: string) returns (call: Setting)
    requires Possible(state, events) && Unset(Run(state, events), service)
    requires events != [] && !SetsNot(events[0], service) && NoneSets(events[1..], service)
    ensures call.service == service && events == call.Events()
    ensures call.Last(state) && call.End(state) == Run(state, events)
  {
    var task, rest := events[0].task, events[1..];
    var begun := Step(state, events[0]);
    NotifiesOnce(begun, rest, task);
    var during, after := SplitAt(rest, Notify(task));
    NoneSetsParts(during, [Notify(task)] + after, service);
    NoneSetsParts([Notify(task)], after, service);
    call := Setting(task, service, events[0].status, during, after);
    assert events == [events[0]] + rest;
    RunConcat(begun, during, [Notify(task)] + after);
    RunConcat(Run(begun, during), [Notify(task)], after);
    assert [Notify(task)][1..] == [];
  }

  lemma NoneSetsParts(front: seq<Event>, back: seq<Event>, service: string)
    requires NoneSets(front + back, service)
    ensures NoneSets(front, service) && NoneSets(back, service)
  {
    assert forall i :: 0 <= i < |front| ==> front[i] == (front + back)[i];
    assert forall i :: 0 <= i < |back| ==> back[i] == (front + back)[|front| + i];
  }

  /** The run is `early` and then the last setting of the service. */
  ghost predicate Decomposes(state: State, events: seq<Event>, early: seq<Event>, call: Setting)
    requires Possible(state, events)
  {
    && events == early + call.Events()
    && Possible(state, early) && call.Last(Run(state, early)) && call.End(Run(state, early)) == Run(state, events)
  }

  lemma OneEarlier(state: State, events: seq<Event>, early: seq<Event>, call: Setting)
    requires events != [] && Possible(state, events) && Decomposes(Step(state, events[0]), events[1..], early, call)
    ensures Decomposes(state, events, [events[0]] + early, call)
  {
    InFront(events[0], early, call.Events());
  }

  lemma InFront(event: Event, first: seq<Event>, second: seq<Event>)
    ensures [event] + first + second == [event] + (first + second)
    ensures ([event] + first)[1..] == first
  {
  }

  /** So every run that sets a service, and finishes doing so, falls to `LastSettingDecides`. */
  lemma {:induction false} LastSettingExists(state: State, events: seq<Event>, service: string)
    returns (early: seq<Event>, call: Setting)
    requires Possible(state, events) && Unset(Run(state, events), service) && LastSet(events, service).Some?
    ensures call.service == service && Decomposes(state, events, early, call)
    decreases events
  {
    if LastSet(events[1..], service).None? {
      NothingSet(events[1..], service);
      call := BeginsWithLast(state, events, service);
      early := [];
      assert [] + call.Events() == call.Events();
    } else {
      early, call := LastSettingExists(Step(state, events[0]), events[1..], service);
      OneEarlier(state, events, early, call);
      early := [events[0]] + early;
    }
  }

  /** Everybody about to join has looked the status up since it was set. */
  ghost predicate JoinersKnow(state: State, service: string, status: ServingStatus) {
    forall t :: t in state.joiners && state.joiners[t].service == service ==> InitialValue(state.joiners[t]) == status
  }

  /** Joiners that have looked up what Check answers announce only that. */
  lemma {:induction false} KnownIsSaid(state: State, events: seq<Event>, service: string)
    requires Possible(state, events) && Unset(state, service) && NoneSets(events, service)
    requires JoinersKnow(state, service, state.shared.Check(service))
    ensures
      var said := LastAnnounced(state, events, service);
      said.Some? ==> said.value == state.shared.Check(service)
    decreases events
  {
    if events != [] {
      assert SetsNot(events[0], service);
      KnownIsSaid(Step(state, events[0]), events[1..], service);
    }
  }

  /**
    * A status set while nobody else sets that service is what Check answers until it is set again, and
    * the channel says the same exactly if the send was heard, or, without a channel to send on, if the
    * stream that makes one later looked that status up. A channel that missed it goes on disagreeing
    * however often new streams join it.
    */
  lemma SetIsSeen(before: State, call: Setting)
    requires call.Alone(before)
    ensures
      var sending, end := call.Sending(before).shared, call.End(before).shared;
      end.Check(call.service) == call.status &&
      (call.service in end.channels ==>
        (end.channels[call.service].value == call.status <==>
          if call.service in sending.channels then sending.Hears(call.service, call.status)
          else call.SaidAfter(before) == Some(call.status)))
    ensures
      JoinersKnow(call.Sending(before), call.service, call.status) ==>
        call.SaidAfter(before).None? || call.SaidAfter(before) == Some(call.status)
  {
    LastSettingDecides(before, call);
    PendingKeeps(Step(before, call.Begin()), call.during, call.service, call.task, call.status);
    var notified := call.Notified(before);
    if call.service in notified.shared.channels {
      QuietSaysNothing(notified, call.after, call.service);
    } else {
      LastOnesCount(notified, call.after, call.service);
    }
    if JoinersKnow(call.Sending(before), call.service, call.status) {
      KnownIsSaid(notified, call.after, call.service);
    }
  }

  // ---- Streams keep up --------------------------------------------------------------------------------

  /** A stream with nothing new to report has reported its channel's value last, and is listening. */
  ghost predicate UpToDate(state: State) {
    (forall t :: t in state.joiners ==> t !in state.watchers) &&
    forall t :: t in state.watchers ==>
      var watcher := state.watchers[t];
      HasChannel(state, t) && t in ChannelOf(state, t).receivers &&
      (watcher.seen.Some? ==>
        watcher.reports != [] && watcher.seen.value <= ChannelOf(state, t).version &&
        (watcher.seen.value == ChannelOf(state, t).version ==>
          watcher.reports[|watcher.reports| - 1] == ChannelOf(state, t).value))
  }

  lemma {:induction false} RunIsUpToDate(state: State, events: seq<Event>)
    requires UpToDate(state) && Possible(state, events)
    ensures UpToDate(Run(state, events))
    decreases events
  {
    if events != [] {
      StepIsUpToDate(state, events[0]);
      RunIsUpToDate(Step(state, events[0]), events[1..]);
    }
  }

  lemma StepIsUpToDate(state: State, event: Event)
    requires UpToDate(state) && Enabled(state, event)
    ensures UpToDate(Step(state, event))
  {
  }

  /** A report is made once: only a later send to the channel gives the stream something to say again. */
  lemma ReportsOncePerSend(state: State, task: nat, setter: nat)
    requires UpToDate(state) && Enabled(state, Report(task))
    ensures
      var reported := Step(state, Report(task));
      !Enabled(reported, Report(task)) &&
      (Enabled(reported, Notify(setter)) && state.setters[setter].service == state.watchers[task].service ==>
        Enabled(Step(reported, Notify(setter)), Report(task)))
  {
  }

  lemma AllIsUpToDate(before: State, call: Setting)
    requires UpToDate(before) && call.Alone(before)
    ensures UpToDate(call.Sending(before)) && UpToDate(call.End(before))
  {
    StepIsUpToDate(before, call.Begin());
    RunIsUpToDate(Step(before, call.Begin()), call.during);
    StepIsUpToDate(call.Sending(before), Notify(call.task));
    RunIsUpToDate(call.Notified(before), call.after);
  }

  /**
    * As soon as a stream that was listening when a status was set has nothing left to report, its
    * last report is that status, whatever happened to other services and streams.
    */
  lemma LastReportIsStatus(events: seq<Event>, call: Setting, w: nat)
    requires Possible(Initial(), events) && call.Alone(Run(Initial(), events))
    requires
      var sending := call.Sending(Run(Initial(), events));
      w in sending.watchers && sending.watchers[w].service == call.service
    ensures
      var end := call.End(Run(Initial(), events));
      w in end.watchers && end.watchers[w].service == call.service && !Enabled(end, Report(w)) ==>
        end.watchers[w].reports != [] && end.watchers[w].reports[|end.watchers[w].reports| - 1] == call.status
  {
    var before := Run(Initial(), events);
    RunIsUpToDate(Initial(), events);
    AllIsUpToDate(before, call);
    SetIsSeen(before, call);
  }

  // ---- Why the conditions are needed -------------------------------------------------------------------

  /** A stream that looked up before the setting and joins after it is told the service is unknown. */
  lemma StaleJoiner()
    ensures
      var events := [Lookup(1, "a"), InsertStatus(2, "a", Serving), Notify(2), Join(1), Report(1)];
      Possible(Initial(), events) &&
      var end := Run(Initial(), events);
      end.shared.Check("a") == Serving && 1 in end.watchers && end.watchers[1].reports == [ServiceUnknown]
  {
  }

  lemma {:induction false} RunMore(state: State, first: seq<Event>, second: seq<Event>)
    requires Possible(state, first) && Possible(Run(state, first), second)
    ensures Possible(state, first + second) && Run(state, first + second) == Run(Run(state, first), second)
    decreases first
  {
    if first == [] {
      assert first + second == second;
    } else {
      assert (first + second)[1..] == first[1..] + second;
      RunMore(Step(state, first[0]), first[1..], second);
    }
  }

  /** A watcher that has come and gone leaves a channel nobody listens to. */
  lemma DesertedChannel()
    ensures
      var events := [Lookup(1, "a"), Join(1), Drop(1)];
      Possible(Initial(), events) &&
      Run(Initial(), events)
        == Initial().(shared := Initial().shared.(channels := map["a" := Channel(ServiceUnknown, 0, {})]))
  {
    var s1 := Step(Initial(), Lookup(1, "a"));
    var s2 := Step(s1, Join(1));
    assert s2.joiners == map[] && s2.shared.channels == map["a" := Channel(ServiceUnknown, 0, {1})];
    var s3 := Step(s2, Drop(1));
    assert s3.watchers == map[] && {1} - {1} == {};
  }

  /** It misses the setting, and has its old value for the next stream. */
  lemma DeafChannel()
    ensures
      var events :=
        [Lookup(1, "a"), Join(1), Drop(1)] + [InsertStatus(2, "a", Serving), Notify(2), Lookup(3, "a"), Join(3)];
      Possible(Initial(), events) &&
      var end := Run(Initial(), events).shared;
      end.Check("a") == Serving && "a" in end.channels &&
      end.channels["a"].value == ServiceUnknown && 3 in end.channels["a"].receivers
  {
    DesertedChannel();
    RunMore(
      Initial(), [Lookup(1, "a"), Join(1), Drop(1)],
      [InsertStatus(2, "a", Serving), Notify(2), Lookup(3, "a"), Join(3)]);
  }

  /** A watcher that has joined listens to the service as it is. */
  lemma WatchedChannel()
    ensures
      var events := [Lookup(1, "a"), Join(1)];
      Possible(Initial(), events) &&
      var end := Run(Initial(), events);
      end.setters == map[] && end.shared.channels == map["a" := Channel(ServiceUnknown, 0, {1})]
  {
    var s1 := Step(Initial(), Lookup(1, "a"));
    assert Step(s1, Join(1)).shared.channels == map["a" := Channel(ServiceUnknown, 0, {1})];
  }

  /** Two settings that notify in the other order leave the channel with the earlier one. */
  lemma CrossedSetters()
    ensures
      var events :=
        [Lookup(1, "a"), Join(1)]
        + [InsertStatus(2, "a", Serving), InsertStatus(3, "a", NotServing), Notify(3), Notify(2)];
      Possible(Initial(), events) &&
      var end := Run(Initial(), events).shared;
      end.Check("a") == NotServing && "a" in end.channels && end.channels["a"].value == Serving
  {
    WatchedChannel();
    RunMore(
      Initial(), [Lookup(1, "a"), Join(1)],
      [InsertStatus(2, "a", Serving), InsertStatus(3, "a", NotServing), Notify(3), Notify(2)]);
  }
}
