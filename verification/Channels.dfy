/** Channels: numbered messages, at most one terminal message, and a table of channels with fresh ids. */
module Channels {
  import Decimal
  import opened IdLists
  import opened Results

  datatype Kind = Data | Error | End | Cancel

  datatype Message = Message(channel: string, sequence: nat, kind: Kind, payload: string)

  datatype Channel = Channel(id: string, nextSequence: nat, messages: seq<Message>, closed: bool, cancelled: bool)

  /** `resources` holds the open resource ids. `emitted` and `drained` are history: every message a
      channel ever emitted, and every message drained from it. */
  datatype Table = Table(
    nextResource: nat, resources: set<string>, channels: map<string, Channel>, order: seq<string>,
    emitted: map<string, seq<Message>>, drained: map<string, seq<Message>>)

  function ChannelId(n: nat): string {
    "channel-" + Decimal.Text(n)
  }

  predicate Terminal(kind: Kind) {
    kind == End || kind == Cancel
  }

  function NewTable(): Table {
    Table(1, {}, map[], [], map[], map[])
  }

  function Open(t: Table): (Table, string) {
    var id := ChannelId(t.nextResource);
    (t.(nextResource := t.nextResource + 1, resources := t.resources + {id},
        channels := t.channels[id := Channel(id, 1, [], false, false)], order := t.order + [id],
        emitted := t.emitted[id := []], drained := t.drained[id := []]), id)
  }

  function NextMessage(channel: Channel, kind: Kind, payload: string): Message {
    Message(channel.id, channel.nextSequence, kind, payload)
  }

  function After(channel: Channel, kind: Kind, payload: string): Channel {
    channel.(nextSequence := channel.nextSequence + 1,
             messages := channel.messages + [NextMessage(channel, kind, payload)],
             closed := channel.closed || kind == End, cancelled := channel.cancelled || kind == Cancel)
  }

  function NotFound(id: string): string {
    "channel not found: " + id
  }

  /** send, fail, end and cancel. */
  function Emit(t: Table, id: string, kind: Kind, payload: string): (Table, Result<Message, string>) {
    if id !in t.channels then (t, Err(NotFound(id)))
    else
      var channel := t.channels[id];
      if channel.closed || channel.cancelled then (t, Err("channel is closed: " + id))
      else
        var message := NextMessage(channel, kind, payload);
        (t.(channels := t.channels[id := After(channel, kind, payload)],
            emitted := t.emitted[id := Log(t.emitted, id) + [message]]), Ok(message))
  }

  function Log(m: map<string, seq<Message>>, id: string): seq<Message> {
    if id in m then m[id] else []
  }

  function Drain(t: Table, id: string): (Table, Result<seq<Message>, string>) {
    if id !in t.channels then (t, Err(NotFound(id)))
    else
      var channel := t.channels[id];
      (t.(channels := t.channels[id := channel.(messages := [])],
          drained := t.drained[id := Log(t.drained, id) + channel.messages]), Ok(channel.messages))
  }

  function Close(t: Table, id: string): (Table, Result<string, string>) {
    if id !in t.resources then (t, Err(NotFound(id)))
    else (t.(resources := t.resources - {id}, channels := t.channels - {id}, order := RemoveFirst(t.order, id)), Ok(id))
  }

  function CloseAll(t: Table): Table {
    t.(resources := {}, channels := map[], order := [])
  }

  datatype Event =
    | Opened
    | Emitted(id: string, kind: Kind, payload: string)
    | Drained(id: string)
    | Closed(id: string)
    | AllClosed

  function React(t: Table, event: Event): Table {
    match event
    case Opened => Open(t).0
    case Emitted(id, kind, payload) => Emit(t, id, kind, payload).0
    case Drained(id) => Drain(t, id).0
    case Closed(id) => Close(t, id).0
    case AllClosed => CloseAll(t)
  }

  function Run(events: seq<Event>): Table {
    if events == [] then NewTable() else React(Run(events[..|events| - 1]), events[|events| - 1])
  }

  // ----- what every run keeps -----

  /** Messages are numbered 1 to n for their channel, and only the last can be a terminal one. */
  ghost predicate Numbered(id: string, log: seq<Message>) {
    forall k :: 0 <= k < |log| ==>
      log[k].sequence == k + 1 && log[k].channel == id && (Terminal(log[k].kind) ==> k == |log| - 1)
  }

  ghost predicate EndsWith(log: seq<Message>, kind: Kind) {
    log != [] && log[|log| - 1].kind == kind
  }

  /** Drained and pending messages are exactly the emitted ones, in order; a channel is closed or
      cancelled exactly when it has emitted its end or cancel message. */
  ghost predicate History(channel: Channel, emitted: seq<Message>, drained: seq<Message>) {
    && emitted == drained + channel.messages
    && channel.nextSequence == |emitted| + 1
    && (channel.closed <==> EndsWith(emitted, End))
    && (channel.cancelled <==> EndsWith(emitted, Cancel))
  }

  ghost predicate Known(t: Table, id: string) {
    exists n: nat :: 1 <= n < t.nextResource && id == ChannelId(n)
  }

  ghost predicate Inv(t: Table) {
    && t.nextResource >= 1
    && t.resources == t.channels.Keys
    && NoDuplicates(t.order) && (forall id :: id in t.order <==> id in t.channels)
    && t.emitted.Keys == t.drained.Keys
    && (forall id :: id in t.emitted ==> Known(t, id) && Numbered(id, t.emitted[id]))
    && (forall id :: id in t.channels ==> id in t.emitted && t.channels[id].id == id)
    && (forall id :: id in t.channels ==> History(t.channels[id], t.emitted[id], t.drained[id]))
  }

  lemma FreshId(t: Table)
    requires Inv(t)
    ensures ChannelId(t.nextResource) !in t.emitted && ChannelId(t.nextResource) !in t.channels
  {
    var id := ChannelId(t.nextResource);
    if id in t.emitted {
      var n: nat :| 1 <= n < t.nextResource && id == ChannelId(n);
      Decimal.NamesInjective("channel-", n, t.nextResource);
    }
  }

  lemma OpenKeeps(t: Table)
    requires Inv(t)
    ensures Inv(Open(t).0) && Open(t).1 !in t.emitted
  {
    hide ChannelId, Known, Numbered, History, NoDuplicates;
    FreshId(t);
    var id := Open(t).1;
    var u := Open(t).0;
    NewIdKnown(t, u);
    AppendOrder(t.order, id);
    assert Numbered(id, []) && History(Channel(id, 1, [], false, false), [], []) by { NewChannel(id); }
  }

  lemma NewIdKnown(t: Table, u: Table)
    requires t.nextResource >= 1 && u.nextResource == t.nextResource + 1
    ensures Known(u, ChannelId(t.nextResource))
    ensures forall id :: Known(t, id) ==> Known(u, id)
  {
    hide ChannelId;
    assert 1 <= t.nextResource < u.nextResource;
    forall id | Known(t, id) ensures Known(u, id) {
      var n: nat :| 1 <= n < t.nextResource && id == ChannelId(n);
    }
  }

  lemma NewChannel(id: string)
    ensures Numbered(id, []) && History(Channel(id, 1, [], false, false), [], [])
  {}

  lemma EmittedKnown(t: Table, u: Table)
    requires Inv(t) && u.nextResource == t.nextResource
    ensures forall id :: id in t.emitted ==> Known(u, id)
  {
    forall id | id in t.emitted ensures Known(u, id) {
      assert Known(t, id);
      var n: nat :| 1 <= n < t.nextResource && id == ChannelId(n);
    }
  }

  lemma OneMore(channel: Channel, emitted: seq<Message>, drained: seq<Message>, kind: Kind, payload: string)
    requires History(channel, emitted, drained) && Numbered(channel.id, emitted)
    requires !channel.closed && !channel.cancelled
    ensures History(After(channel, kind, payload), emitted + [NextMessage(channel, kind, payload)], drained)
    ensures Numbered(channel.id, emitted + [NextMessage(channel, kind, payload)])
  {
    var message := NextMessage(channel, kind, payload);
    assert emitted + [message] == drained + (channel.messages + [message]);
    assert emitted != [] ==> !Terminal(emitted[|emitted| - 1].kind);
  }

  lemma EmitKeeps(t: Table, id: string, kind: Kind, payload: string)
    requires Inv(t)
    ensures Inv(Emit(t, id, kind, payload).0)
  {
    hide Known, History, Numbered, After;
    var u := Emit(t, id, kind, payload).0;
    EmittedKnown(t, u);
    if id in t.channels && !t.channels[id].closed && !t.channels[id].cancelled {
      OneMore(t.channels[id], t.emitted[id], t.drained[id], kind, payload);
      assert u.channels[id].id == id by { AfterId(t.channels[id], kind, payload); }
    }
  }

  lemma AfterId(channel: Channel, kind: Kind, payload: string)
    ensures After(channel, kind, payload).id == channel.id
  {}

  lemma DrainKeeps(t: Table, id: string)
    requires Inv(t)
    ensures Inv(Drain(t, id).0)
  {
    hide Known, Numbered;
    var u := Drain(t, id).0;
    EmittedKnown(t, u);
    if id in t.channels {
      var all := t.drained[id] + t.channels[id].messages;
      assert all + [] == all;
    }
  }

  lemma CloseKeeps(t: Table, id: string)
    requires Inv(t)
    ensures Inv(Close(t, id).0)
  {
    hide Known, History, Numbered, NoDuplicates, RemoveFirst;
    EmittedKnown(t, Close(t, id).0);
    RemoveFirstExact(t.order, id);
  }

  lemma CloseAllKeeps(t: Table)
    requires Inv(t)
    ensures Inv(CloseAll(t))
  {
    hide Known, History, Numbered;
    EmittedKnown(t, CloseAll(t));
  }

  /** Over every interleaving of opening, sending, failing, ending, cancelling, draining and closing. */
  lemma {:induction false} RunKeeps(events: seq<Event>)
    ensures Inv(Run(events))
    decreases |events|
  {
    hide Inv, Open, Emit, Drain, Close, CloseAll;
    if events == [] {
      StartHolds();
    } else {
      RunKeeps(events[..|events| - 1]);
      var t := Run(events[..|events| - 1]);
      match events[|events| - 1]
      case Opened => OpenKeeps(t);
      case Emitted(id, kind, payload) => EmitKeeps(t, id, kind, payload);
      case Drained(id) => DrainKeeps(t, id);
      case Closed(id) => CloseKeeps(t, id);
      case AllClosed => CloseAllKeeps(t);
    }
  }

  lemma StartHolds()
    ensures Inv(NewTable())
  {}

  /** A refusal names the channel, and says whether it is unknown or closed. */
  lemma RefusalsRead(t: Table, id: string, kind: Kind, payload: string)
    requires Inv(t)
    ensures id !in t.channels ==>
              && Emit(t, id, kind, payload).1 == Err("channel not found: " + id)
              && Drain(t, id).1 == Err("channel not found: " + id) && Close(t, id).1 == Err("channel not found: " + id)
    ensures id in t.channels ==>
              Emit(t, id, kind, payload).1.Ok? || Emit(t, id, kind, payload).1 == Err("channel is closed: " + id)
  {
    hide Known, History, Numbered, NoDuplicates;
  }

  /** Closing succeeds exactly for an open channel, and then takes that one out. */
  lemma CloseExact(t: Table, id: string)
    requires Inv(t)
    ensures var (u, r) := Close(t, id);
            && (r.Ok? <==> id in t.channels) && (r.Err? ==> u == t)
            && (r.Ok? ==>
                  && r.value == id && u.channels == t.channels - {id} && u.resources == t.resources - {id}
                  && id !in u.order && forall x :: x in t.order && x != id ==> x in u.order)
            && u.emitted == t.emitted && u.drained == t.drained && u.nextResource == t.nextResource
  {
    hide Known, History, Numbered, NoDuplicates, RemoveFirst;
    RemoveFirstExact(t.order, id);
  }

  /** The order list is the order of opening. */
  ghost predicate Rising(order: seq<string>) {
    forall i, j, m: nat, n: nat ::
      0 <= i < j < |order| && order[i] == ChannelId(m) && order[j] == ChannelId(n) ==> m < n
  }

  lemma AppendRising(t: Table)
    requires Inv(t) && Rising(t.order)
    ensures Rising(t.order + [ChannelId(t.nextResource)])
  {
    hide ChannelId, History, Numbered;
    var longer := t.order + [ChannelId(t.nextResource)];
    forall i, j, m: nat, n: nat | 0 <= i < j < |longer| && longer[i] == ChannelId(m) && longer[j] == ChannelId(n)
      ensures m < n
    {
      if j == |t.order| {
        assert t.order[i] in t.order && Known(t, t.order[i]);
        var k: nat :| 1 <= k < t.nextResource && t.order[i] == ChannelId(k);
        SameNumber(k, m);
        SameNumber(t.nextResource, n);
      }
    }
  }

  lemma SameNumber(n: nat, m: nat)
    ensures ChannelId(n) == ChannelId(m) ==> n == m
  {
    hide ChannelId;
    if n != m {
      NamesDiffer(n, m);
    }
  }

  lemma CutRising(order: seq<string>, id: string)
    requires Rising(order)
    ensures Rising(RemoveFirst(order, id))
  {
    hide ChannelId, RemoveFirst;
    if id in order {
      var k := FirstIndex(order, id);
      RemoveFirstCut(order, id, k);
      var shorter := order[..k] + order[k + 1..];
      assert forall i :: 0 <= i < |shorter| ==> shorter[i] == order[if i < k then i else i + 1];
    } else {
      RemoveAbsent(order, id);
    }
  }

  lemma {:induction false} FirstIndex(order: seq<string>, id: string) returns (k: nat)
    requires id in order
    ensures k < |order| && order[k] == id && id !in order[..k]
    decreases |order|
  {
    if order[0] == id {
      return 0;
    }
    k := FirstIndex(order[1..], id);
    k := k + 1;
    assert forall j :: 0 < j < k ==> order[..k][j] == order[1..][..k - 1][j - 1];
  }

  /** In every run the channels are listed in the order in which they were opened. */
  lemma {:induction false} ListedAsOpened(events: seq<Event>)
    ensures Rising(Run(events).order)
    decreases |events|
  {
    hide Inv, Rising, ChannelId, RemoveFirst, After;
    if events == [] {
      NothingListed();
    } else {
      var init, last := events[..|events| - 1], events[|events| - 1];
      ListedAsOpened(init);
      RunKeeps(init);
      match last
      case Opened => AppendRising(Run(init));
      case Closed(id) => CutRising(Run(init).order, id);
      case AllClosed => NothingListed();
      case _ =>
    }
  }

  lemma NothingListed()
    ensures Rising([])
  {}

  lemma CounterGrows(t: Table, event: Event)
    ensures React(t, event).nextResource == t.nextResource + if event.Opened? then 1 else 0
  {
    hide ChannelId, After, NextMessage, RemoveFirst;
  }

  lemma {:induction false} CounterOverRun(events: seq<Event>, i: nat)
    requires i <= |events|
    ensures Run(events[..i]).nextResource <= Run(events).nextResource
    decreases |events|
  {
    hide React;
    if i < |events| {
      var before := events[..|events| - 1];
      CounterOverRun(before, i);
      assert before[..i] == events[..i];
      CounterGrows(Run(before), events[|events| - 1]);
    } else {
      assert events[..i] == events;
    }
  }

  /** Two channels opened in one run never get the same id, whatever was closed in between. */
  lemma IdsNeverReused(events: seq<Event>, i: nat, j: nat)
    requires i < j < |events| && events[i].Opened? && events[j].Opened?
    ensures Open(Run(events[..i])).1 != Open(Run(events[..j])).1
  {
    hide React, Run, ChannelId;
    var t, u := Run(events[..i]), Run(events[..j]);
    assert Run(events[..i + 1]) == React(t, events[i]) by { RunUnfolds(events, i); }
    CounterGrows(t, events[i]);
    CounterOverRun(events[..j], i + 1);
    assert events[..j][..i + 1] == events[..i + 1];
    NamesDiffer(t.nextResource, u.nextResource);
  }

  lemma RunUnfolds(events: seq<Event>, i: nat)
    requires i < |events|
    ensures Run(events[..i + 1]) == React(Run(events[..i]), events[i])
  {
    hide React;
    assert events[..i + 1][..i] == events[..i];
  }

  lemma NamesDiffer(n: nat, m: nat)
    requires n != m
    ensures ChannelId(n) != ChannelId(m)
  {
    if ChannelId(n) == ChannelId(m) {
      Decimal.NamesInjective("channel-", n, m);
    }
  }

  /** Emission is refused exactly for an unknown channel or one that has emitted a terminal message. */
  lemma EmitRefusedExact(t: Table, id: string, kind: Kind, payload: string)
    requires Inv(t)
    ensures Emit(t, id, kind, payload).1.Err? <==>
            id !in t.channels || (t.emitted[id] != [] && Terminal(t.emitted[id][|t.emitted[id]| - 1].kind))
    ensures Emit(t, id, kind, payload).1.Err? ==> Emit(t, id, kind, payload).0 == t
  {
    hide Known, Numbered;
  }

  /** A message carries what it was sent with, under the next number of its channel. */
  lemma EmitExact(t: Table, id: string, kind: Kind, payload: string)
    requires Inv(t) && Emit(t, id, kind, payload).1.Ok?
    ensures var (u, r) := Emit(t, id, kind, payload);
            && r.value.kind == kind && r.value.payload == payload && r.value.channel == id
            && r.value.sequence == |t.emitted[id]| + 1
            && u.emitted[id] == t.emitted[id] + [r.value] && u.drained == t.drained
            && u.channels.Keys == t.channels.Keys
  {
    hide Known, Numbered;
  }

  /** Draining a known channel hands out exactly what it emitted and has not handed out before. */
  lemma DrainExact(t: Table, id: string)
    requires Inv(t)
    ensures var (u, r) := Drain(t, id);
            && (r.Ok? <==> id in t.channels)
            && (r.Ok? ==> t.drained[id] + r.value == t.emitted[id] == u.drained[id] && u.channels[id].messages == [])
            && u.emitted == t.emitted
  {
    hide Known, Numbered;
  }

  /** What the accepted emits of a channel returned, in a run. */
  function Sent(events: seq<Event>, id: string): seq<Message> {
    if events == [] then []
    else
      var init, last := events[..|events| - 1], events[|events| - 1];
      match last
      case Emitted(channel, kind, payload) =>
        var r := Emit(Run(init), channel, kind, payload).1;
        if channel == id && r.Ok? then Sent(init, id) + [r.value] else Sent(init, id)
      case _ => Sent(init, id)
  }

  /** What its accepted emits were called with. */
  function Asked(events: seq<Event>, id: string): seq<(Kind, string)> {
    if events == [] then []
    else
      var init, last := events[..|events| - 1], events[|events| - 1];
      match last
      case Emitted(channel, kind, payload) =>
        if channel == id && Emit(Run(init), channel, kind, payload).1.Ok? then Asked(init, id) + [(kind, payload)]
        else Asked(init, id)
      case _ => Asked(init, id)
  }

  /** What its drains returned, one after the other. */
  function Handed(events: seq<Event>, id: string): seq<Message> {
    if events == [] then []
    else
      var init, last := events[..|events| - 1], events[|events| - 1];
      match last
      case Drained(channel) =>
        var r := Drain(Run(init), channel).1;
        if channel == id && r.Ok? then Handed(init, id) + r.value else Handed(init, id)
      case _ => Handed(init, id)
  }

  /** Opening, draining and closing keep the histories, but for the two of a channel opened. */
  lemma HistoryFrame(t: Table, event: Event, id: string)
    requires Inv(t) && !event.Emitted? && !event.Drained?
    ensures var u := React(t, event);
            Log(u.emitted, id) == Log(t.emitted, id) && Log(u.drained, id) == Log(t.drained, id)
  {
    hide Known, History, Numbered, NoDuplicates, RemoveFirst, ChannelId;
    if event.Opened? {
      FreshId(t);
    }
  }

  lemma OtherHistories(t: Table, channel: string, kind: Kind, payload: string, id: string)
    requires Inv(t)
    ensures channel != id ==>
              var u, v := Emit(t, channel, kind, payload).0, Drain(t, channel).0;
              && Log(u.emitted, id) == Log(t.emitted, id) && Log(u.drained, id) == Log(t.drained, id)
              && Log(v.emitted, id) == Log(t.emitted, id) && Log(v.drained, id) == Log(t.drained, id)
  {
    hide Known, History, Numbered, NoDuplicates;
  }

  lemma {:induction false} RunRecords(events: seq<Event>, id: string)
    ensures Sent(events, id) == Log(Run(events).emitted, id) && Handed(events, id) == Log(Run(events).drained, id)
    ensures |Asked(events, id)| == |Sent(events, id)|
    ensures forall k :: 0 <= k < |Sent(events, id)| ==>
              Sent(events, id)[k].kind == Asked(events, id)[k].0 &&
                Sent(events, id)[k].payload == Asked(events, id)[k].1
    decreases |events|
  {
    hide Inv, Emit, Drain, Open, Close, CloseAll;
    if events != [] {
      var init, last := events[..|events| - 1], events[|events| - 1];
      RunRecords(init, id);
      RunKeeps(init);
      var t := Run(init);
      match last
      case Emitted(channel, kind, payload) =>
        EmitRecords(t, channel, kind, payload);
        OtherHistories(t, channel, kind, payload, id);
      case Drained(channel) =>
        DrainRecords(t, channel);
        OtherHistories(t, channel, Data, "", id);
      case _ => HistoryFrame(t, last, id);
    }
  }

  lemma EmitRecords(t: Table, id: string, kind: Kind, payload: string)
    requires Inv(t)
    ensures var (u, r) := Emit(t, id, kind, payload);
            && Log(u.emitted, id) == Log(t.emitted, id) + (if r.Ok? then [r.value] else [])
            && Log(u.drained, id) == Log(t.drained, id)
            && (r.Ok? ==> r.value.kind == kind && r.value.payload == payload)
  {
    hide Known, History, Numbered, NoDuplicates;
    assert Log(t.emitted, id) + [] == Log(t.emitted, id);
  }

  lemma DrainRecords(t: Table, id: string)
    requires Inv(t)
    ensures var (u, r) := Drain(t, id);
            && Log(u.drained, id) == Log(t.drained, id) + (if r.Ok? then r.value else [])
            && Log(u.emitted, id) == Log(t.emitted, id)
  {
    hide Known, History, Numbered, NoDuplicates;
    assert Log(t.drained, id) + [] == Log(t.drained, id);
  }

  /** Over every run, for every open channel: what its drains returned, one after the other, followed by what is
      pending, is what its accepted emits returned, each with the kind and payload it was called with. */
  lemma RunDelivers(events: seq<Event>, id: string)
    requires id in Run(events).channels
    ensures Handed(events, id) + Run(events).channels[id].messages == Sent(events, id)
    ensures |Asked(events, id)| == |Sent(events, id)|
    ensures forall k :: 0 <= k < |Sent(events, id)| ==>
              var m, asked := Sent(events, id)[k], Asked(events, id)[k];
              m == Message(id, k + 1, asked.0, asked.1)
  {
    hide Run, Sent, Asked, Handed, Known;
    RunKeeps(events);
    RunRecords(events, id);
  }

  /** Emitting on and draining one channel leaves every other channel alone. */
  lemma OtherChannelsKeep(t: Table, id: string, other: string, kind: Kind, payload: string)
    requires other != id && other in t.channels
    ensures Emit(t, id, kind, payload).0.channels[other] == t.channels[other] == Drain(t, id).0.channels[other]
    ensures id in t.resources ==>
              other in Close(t, id).0.channels && Close(t, id).0.channels[other] == t.channels[other]
  {
    hide RemoveFirst, After;
  }

  // ----- the mutable table -----

  class ChannelTable {
    var nextResource: nat
    var resources: set<string>
    var channels: map<string, Channel>
    var order: seq<string>
    ghost var emitted: map<string, seq<Message>>
    ghost var drained: map<string, seq<Message>>

    ghost function State(): Table
      reads this
    {
      Table(nextResource, resources, channels, order, emitted, drained)
    }

    constructor ()
      ensures State() == NewTable()
    {
      nextResource, resources, channels, order := 1, {}, map[], [];
      emitted, drained := map[], map[];
    }

    method OpenChannel() returns (id: string)
      modifies this
      ensures (State(), id) == Open(old(State()))
    {
      id := ChannelId(nextResource);
      nextResource := nextResource + 1;
      resources := resources + {id};
      channels := channels[id := Channel(id, 1, [], false, false)];
      order := order + [id];
      emitted, drained := emitted[id := []], drained[id := []];
    }

    method EmitData(id: string, kind: Kind, payload: string) returns (r: Result<Message, string>)
      requires !Terminal(kind)
      modifies this
      ensures (State(), r) == Emit(old(State()), id, kind, payload)
    {
      if id !in channels {
        return Err(NotFound(id));
      }
      var channel := channels[id];
      if channel.closed || channel.cancelled {
        return Err("channel is closed: " + id);
      }
      var message := NextMessage(channel, kind, payload);
      channel := channel.(nextSequence := channel.nextSequence + 1, messages := channel.messages + [message]);
      channels := channels[id := channel];
      emitted := emitted[id := Log(emitted, id) + [message]];
      return Ok(message);
    }

    method EmitTerminal(id: string, kind: Kind) returns (r: Result<Message, string>)
      requires Terminal(kind)
      modifies this
      ensures (State(), r) == Emit(old(State()), id, kind, "")
    {
      if id !in channels {
        return Err(NotFound(id));
      }
      var channel := channels[id];
      if channel.closed || channel.cancelled {
        return Err("channel is closed: " + id);
      }
      var message := NextMessage(channel, kind, "");
      channel := channel.(nextSequence := channel.nextSequence + 1, messages := channel.messages + [message]);
      var terminal := if kind == Cancel then channel.(cancelled := true) else channel.(closed := true);
      channels := channels[id := terminal];
      emitted := emitted[id := Log(emitted, id) + [message]];
      return Ok(message);
    }

    method DrainChannel(id: string) returns (r: Result<seq<Message>, string>)
      modifies this
      ensures (State(), r) == Drain(old(State()), id)
    {
      if id !in channels {
        return Err(NotFound(id));
      }
      var channel := channels[id];
      channels := channels[id := channel.(messages := [])];
      drained := drained[id := Log(drained, id) + channel.messages];
      return Ok(channel.messages);
    }

    method CloseChannel(id: string) returns (r: Result<string, string>)
      modifies this
      ensures (State(), r) == Close(old(State()), id)
    {
      if id !in resources {
        return Err(NotFound(id));
      }
      resources := resources - {id};
      channels := channels - {id};
      RemoveOrderedId(id);
      return Ok(id);
    }

    method RemoveOrderedId(id: string)
      modifies this`order
      ensures order == RemoveFirst(old(order), id)
    {
      order := Remove(order, id);
    }

    method CloseAllChannels()
      modifies this
      ensures State() == CloseAll(old(State()))
    {
      channels := map[];
      order := [];
      resources := {};
    }
  }
}
