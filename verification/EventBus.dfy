/** The event bus: a map of listeners and an order list, proved to be one ordered list of listeners. */
module EventBus {
  import Decimal
  import opened IdLists
  import opened Results

  datatype Target = App | Window(name: string) | Webview(name: string)

  datatype Listener = Listener(id: string, name: string, target: Target, once: bool)

  datatype Event = Event(name: string, payload: string)

  datatype Delivery = Delivery(listener: string, target: Target, event: Event)

  /** `fired` is history: every listener an emit has ever delivered to, in order. */
  datatype Bus = Bus(next: nat, listeners: map<string, Listener>, order: seq<string>, fired: seq<Listener>)

  function ListenerId(n: nat): string {
    "listener-" + Decimal.Text(n)
  }

  function EventProblems(name: string): seq<string> {
    if name == "" then ["event name is required"] else []
  }

  function TargetProblems(target: Target): seq<string> {
    match target
    case App => []
    case Window(name) => if name == "" then ["event target window label is required"] else []
    case Webview(name) => if name == "" then ["event target webview label is required"] else []
  }

  function Problems(name: string, target: Target): seq<string> {
    EventProblems(name) + TargetProblems(target)
  }

  predicate Accepts(listener: Target, emitted: Target) {
    emitted == App || listener == App || listener == emitted
  }

  predicate Hears(listener: Listener, event: Event, target: Target) {
    listener.name == event.name && Accepts(listener.target, target)
  }

  function NewBus(): Bus {
    Bus(1, map[], [], [])
  }

  /** The listeners in registration order. */
  function Listeners(listeners: map<string, Listener>, order: seq<string>): seq<Listener> {
    if order == [] then []
    else (if order[0] in listeners then [listeners[order[0]]] else []) + Listeners(listeners, order[1..])
  }

  function All(b: Bus): seq<Listener> {
    Listeners(b.listeners, b.order)
  }

  function Listen(b: Bus, name: string, target: Target, once: bool): (Bus, Result<Listener, seq<string>>) {
    if Problems(name, target) != [] then (b, Err(Problems(name, target)))
    else
      var listener := Listener(ListenerId(b.next), name, target, once);
      (b.(next := b.next + 1, listeners := b.listeners[listener.id := listener], order := b.order + [listener.id]),
       Ok(listener))
  }

  function Unlisten(b: Bus, id: string): (Bus, Result<Listener, string>) {
    if id !in b.listeners then (b, Err("event listener not found: " + id))
    else (b.(listeners := b.listeners - {id}, order := RemoveFirst(b.order, id)), Ok(b.listeners[id]))
  }

  function UnlistenAll(b: Bus, ids: seq<string>): Bus
    decreases |ids|
  {
    if ids == [] then b else UnlistenAll(Unlisten(b, ids[0]).0, ids[1..])
  }

  /** The listeners of a snapshot that hear the event. */
  function Heard(all: seq<Listener>, event: Event, target: Target): seq<Listener> {
    if all == [] then [] else (if Hears(all[0], event, target) then [all[0]] else []) + Heard(all[1..], event, target)
  }

  function OnceIds(heard: seq<Listener>): seq<string> {
    if heard == [] then [] else (if heard[0].once then [heard[0].id] else []) + OnceIds(heard[1..])
  }

  function Deliveries(heard: seq<Listener>, event: Event, target: Target): (r: seq<Delivery>)
    ensures |r| == |heard| && forall i :: 0 <= i < |r| ==> r[i] == Delivery(heard[i].id, target, event)
  {
    seq(|heard|, i requires 0 <= i < |heard| => Delivery(heard[i].id, target, event))
  }

  function Emit(b: Bus, event: Event, target: Target): (Bus, Result<seq<Delivery>, seq<string>>) {
    if Problems(event.name, target) != [] then (b, Err(Problems(event.name, target)))
    else
      var heard := Heard(All(b), event, target);
      (UnlistenAll(b, OnceIds(heard)).(fired := b.fired + heard), Ok(Deliveries(heard, event, target)))
  }

  function TargetIds(all: seq<Listener>, target: Target): seq<string> {
    if all == [] then [] else (if all[0].target == target then [all[0].id] else []) + TargetIds(all[1..], target)
  }

  function RemoveTarget(b: Bus, target: Target): Bus {
    UnlistenAll(b, TargetIds(All(b), target))
  }

  function Clear(b: Bus): Bus {
    b.(listeners := map[], order := [])
  }

  // ----- map and order list are one list -----

  ghost predicate Known(next: nat, id: string) {
    exists n: nat :: 1 <= n < next && id == ListenerId(n)
  }

  /** Map and order list agree without duplicates; every id was given out once; and a listener for one
      event that is still registered has never fired, nor has any fired twice. */
  ghost predicate Inv(b: Bus) {
    && b.next >= 1
    && NoDuplicates(b.order) && (forall id :: id in b.order <==> id in b.listeners)
    && (forall id :: id in b.listeners ==> b.listeners[id].id == id && Known(b.next, id))
    && (forall k :: 0 <= k < |b.fired| ==> Known(b.next, b.fired[k].id))
    && (forall k :: 0 <= k < |b.fired| && b.fired[k].once ==> b.fired[k].id !in b.listeners)
    && (forall i, j :: 0 <= i < j < |b.fired| && b.fired[i].once ==> b.fired[i].id != b.fired[j].id)
  }

  ghost predicate Agree(listeners: map<string, Listener>, order: seq<string>) {
    NoDuplicates(order) && forall id :: id in order ==> id in listeners && listeners[id].id == id
  }

  lemma {:induction false} ListenersExact(listeners: map<string, Listener>, order: seq<string>)
    requires Agree(listeners, order)
    ensures |Listeners(listeners, order)| == |order|
    ensures forall i :: 0 <= i < |order| ==> Listeners(listeners, order)[i] == listeners[order[i]]
    decreases |order|
  {
    if order != [] {
      assert order == [order[0]] + order[1..];
      ListenersExact(listeners, order[1..]);
    }
  }

  /** Dropping a listener by id. */
  function Without(all: seq<Listener>, id: string): seq<Listener> {
    if all == [] then [] else (if all[0].id == id then [] else [all[0]]) + Without(all[1..], id)
  }

  lemma {:induction false} RemoveIsWithout(listeners: map<string, Listener>, order: seq<string>, id: string)
    requires Agree(listeners, order)
    ensures Listeners(listeners - {id}, RemoveFirst(order, id)) == Without(Listeners(listeners, order), id)
    decreases |order|
  {
    if order != [] {
      assert order == [order[0]] + order[1..];
      if order[0] == id {
        NotThere(listeners, order[1..], id);
      } else {
        RemoveIsWithout(listeners, order[1..], id);
        var more := [order[0]] + RemoveFirst(order[1..], id);
        assert more[1..] == RemoveFirst(order[1..], id);
      }
    }
  }

  lemma {:induction false} NotThere(listeners: map<string, Listener>, order: seq<string>, id: string)
    requires Agree(listeners, order) && id !in order
    ensures Listeners(listeners - {id}, order) == Listeners(listeners, order) ==
            Without(Listeners(listeners, order), id)
    decreases |order|
  {
    if order != [] {
      assert order == [order[0]] + order[1..];
      NotThere(listeners, order[1..], id);
      var rest := Listeners(listeners, order[1..]);
      assert Listeners(listeners, order) == [listeners[order[0]]] + rest;
      assert ([listeners[order[0]]] + rest)[1..] == rest;
    }
  }

  lemma AgreeAll(b: Bus)
    requires Inv(b)
    ensures Agree(b.listeners, b.order)
    ensures |All(b)| == |b.order| && forall i :: 0 <= i < |b.order| ==> All(b)[i] == b.listeners[b.order[i]]
    ensures forall x :: x in All(b) ==> x.id in b.listeners && b.listeners[x.id] == x
    ensures DistinctIds(All(b))
  {
    hide Known;
    ListenersExact(b.listeners, b.order);
  }

  lemma FreshId(b: Bus)
    requires Inv(b)
    ensures ListenerId(b.next) !in b.listeners
    ensures forall k :: 0 <= k < |b.fired| ==> b.fired[k].id != ListenerId(b.next)
    ensures Known(b.next + 1, ListenerId(b.next))
    ensures forall id :: Known(b.next, id) ==> Known(b.next + 1, id)
  {
    hide ListenerId, NoDuplicates;
    assert 1 <= b.next < b.next + 1;
    forall id | Known(b.next, id) ensures Known(b.next + 1, id) && id != ListenerId(b.next) {
      var n: nat :| 1 <= n < b.next && id == ListenerId(n);
      if id == ListenerId(b.next) {
        IdsDiffer(n, b.next);
      }
    }
  }

  lemma IdsDiffer(m: nat, n: nat)
    requires ListenerId(m) == ListenerId(n)
    ensures m == n
  {
    Decimal.NamesInjective("listener-", m, n);
  }

  lemma {:induction false} ListenersAppend(listeners: map<string, Listener>, order: seq<string>, listener: Listener)
    requires Agree(listeners, order) && listener.id !in order
    ensures Listeners(listeners[listener.id := listener], order + [listener.id]) == Listeners(listeners, order) +
            [listener]
    decreases |order|
  {
    if order == [] {
      assert [listener.id][1..] == [];
      assert order + [listener.id] == [listener.id];
    } else {
      assert order == [order[0]] + order[1..];
      ListenersAppend(listeners, order[1..], listener);
      assert (order + [listener.id])[1..] == order[1..] + [listener.id];
    }
  }

  /** A new listener goes to the end of the list, under an id never given out before. */
  lemma ListenExact(b: Bus, name: string, target: Target, once: bool)
    requires Inv(b)
    ensures var (c, r) := Listen(b, name, target, once);
            && Inv(c)
            && (r.Ok? <==> Problems(name, target) == [])
            && (r.Ok? ==> All(c) == All(b) + [r.value] && r.value.id !in b.listeners)
            && (r.Ok? ==> r.value.name == name && r.value.target == target && r.value.once == once)
            && (r.Err? ==> c == b)
  {
    hide Known, ListenerId, NoDuplicates, Problems;
    if Problems(name, target) == [] {
      FreshId(b);
      AgreeAll(b);
      var listener := Listener(ListenerId(b.next), name, target, once);
      ListenersAppend(b.listeners, b.order, listener);
      AppendOrder(b.order, listener.id);
    }
  }

  lemma UnlistenExact(b: Bus, id: string)
    requires Inv(b)
    ensures var (c, r) := Unlisten(b, id);
            && Inv(c) && All(c) == Without(All(b), id) && c.listeners == b.listeners - {id}
            && c.fired == b.fired && c.next == b.next
            && (r == if id in b.listeners then Ok(b.listeners[id]) else Err("event listener not found: " + id))
  {
    hide Known, NoDuplicates, RemoveFirst, Without, Listeners, Inv;
    UnlistenKeeps(b, id);
    AgreeAll(b);
    if id in b.listeners {
      RemoveIsWithout(b.listeners, b.order, id);
    } else {
      assert id !in b.order by { OrderExact(b); }
      NotThere(b.listeners, b.order, id);
      assert b.listeners - {id} == b.listeners;
    }
  }

  lemma OrderExact(b: Bus)
    requires Inv(b)
    ensures forall id :: id in b.order <==> id in b.listeners
  {
    hide Known, NoDuplicates;
  }

  lemma UnlistenKeeps(b: Bus, id: string)
    requires Inv(b)
    ensures Inv(Unlisten(b, id).0)
  {
    hide Known, NoDuplicates, RemoveFirst;
    RemoveFirstExact(b.order, id);
  }

  function WithoutAll(all: seq<Listener>, ids: seq<string>): seq<Listener>
    decreases |ids|
  {
    if ids == [] then all else WithoutAll(Without(all, ids[0]), ids[1..])
  }

  lemma {:induction false} UnlistenAllExact(b: Bus, ids: seq<string>)
    requires Inv(b)
    ensures var c := UnlistenAll(b, ids);
            && Inv(c) && All(c) == WithoutAll(All(b), ids) && c.fired == b.fired && c.next == b.next
            && c.listeners.Keys == b.listeners.Keys - (set id | id in ids)
            && forall id :: id in c.listeners ==> c.listeners[id] == b.listeners[id]
    decreases |ids|
  {
    hide Inv, Unlisten, All;
    if ids != [] {
      UnlistenExact(b, ids[0]);
      UnlistenAllExact(Unlisten(b, ids[0]).0, ids[1..]);
      assert ids == [ids[0]] + ids[1..];
    }
  }

  // ----- what the snapshot loops leave -----

  /** The listeners whose id is not listed. */
  function Keep(all: seq<Listener>, ids: set<string>): seq<Listener> {
    if all == [] then [] else (if all[0].id in ids then [] else [all[0]]) + Keep(all[1..], ids)
  }

  lemma {:induction false} WithoutIsKeep(all: seq<Listener>, id: string, ids: set<string>)
    ensures Keep(Without(all, id), ids) == Keep(all, {id} + ids)
    decreases |all|
  {
    if all != [] {
      WithoutIsKeep(all[1..], id, ids);
      var rest := Without(all[1..], id);
      if all[0].id != id {
        assert ([all[0]] + rest)[1..] == rest;
      } else {
        assert [] + rest == rest;
      }
    }
  }

  lemma {:induction false} KeepNone(all: seq<Listener>)
    ensures Keep(all, {}) == all
    decreases |all|
  {
    if all != [] {
      KeepNone(all[1..]);
      assert [all[0]] + all[1..] == all;
    }
  }

  lemma {:induction false} WithoutAllIsKeep(all: seq<Listener>, ids: seq<string>)
    ensures WithoutAll(all, ids) == Keep(all, set id | id in ids)
    decreases |ids|
  {
    hide Keep, Without;
    if ids == [] {
      KeepNone(all);
      assert (set id | id in ids) == {};
    } else {
      WithoutAllIsKeep(Without(all, ids[0]), ids[1..]);
      WithoutIsKeep(all, ids[0], set id | id in ids[1..]);
      assert ids == [ids[0]] + ids[1..];
      assert (set id | id in ids) == {ids[0]} + set id | id in ids[1..];
    }
  }

  lemma {:induction false} HeardExact(all: seq<Listener>, event: Event, target: Target)
    ensures forall x :: x in Heard(all, event, target) <==> x in all && Hears(x, event, target)
    decreases |all|
  {
    if all != [] {
      HeardExact(all[1..], event, target);
      assert all == [all[0]] + all[1..];
    }
  }

  ghost predicate DistinctIds(all: seq<Listener>) {
    forall i, j :: 0 <= i < j < |all| ==> all[i].id != all[j].id
  }

  lemma {:induction false} HeardDistinct(all: seq<Listener>, event: Event, target: Target)
    requires DistinctIds(all)
    ensures DistinctIds(Heard(all, event, target))
    decreases |all|
  {
    hide DistinctIds, Hears;
    if all == [] {
      NothingRepeats();
    } else {
      var rest := Heard(all[1..], event, target);
      SplitDistinct(all);
      HeardDistinct(all[1..], event, target);
      HeardExact(all[1..], event, target);
      if Hears(all[0], event, target) {
        assert forall i :: 0 <= i < |rest| ==> rest[i] in rest;
        Prepend(all[0], rest);
      } else {
        assert [] + rest == rest;
      }
    }
  }

  lemma NothingRepeats()
    ensures DistinctIds([])
  {}

  lemma SplitDistinct(all: seq<Listener>)
    requires DistinctIds(all) && all != []
    ensures DistinctIds(all[1..])
    ensures forall x :: x in all[1..] ==> x.id != all[0].id
  {}

  lemma Prepend(first: Listener, rest: seq<Listener>)
    requires DistinctIds(rest)
    requires forall i :: 0 <= i < |rest| ==> rest[i].id != first.id
    ensures DistinctIds([first] + rest)
  {}

  lemma {:induction false} OnceIdsExact(heard: seq<Listener>)
    ensures forall id :: id in OnceIds(heard) <==> exists i :: 0 <= i < |heard| && heard[i].once && heard[i].id == id
    decreases |heard|
  {
    if heard != [] {
      OnceIdsExact(heard[1..]);
      var rest := heard[1..];
      forall id ensures id in OnceIds(heard) <==> exists i :: 0 <= i < |heard| && heard[i].once && heard[i].id == id {
        if id in OnceIds(rest) {
          var i :| 0 <= i < |rest| && rest[i].once && rest[i].id == id;
          assert heard[i + 1].once && heard[i + 1].id == id;
        }
        if exists i :: 0 <= i < |heard| && heard[i].once && heard[i].id == id {
          var i :| 0 <= i < |heard| && heard[i].once && heard[i].id == id;
          assert i > 0 ==> rest[i - 1].once && rest[i - 1].id == id;
        }
      }
    }
  }

  lemma CollectNothing(event: Event, target: Target)
    ensures Heard([], event, target) == [] && OnceIds([]) == [] && Deliveries([], event, target) == []
  {}

  lemma HeardStep(all: seq<Listener>, i: nat, event: Event, target: Target)
    requires i < |all|
    ensures var rest := Heard(all[i + 1..], event, target);
            Heard(all[i..], event, target) == if Hears(all[i], event, target) then [all[i]] + rest else rest
  {
    hide Hears;
    assert all[i..][1..] == all[i + 1..];
  }

  lemma DeliveriesAppend(heard: seq<Listener>, listener: Listener, event: Event, target: Target)
    ensures Deliveries(heard + [listener], event, target) == Deliveries(heard, event, target) +
            [Delivery(listener.id, target, event)]
  {
    hide Deliveries;
  }

  lemma ListenersStep(listeners: map<string, Listener>, order: seq<string>, i: nat)
    requires i < |order|
    ensures var rest := Listeners(listeners, order[i + 1..]);
            Listeners(listeners, order[i..]) == if order[i] in listeners then [listeners[order[i]]] + rest else rest
  {
    assert order[i..][1..] == order[i + 1..];
  }

  lemma NobodyListed(listeners: map<string, Listener>)
    ensures Listeners(listeners, []) == []
  {}

  lemma {:induction false} OnceIdsAppend(heard: seq<Listener>, listener: Listener)
    ensures OnceIds(heard + [listener]) == OnceIds(heard) + (if listener.once then [listener.id] else [])
    decreases |heard|
  {
    if heard == [] {
      assert heard + [listener] == [listener] && [listener][1..] == [];
    } else {
      OnceIdsAppend(heard[1..], listener);
      assert (heard + [listener])[1..] == heard[1..] + [listener];
    }
  }

  /** Emit delivers to exactly the matching listeners, in registration order, and then drops those of
      them that are for one event only; all others stay, in their order. */
  lemma EmitExact(b: Bus, event: Event, target: Target)
    requires Inv(b)
    ensures var (c, r) := Emit(b, event, target);
            && Inv(c)
            && (r.Err? <==> Problems(event.name, target) != []) && (r.Err? ==> c == b)
            && (r.Ok? ==>
                  var heard := Heard(All(b), event, target);
                  && r.value == Deliveries(heard, event, target)
                  && All(c) == Keep(All(b), set id | id in OnceIds(heard))
                  && c.fired == b.fired + heard)
  {
    hide Inv, All, Heard, OnceIds, Problems, UnlistenAll, Keep, WithoutAll;
    if Problems(event.name, target) == [] {
      var heard := Heard(All(b), event, target);
      UnlistenAllExact(b, OnceIds(heard));
      WithoutAllIsKeep(All(b), OnceIds(heard));
      FiredKeeps(b, UnlistenAll(b, OnceIds(heard)), event, target);
      SameList(UnlistenAll(b, OnceIds(heard)), b.fired + heard);
    }
  }

  lemma SameList(b: Bus, fired: seq<Listener>)
    ensures All(b.(fired := fired)) == All(b)
  {}

  /** No listener for one event fires again: those heard now had never fired, and are gone afterwards. */
  lemma FiredKeeps(b: Bus, c: Bus, event: Event, target: Target)
    requires Inv(b) && Inv(c) && c.fired == b.fired && c.next == b.next
    requires c.listeners.Keys == b.listeners.Keys - (set id | id in OnceIds(Heard(All(b), event, target)))
    ensures Inv(c.(fired := b.fired + Heard(All(b), event, target)))
  {
    hide Known, NoDuplicates, All, Heard, OnceIds;
    var heard := Heard(All(b), event, target);
    HeardRegistered(b, event, target);
    OnceIdsExact(heard);
    assert forall k :: 0 <= k < |heard| && heard[k].once ==> heard[k].id !in c.listeners;
    FiredAppend(b, c, heard);
  }

  lemma HeardRegistered(b: Bus, event: Event, target: Target)
    requires Inv(b)
    ensures var heard := Heard(All(b), event, target);
            && (forall k :: 0 <= k < |heard| ==> heard[k].id in b.listeners)
            && DistinctIds(heard)
  {
    hide Inv, All, Heard;
    var heard := Heard(All(b), event, target);
    AgreeAll(b);
    HeardExact(All(b), event, target);
    HeardDistinct(All(b), event, target);
    assert forall k :: 0 <= k < |heard| ==> heard[k] in heard;
  }

  lemma FiredAppend(b: Bus, c: Bus, heard: seq<Listener>)
    requires Inv(b) && Inv(c) && c.fired == b.fired && c.next == b.next
    requires forall k :: 0 <= k < |heard| ==> heard[k].id in b.listeners
    requires forall k :: 0 <= k < |heard| && heard[k].once ==> heard[k].id !in c.listeners
    requires DistinctIds(heard)
    ensures Inv(c.(fired := b.fired + heard))
  {
    hide Known, NoDuplicates;
    var fired := b.fired + heard;
    assert forall k :: 0 <= k < |heard| ==> Known(c.next, heard[k].id) by {
      SameKnown(b.next, c.next, heard, b);
    }
    forall i, j | 0 <= i < j < |fired| && fired[i].once ensures fired[i].id != fired[j].id {
      if |b.fired| <= j {
        assert fired[j] == heard[j - |b.fired|];
        assert i < |b.fired| ==> b.fired[i].id !in b.listeners;
        assert i >= |b.fired| ==> fired[i] == heard[i - |b.fired|];
      }
    }
  }

  lemma SameKnown(before: nat, after: nat, heard: seq<Listener>, b: Bus)
    requires Inv(b) && before == after == b.next
    requires forall k :: 0 <= k < |heard| ==> heard[k].id in b.listeners
    ensures forall k :: 0 <= k < |heard| ==> Known(after, heard[k].id)
  {
    hide Known, NoDuplicates;
  }

  // ----- emitting and registering, in terms of names and targets -----

  /** An event for the application reaches every listener with its name; another one those of its own target
      and those of the application. */
  ghost predicate Reaches(event: Event, target: Target, x: Listener) {
    x.name == event.name && (target == App || x.target == App || x.target == target)
  }

  /** A listener gets the event exactly when it reaches it, and is registered afterwards unless it got it and
      is for one event only. */
  lemma EmitReaches(b: Bus, event: Event, target: Target, x: Listener)
    requires Inv(b) && x in All(b) && Emit(b, event, target).1.Ok?
    ensures var (c, r) := Emit(b, event, target);
            && (Delivery(x.id, target, event) in r.value <==> Reaches(event, target, x))
            && (forall d :: d in r.value ==> d.event == event && d.target == target)
            && (x.id in c.listeners <==> !(x.once && Reaches(event, target, x)))
  {
    hide Inv, All, Heard, OnceIds, Problems, UnlistenAll;
    var heard := Heard(All(b), event, target);
    HeardExact(All(b), event, target);
    AgreeAll(b);
    UnlistenAllExact(b, OnceIds(heard));
    OnceIdsExact(heard);
    if Reaches(event, target, x) {
      var i :| 0 <= i < |heard| && heard[i] == x;
      assert Deliveries(heard, event, target)[i] == Delivery(x.id, target, event);
    }
    forall i | 0 <= i < |heard| && heard[i].id == x.id ensures heard[i] == x {
      assert heard[i] in All(b);
    }
  }

  /** The order of delivery is the order of registration. */
  lemma {:induction false} HeardInOrder(before: seq<Listener>, after: seq<Listener>, event: Event, target: Target)
    ensures Heard(before + after, event, target) == Heard(before, event, target) + Heard(after, event, target)
    decreases |before|
  {
    hide Hears;
    if before == [] {
      assert before + after == after;
    } else {
      HeardInOrder(before[1..], after, event, target);
      var all := before + after;
      assert all[1..] == before[1..] + after && all[0] == before[0];
      var first := if Hears(before[0], event, target) then [before[0]] else [];
      assert Heard(all, event, target) == first + Heard(all[1..], event, target);
      assert first + (Heard(before[1..], event, target) + Heard(after, event, target)) ==
             (first + Heard(before[1..], event, target)) + Heard(after, event, target);
    }
  }

  /** Registering and emitting are refused exactly for an empty name or an empty label, with a problem for
      each. */
  lemma RefusedExact(b: Bus, event: Event, target: Target, once: bool)
    ensures var r := Listen(b, event.name, target, once).1;
            && (r.Err? <==> event.name == "" || target == Window("") || target == Webview(""))
            && (r.Err? ==>
                  && ("event name is required" in r.error <==> event.name == "")
                  && ("event target window label is required" in r.error <==> target == Window(""))
                  && ("event target webview label is required" in r.error <==> target == Webview(""))
                  && |r.error| == (if event.name == "" then 1 else 0) +
                                  (if target == Window("") || target == Webview("") then 1 else 0))
            && (r.Err? <==> Emit(b, event, target).1.Err?)
            && (r.Err? ==> Emit(b, event, target).1.error == r.error)
  {
    hide All, UnlistenAll, OnceIds, Heard;
    ProblemsDiffer();
  }

  lemma ProblemsDiffer()
    ensures "event name is required" != "event target window label is required"
    ensures "event name is required" != "event target webview label is required"
    ensures "event target window label is required" != "event target webview label is required"
  {
    assert |"event name is required"| == 22 && |"event target window label is required"| == 37;
    assert |"event target webview label is required"| == 38;
  }

  lemma {:induction false} TargetIdsExact(all: seq<Listener>, target: Target)
    requires DistinctIds(all)
    ensures forall x :: x in all ==> (x.id in TargetIds(all, target) <==> x.target == target)
    ensures forall id :: id in TargetIds(all, target) ==> exists i :: 0 <= i < |all| && all[i].id == id
    decreases |all|
  {
    if all != [] {
      var rest := all[1..];
      assert all == [all[0]] + rest;
      TargetIdsExact(rest, target);
      forall id | id in TargetIds(all, target) ensures exists i :: 0 <= i < |all| && all[i].id == id {
        if id in TargetIds(rest, target) {
          var i :| 0 <= i < |rest| && rest[i].id == id;
          assert all[i + 1].id == id;
        } else {
          assert all[0].id == id;
        }
      }
      forall x | x in all ensures x.id in TargetIds(all, target) <==> x.target == target {
        if x in rest {
          var j :| 0 <= j < |rest| && rest[j] == x;
          assert all[j + 1] == x;
        } else {
          assert x == all[0];
          assert x.id !in TargetIds(rest, target) by { HeadNotLater(all, target); }
        }
      }
    }
  }

  lemma HeadNotLater(all: seq<Listener>, target: Target)
    requires all != [] && DistinctIds(all)
    requires forall id :: id in TargetIds(all[1..], target) ==> exists i :: 0 <= i < |all[1..]| && all[1..][i].id == id
    ensures all[0].id !in TargetIds(all[1..], target)
  {
    hide TargetIds;
    assert forall i :: 0 <= i < |all[1..]| ==> all[1..][i] == all[i + 1];
  }

  /** Removing a target drops exactly its listeners, though the loop removes while it walks a snapshot. */
  lemma RemoveTargetExact(b: Bus, target: Target)
    requires Inv(b)
    ensures var c := RemoveTarget(b, target);
            && Inv(c)
            && forall id :: id in c.listeners <==> id in b.listeners && b.listeners[id].target != target
    ensures All(RemoveTarget(b, target)) == Keep(All(b), set id | id in TargetIds(All(b), target))
  {
    hide Inv, All, TargetIds, UnlistenAll, Keep, WithoutAll;
    var ids := TargetIds(All(b), target);
    UnlistenAllExact(b, ids);
    WithoutAllIsKeep(All(b), ids);
    AgreeAll(b);
    TargetIdsExact(All(b), target);
    InMap(b);
  }

  /** The listeners of a target, in registration order. */
  function OnTarget(all: seq<Listener>, target: Target): seq<Listener> {
    if all == [] then [] else (if all[0].target == target then [all[0]] else []) + OnTarget(all[1..], target)
  }

  lemma {:induction false} OnTargetExact(all: seq<Listener>, target: Target)
    ensures forall x :: x in OnTarget(all, target) <==> x in all && x.target == target
    decreases |all|
  {
    if all != [] {
      OnTargetExact(all[1..], target);
      assert all == [all[0]] + all[1..];
    }
  }

  lemma {:induction false} OnTargetInOrder(before: seq<Listener>, after: seq<Listener>, target: Target)
    ensures OnTarget(before + after, target) == OnTarget(before, target) + OnTarget(after, target)
    decreases |before|
  {
    if before == [] {
      assert before + after == after;
    } else {
      OnTargetInOrder(before[1..], after, target);
      var all := before + after;
      assert all[1..] == before[1..] + after && all[0] == before[0];
      var first := if before[0].target == target then [before[0]] else [];
      assert OnTarget(all, target) == first + OnTarget(all[1..], target);
      assert first + (OnTarget(before[1..], target) + OnTarget(after, target)) ==
             (first + OnTarget(before[1..], target)) + OnTarget(after, target);
    }
  }

  /** What the loop of remove_target keeps: what is left of its snapshot is still registered. */
  ghost predicate Sweeping(start: Bus, b: Bus, all: seq<Listener>, i: nat, target: Target, removed: seq<Listener>) {
    && i <= |all| && Inv(b)
    && UnlistenAll(b, TargetIds(all[i..], target)) == RemoveTarget(start, target)
    && (forall k :: i <= k < |all| ==> all[k].id in b.listeners && b.listeners[all[k].id] == all[k])
    && OnTarget(all, target) == removed + OnTarget(all[i..], target)
  }

  lemma SweepStarts(b: Bus, target: Target)
    requires Inv(b)
    ensures DistinctIds(All(b)) && Sweeping(b, b, All(b), 0, target, [])
  {
    hide Inv, All, TargetIds, UnlistenAll, OnTarget;
    AgreeAll(b);
    assert All(b)[0..] == All(b) && [] + OnTarget(All(b), target) == OnTarget(All(b), target);
    assert forall k :: 0 <= k < |All(b)| ==> All(b)[k] in All(b);
  }

  lemma SweepStep(start: Bus, b: Bus, all: seq<Listener>, i: nat, target: Target, removed: seq<Listener>)
    requires Sweeping(start, b, all, i, target, removed) && DistinctIds(all) && i < |all|
    ensures all[i].target == target ==>
              && Unlisten(b, all[i].id).1 == Ok(all[i])
              && Sweeping(start, Unlisten(b, all[i].id).0, all, i + 1, target, removed + [all[i]])
    ensures all[i].target != target ==> Sweeping(start, b, all, i + 1, target, removed)
  {
    hide Inv, All, Unlisten, RemoveTarget, DistinctIds;
    var rest, kept := TargetIds(all[i + 1..], target), OnTarget(all[i + 1..], target);
    assert all[i..][1..] == all[i + 1..];
    if all[i].target == target {
      assert ([all[i].id] + rest)[1..] == rest;
      assert removed + ([all[i]] + kept) == (removed + [all[i]]) + kept;
      UnlistenExact(b, all[i].id);
      UnlistenGives(b, all[i].id);
      LaterIds(all, i);
    } else {
      assert [] + rest == rest && [] + kept == kept;
    }
  }

  lemma SweepEnds(start: Bus, b: Bus, all: seq<Listener>, target: Target, removed: seq<Listener>)
    requires Sweeping(start, b, all, |all|, target, removed)
    ensures b == RemoveTarget(start, target) && removed == OnTarget(all, target)
  {
    hide Inv, RemoveTarget;
    assert all[|all|..] == [] && removed + [] == removed;
  }

  lemma UnlistenGives(b: Bus, id: string)
    requires id in b.listeners
    ensures Unlisten(b, id).1 == Ok(b.listeners[id])
  {}

  lemma LaterIds(all: seq<Listener>, i: nat)
    requires DistinctIds(all) && i < |all|
    ensures forall k :: i < k < |all| ==> all[k].id != all[i].id
  {}

  lemma InMap(b: Bus)
    requires Inv(b)
    ensures forall id :: id in b.listeners ==> b.listeners[id] in All(b) && b.listeners[id].id == id
  {
    hide Known;
    AgreeAll(b);
    forall id | id in b.listeners ensures b.listeners[id] in All(b) {
      var i :| 0 <= i < |b.order| && b.order[i] == id;
      assert All(b)[i] == b.listeners[id];
    }
  }

  datatype Call =
    | Listening(name: string, target: Target, once: bool)
    | Emitting(event: Event, target: Target)
    | Unlistening(id: string)
    | RemovingTarget(target: Target)
    | Clearing

  function React(b: Bus, call: Call): Bus {
    match call
    case Listening(name, target, once) => Listen(b, name, target, once).0
    case Emitting(event, target) => Emit(b, event, target).0
    case Unlistening(id) => Unlisten(b, id).0
    case RemovingTarget(target) => RemoveTarget(b, target)
    case Clearing => Clear(b)
  }

  function Run(calls: seq<Call>): Bus {
    if calls == [] then NewBus() else React(Run(calls[..|calls| - 1]), calls[|calls| - 1])
  }

  /** In every run, a listener for one event appears in at most one emit result. */
  lemma {:induction false} RunKeeps(calls: seq<Call>)
    ensures Inv(Run(calls))
    ensures var fired := Run(calls).fired;
            forall i, j :: 0 <= i < j < |fired| && fired[i].once ==> fired[i].id != fired[j].id
    decreases |calls|
  {
    hide Listen, Emit, Unlisten, RemoveTarget, Known, NoDuplicates;
    if calls != [] {
      RunKeeps(calls[..|calls| - 1]);
      var b := Run(calls[..|calls| - 1]);
      match calls[|calls| - 1]
      case Listening(name, target, once) => ListenExact(b, name, target, once);
      case Emitting(event, target) => EmitExact(b, event, target);
      case Unlistening(id) => UnlistenExact(b, id);
      case RemovingTarget(target) => RemoveTargetExact(b, target);
      case Clearing => assert NoDuplicates([]) by { EmptyOrder(); }
    } else {
      EmptyOrder();
    }
  }

  lemma CounterGrows(b: Bus, call: Call)
    requires Inv(b)
    ensures React(b, call).next == b.next + (if call.Listening? && Problems(call.name, call.target) == [] then 1 else 0)
  {
    hide Inv, Problems, OnceIds, TargetIds, All, Heard, UnlistenAll;
    match call
    case Listening(_, _, _) =>
    case Emitting(event, target) => UnlistenAllExact(b, OnceIds(Heard(All(b), event, target)));
    case Unlistening(id) => UnlistenExact(b, id);
    case RemovingTarget(target) => UnlistenAllExact(b, TargetIds(All(b), target));
    case Clearing =>
  }

  lemma {:induction false} CounterOverRun(calls: seq<Call>, i: nat)
    requires i <= |calls|
    ensures Run(calls[..i]).next <= Run(calls).next
    decreases |calls|
  {
    hide React;
    if i < |calls| {
      var before := calls[..|calls| - 1];
      CounterOverRun(before, i);
      assert before[..i] == calls[..i];
      RunKeeps(before);
      CounterGrows(Run(before), calls[|calls| - 1]);
    } else {
      assert calls[..i] == calls;
    }
  }

  /** Two registrations of one run never get the same id, whatever was removed in between. */
  lemma IdsNeverReused(calls: seq<Call>, i: nat, name: string, target: Target, once: bool,
                       laterName: string, laterTarget: Target, laterOnce: bool)
    requires i < |calls| && calls[i] == Listening(name, target, once)
    ensures var first := Listen(Run(calls[..i]), name, target, once).1;
            var later := Listen(Run(calls), laterName, laterTarget, laterOnce).1;
            first.Ok? && later.Ok? ==> first.value.id != later.value.id
  {
    hide React, Problems, ListenerId, Run;
    var first := Listen(Run(calls[..i]), name, target, once).1;
    var later := Listen(Run(calls), laterName, laterTarget, laterOnce).1;
    if first.Ok? && later.Ok? {
      RunKeeps(calls[..i]);
      CounterGrows(Run(calls[..i]), calls[i]);
      CounterOverRun(calls, i + 1);
      assert Run(calls[..i + 1]) == React(Run(calls[..i]), calls[i]) by { RunUnfolds(calls, i); }
      if first.value.id == later.value.id {
        IdsDiffer(Run(calls[..i]).next, Run(calls).next);
      }
    }
  }

  lemma RunUnfolds(calls: seq<Call>, i: nat)
    requires i < |calls|
    ensures Run(calls[..i + 1]) == React(Run(calls[..i]), calls[i])
  {
    hide React;
    assert calls[..i + 1][..i] == calls[..i];
  }

  lemma EmptyOrder()
    ensures NoDuplicates([])
  {}

  // ----- the mutable bus -----

  class MutableBus {
    var nextListenerSequence: nat
    var listeners: map<string, Listener>
    var order: seq<string>
    ghost var fired: seq<Listener>

    ghost function State(): Bus
      reads this
    {
      Bus(nextListenerSequence, listeners, order, fired)
    }

    constructor ()
      ensures State() == NewBus()
    {
      nextListenerSequence, listeners, order, fired := 1, map[], [], [];
    }

    method AddListener(name: string, target: Target, once: bool) returns (r: Result<Listener, seq<string>>)
      modifies this
      ensures (State(), r) == Listen(old(State()), name, target, once)
    {
      hide ListenerId;
      var problems := Problems(name, target);
      if problems != [] {
        return Err(problems);
      }
      var sequence := nextListenerSequence;
      nextListenerSequence := nextListenerSequence + 1;
      var id := ListenerId(sequence);
      var listener := Listener(id, name, target, once);
      listeners := listeners[id := listener];
      order := order + [id];
      return Ok(listener);
    }

    /** A snapshot: what the loops below walk while they remove. */
    method Snapshot() returns (all: seq<Listener>)
      ensures all == All(State())
    {
      hide Listeners;
      all := [];
      var i := 0;
      assert order[0..] == order && [] + Listeners(listeners, order) == Listeners(listeners, order);
      while i < |order|
        invariant i <= |order|
        invariant All(State()) == all + Listeners(listeners, order[i..])
      {
        ListenersStep(listeners, order, i);
        if order[i] in listeners {
          all := all + [listeners[order[i]]];
        }
        i := i + 1;
      }
      assert order[i..] == [] && all + [] == all;
      NobodyListed(listeners);
    }

    method RemoveOrdered(id: string)
      modifies this`order
      ensures order == RemoveFirst(old(order), id)
    {
      order := Remove(order, id);
    }

    method RemoveListener(id: string) returns (r: Result<Listener, string>)
      modifies this`listeners, this`order
      ensures (State(), r) == Unlisten(old(State()), id)
    {
      hide RemoveFirst;
      if id !in listeners {
        return Err("event listener not found: " + id);
      }
      r := Ok(listeners[id]);
      listeners := listeners - {id};
      RemoveOrdered(id);
    }

    method EmitEvent(event: Event, target: Target) returns (r: Result<seq<Delivery>, seq<string>>)
      modifies this
      ensures (State(), r) == Emit(old(State()), event, target)
    {
      hide Listeners, Heard, OnceIds, Deliveries, UnlistenAll;
      var problems := Problems(event.name, target);
      if problems != [] {
        return Err(problems);
      }
      var all := Snapshot();
      var deliveries, onceIds := Collect(all, event, target);
      RemoveListeners(onceIds);
      fired := fired + Heard(all, event, target);
      return Ok(deliveries);
    }

    /** The delivering loop of emit: it only reads the snapshot. */
    static method Collect(all: seq<Listener>, event: Event, target: Target)
      returns (deliveries: seq<Delivery>, onceIds: seq<string>)
      ensures deliveries == Deliveries(Heard(all, event, target), event, target)
      ensures onceIds == OnceIds(Heard(all, event, target))
    {
      hide Hears, Heard, Deliveries, OnceIds;
      deliveries, onceIds := [], [];
      CollectNothing(event, target);
      ghost var heard: seq<Listener> := [];
      var i := 0;
      assert all[0..] == all && [] + Heard(all, event, target) == Heard(all, event, target);
      while i < |all|
        invariant i <= |all|
        invariant Heard(all, event, target) == heard + Heard(all[i..], event, target)
        invariant deliveries == Deliveries(heard, event, target)
        invariant onceIds == OnceIds(heard)
      {
        HeardStep(all, i, event, target);
        ghost var rest := Heard(all[i + 1..], event, target);
        if Hears(all[i], event, target) {
          OnceIdsAppend(heard, all[i]);
          DeliveriesAppend(heard, all[i], event, target);
          assert heard + ([all[i]] + rest) == (heard + [all[i]]) + rest;
          deliveries := deliveries + [Delivery(all[i].id, target, event)];
          heard := heard + [all[i]];
          if all[i].once {
            onceIds := onceIds + [all[i].id];
          }
        }
        i := i + 1;
      }
      assert all[i..] == [] && heard + [] == heard;
    }

    method RemoveListeners(ids: seq<string>)
      modifies this`listeners, this`order
      ensures State() == UnlistenAll(old(State()), ids)
    {
      hide Unlisten;
      var i := 0;
      while i < |ids|
        invariant i <= |ids| && State() == old(State()).(listeners := listeners, order := order)
        invariant UnlistenAll(State(), ids[i..]) == UnlistenAll(old(State()), ids)
      {
        assert ids[i..][1..] == ids[i + 1..];
        var _ := RemoveListener(ids[i]);
        i := i + 1;
      }
    }

    /** Also gives back the listeners removed, which are those of the target in their order. */
    method RemoveTargetListeners(target: Target) returns (removed: seq<Listener>)
      requires Inv(State())
      modifies this`listeners, this`order
      ensures State() == RemoveTarget(old(State()), target)
      ensures removed == OnTarget(All(old(State())), target)
    {
      hide Unlisten, All, Inv, Sweeping, RemoveTarget, DistinctIds, OnTarget;
      SweepStarts(State(), target);
      removed := [];
      var all := Snapshot();
      var i := 0;
      while i < |all|
        invariant i <= |all| && State() == old(State()).(listeners := listeners, order := order)
        invariant Sweeping(old(State()), State(), all, i, target, removed)
      {
        SweepStep(old(State()), State(), all, i, target, removed);
        if all[i].target == target {
          var result := RemoveListener(all[i].id);
          match result
          case Ok(listener) => removed := removed + [listener];
          case Err(_) =>
        }
        i := i + 1;
      }
      SweepEnds(old(State()), State(), all, target, removed);
    }

    method ClearListeners() returns (cleared: seq<Listener>)
      modifies this`listeners, this`order
      ensures State() == Clear(old(State())) && cleared == All(old(State()))
    {
      cleared := Snapshot();
      listeners := map[];
      order := [];
    }
  }
}
