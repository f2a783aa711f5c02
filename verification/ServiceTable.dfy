/** The table of service processes: 64 entries with reuse, and the signals sent to processes. */
module ServiceTable {
  import opened Results
  import opened Bytes
  import opened CommandPacket

  type Pid = nat

  datatype Entry = Free | Tracked(name: bytes, pid: Pid)

  const TABLE_SIZE: nat := 64

  /** `next` is the next process id the system gives out. The last two fields are history: every
      process started, and every SIGTERM sent, in order. */
  datatype Services = Services(entries: seq<Entry>, next: Pid, spawned: seq<Pid>, signalled: seq<Pid>)

  function Signal(s: Services, pid: Pid): Services {
    s.(signalled := s.signalled + [pid])
  }

  function IndexOf(entries: seq<Entry>, name: bytes): (r: Option<nat>)
    ensures r.Some? ==> r.value < |entries| && entries[r.value].Tracked? && entries[r.value].name == name
    ensures r.None? ==> forall i :: 0 <= i < |entries| ==> !(entries[i].Tracked? && entries[i].name == name)
  {
    if entries == [] then None
    else if entries[0].Tracked? && entries[0].name == name then Some(0)
    else match IndexOf(entries[1..], name) case None => None case Some(i) => Some(i + 1)
  }

  function FirstFree(entries: seq<Entry>): (r: Option<nat>)
    ensures r.Some? ==> r.value < |entries| && entries[r.value].Free?
    ensures r.None? ==> forall i :: 0 <= i < |entries| ==> entries[i].Tracked?
  {
    if entries == [] then None
    else if entries[0].Free? then Some(0)
    else match FirstFree(entries[1..]) case None => None case Some(i) => Some(i + 1)
  }

  /** A process under a known name replaces the old one, which is signalled. */
  function Track(s: Services, name: bytes, pid: Pid): Option<Services> {
    if name == [] then None
    else
      match IndexOf(s.entries, name)
      case Some(i) => Some(Signal(s, s.entries[i].pid).(entries := s.entries[i := Tracked(name, pid)]))
      case None =>
        match FirstFree(s.entries)
        case Some(i) => Some(s.(entries := s.entries[i := Tracked(name, pid)]))
        case None => None
  }

  datatype Status = Done | BadCommand | SpawnFailed | Refused | NotRunning

  /** A started process that cannot be tracked is signalled at once. */
  function Start(s: Services, name: bytes, packet: bytes, spawns: bool): (Services, Status) {
    if ParseCommand(packet).None? then (s, BadCommand)
    else if !spawns then (s, SpawnFailed)
    else
      var pid := s.next;
      var started := s.(next := s.next + 1, spawned := s.spawned + [pid]);
      match Track(started, CString(name), pid)
      case None => (Signal(started, pid), Refused)
      case Some(tracked) => (tracked, Done)
  }

  function Stop(s: Services, name: bytes): (Services, Status) {
    match IndexOf(s.entries, CString(name))
    case None => (s, NotRunning)
    case Some(i) => (Signal(s.(entries := s.entries[i := Free]), s.entries[i].pid), Done)
  }

  /** Signals every tracked process from entry `i` on and clears the entries. */
  function TerminateFrom(s: Services, i: nat): Services
    decreases |s.entries| - i
  {
    if i >= |s.entries| then s
    else
      var entry := s.entries[i];
      var sent := if entry.Tracked? then Signal(s, entry.pid) else s;
      TerminateFrom(sent.(entries := s.entries[i := Free]), i + 1)
  }

  function Terminate(s: Services): Services {
    TerminateFrom(s, 0)
  }

  // ----- what every reachable table keeps -----

  ghost predicate DistinctEntries(entries: seq<Entry>) {
    forall i, j :: 0 <= i < j < |entries| && entries[i].Tracked? && entries[j].Tracked? ==>
      entries[i].name != entries[j].name && entries[i].pid != entries[j].pid
  }

  /** No pid is signalled twice; every process started is in exactly one entry or has been signalled,
      never both; names are distinct and not empty. */
  ghost predicate Inv(s: Services) {
    && |s.entries| == TABLE_SIZE && s.next > 0
    && DistinctEntries(s.entries)
    && (forall i :: 0 <= i < |s.entries| && s.entries[i].Tracked? ==>
          s.entries[i].name != [] && s.entries[i].pid in s.spawned && s.entries[i].pid !in s.signalled)
    && (forall pid :: pid in s.spawned ==> 0 < pid < s.next)
    && (forall pid :: pid in s.spawned ==> Has(s.entries, pid) || pid in s.signalled)
    && (forall pid :: pid in s.signalled ==> pid in s.spawned)
    && (forall i, j :: 0 <= i < j < |s.signalled| ==> s.signalled[i] != s.signalled[j])
  }

  ghost predicate Has(entries: seq<Entry>, pid: Pid) {
    exists i :: 0 <= i < |entries| && entries[i].Tracked? && entries[i].pid == pid
  }

  function NoServices(): Services {
    Services(seq(TABLE_SIZE, _ => Free), 1, [], [])
  }

  lemma NoServicesHold()
    ensures Inv(NoServices())
  {}

  /** Putting a fresh process into an entry, whose old process, if any, is signalled. */
  lemma PutKeeps(s: Services, i: nat, name: bytes)
    requires Inv(s) && i < |s.entries| && name != []
    requires s.entries[i].Free? ==> IndexOf(s.entries, name).None?
    requires s.entries[i].Tracked? ==> s.entries[i].name == name
    ensures var t := s.(next := s.next + 1, spawned := s.spawned + [s.next],
                        entries := s.entries[i := Tracked(name, s.next)]);
            Inv(if s.entries[i].Tracked? then Signal(t, s.entries[i].pid) else t)
  {
    hide IndexOf;
    var pid := s.next;
    var entries := s.entries[i := Tracked(name, pid)];
    var t := s.(next := s.next + 1, spawned := s.spawned + [pid], entries := entries);
    var u := if s.entries[i].Tracked? then Signal(t, s.entries[i].pid) else t;
    forall p | p in u.spawned ensures Has(entries, p) || p in u.signalled {
      if p == pid {
        assert entries[i].pid == p;
      } else if p !in u.signalled {
        var k :| 0 <= k < |s.entries| && s.entries[k].Tracked? && s.entries[k].pid == p;
        assert entries[k] == s.entries[k];
      }
    }
  }

  lemma StartKeeps(s: Services, name: bytes, packet: bytes, spawns: bool)
    requires Inv(s)
    ensures Inv(Start(s, name, packet, spawns).0)
  {
    hide IndexOf, FirstFree, ParseCommand, CString;
    var title := CString(name);
    if ParseCommand(packet).Some? && spawns {
      if title != [] && IndexOf(s.entries, title).Some? {
        PutKeeps(s, IndexOf(s.entries, title).value, title);
      } else if title != [] && FirstFree(s.entries).Some? {
        PutKeeps(s, FirstFree(s.entries).value, title);
      } else {
        RefuseKeeps(s);
      }
    }
  }

  lemma RefuseKeeps(s: Services)
    requires Inv(s)
    ensures Inv(Signal(s.(next := s.next + 1, spawned := s.spawned + [s.next]), s.next))
  {
    var u := Signal(s.(next := s.next + 1, spawned := s.spawned + [s.next]), s.next);
    assert s.next !in s.spawned && s.next !in s.signalled;
    assert forall i :: 0 <= i < |s.signalled| ==> s.signalled[i] in s.signalled;
    forall p | p in u.spawned ensures Has(u.entries, p) || p in u.signalled {
      assert p in s.spawned || p == s.next;
      assert u.signalled[|s.signalled|] == s.next;
      assert forall q :: q in s.signalled ==> q in u.signalled;
    }
    forall p | p in u.signalled ensures p in u.spawned {
      assert p in s.signalled || p == s.next;
      assert u.spawned[|s.spawned|] == s.next;
      assert p in s.signalled ==> p in s.spawned;
    }
  }

  lemma FreeKeeps(s: Services, i: nat)
    requires Inv(s) && i < |s.entries| && s.entries[i].Tracked?
    ensures Inv(Signal(s.(entries := s.entries[i := Free]), s.entries[i].pid))
  {
    var u := Signal(s.(entries := s.entries[i := Free]), s.entries[i].pid);
    forall p | p in u.spawned ensures Has(u.entries, p) || p in u.signalled {
      if p !in u.signalled {
        var k :| 0 <= k < |s.entries| && s.entries[k].Tracked? && s.entries[k].pid == p;
        assert u.entries[k] == s.entries[k];
      }
    }
  }

  lemma StopKeeps(s: Services, name: bytes)
    requires Inv(s)
    ensures Inv(Stop(s, name).0)
  {
    hide IndexOf, CString;
    if IndexOf(s.entries, CString(name)).Some? {
      FreeKeeps(s, IndexOf(s.entries, CString(name)).value);
    }
  }

  lemma {:induction false} TerminateFromKeeps(s: Services, i: nat)
    requires Inv(s) && i <= |s.entries| && forall k :: 0 <= k < i ==> s.entries[k].Free?
    ensures Inv(TerminateFrom(s, i)) && forall k :: 0 <= k < TABLE_SIZE ==> TerminateFrom(s, i).entries[k].Free?
    ensures TerminateFrom(s, i).spawned == s.spawned && s.signalled <= TerminateFrom(s, i).signalled
    decreases |s.entries| - i
  {
    if i < |s.entries| {
      var entry := s.entries[i];
      var t := (if entry.Tracked? then Signal(s, entry.pid) else s).(entries := s.entries[i := Free]);
      if entry.Tracked? {
        FreeKeeps(s, i);
      } else {
        assert t == s;
      }
      TerminateFromKeeps(t, i + 1);
    }
  }

  /** Termination leaves no process without a signal and no entry in use. */
  lemma TerminateLeavesNone(s: Services)
    requires Inv(s)
    ensures var t := Terminate(s);
            && Inv(t) && t.spawned == s.spawned
            && (forall k :: 0 <= k < TABLE_SIZE ==> t.entries[k].Free?)
            && (forall pid :: pid in s.spawned ==> pid in t.signalled)
  {
    hide TerminateFrom;
    TerminateFromKeeps(s, 0);
  }

  datatype Event = StartService(name: bytes, packet: bytes, spawns: bool) | StopService(name: bytes) | TerminateServices

  function React(s: Services, event: Event): Services {
    match event
    case StartService(name, packet, spawns) => Start(s, name, packet, spawns).0
    case StopService(name) => Stop(s, name).0
    case TerminateServices => Terminate(s)
  }

  function Run(events: seq<Event>): Services {
    if events == [] then NoServices() else React(Run(events[..|events| - 1]), events[|events| - 1])
  }

  /** In every run each process started is tracked by exactly one entry or has been sent SIGTERM, and
      none is signalled twice. */
  lemma {:induction false} RunConserves(events: seq<Event>)
    ensures Inv(Run(events))
    ensures var s := Run(events);
            forall pid :: pid in s.spawned ==> (Has(s.entries, pid) <==> pid !in s.signalled)
    decreases |events|
  {
    hide Start, Stop, Terminate, NoServices;
    if events == [] {
      NoServicesHold();
    } else {
      RunConserves(events[..|events| - 1]);
      var s := Run(events[..|events| - 1]);
      match events[|events| - 1]
      case StartService(name, packet, spawns) => StartKeeps(s, name, packet, spawns);
      case StopService(name) => StopKeeps(s, name);
      case TerminateServices => TerminateLeavesNone(s);
    }
  }

  // ----- the table as a map -----

  /** Names to processes. */
  ghost function Table(entries: seq<Entry>): map<bytes, Pid> {
    if entries == [] then map[]
    else
      var last := entries[|entries| - 1];
      var rest := Table(entries[..|entries| - 1]);
      if last.Tracked? then rest[last.name := last.pid] else rest
  }

  ghost predicate NameIn(entries: seq<Entry>, name: bytes) {
    exists i :: 0 <= i < |entries| && entries[i].Tracked? && entries[i].name == name
  }

  lemma {:induction false} TableExact(entries: seq<Entry>)
    requires DistinctEntries(entries)
    ensures forall name :: name in Table(entries) <==> NameIn(entries, name)
    ensures forall i :: 0 <= i < |entries| && entries[i].Tracked? ==>
              entries[i].name in Table(entries) && Table(entries)[entries[i].name] == entries[i].pid
    decreases |entries|
  {
    if entries != [] {
      var n := |entries| - 1;
      var init := entries[..n];
      TableExact(init);
      assert forall i :: 0 <= i < n ==> init[i] == entries[i];
      forall name ensures name in Table(entries) <==> NameIn(entries, name) {
        if NameIn(init, name) {
          var i :| 0 <= i < n && init[i].Tracked? && init[i].name == name;
          assert entries[i].Tracked? && entries[i].name == name;
        }
        if entries[n].Tracked? && entries[n].name == name {
          assert NameIn(entries, name);
        }
        if NameIn(entries, name) {
          var i :| 0 <= i < |entries| && entries[i].Tracked? && entries[i].name == name;
          assert i < n ==> init[i].Tracked? && init[i].name == name;
        }
      }
    }
  }

  lemma {:induction false} TableSize(entries: seq<Entry>)
    requires DistinctEntries(entries)
    ensures |Table(entries)| <= |entries|
    ensures |Table(entries)| == |entries| <==> forall i :: 0 <= i < |entries| ==> entries[i].Tracked?
    decreases |entries|
  {
    if entries != [] {
      var n := |entries| - 1;
      var init := entries[..n];
      TableSize(init);
      TableExact(init);
      assert forall i :: 0 <= i < n ==> init[i] == entries[i];
      var last := entries[n];
    }
  }

  /** Looking a name up in the entries is looking it up in the map. */
  lemma IndexIsLookup(entries: seq<Entry>, name: bytes)
    requires DistinctEntries(entries)
    ensures match IndexOf(entries, name)
            case None => name !in Table(entries)
            case Some(i) => name in Table(entries) && Table(entries)[name] == entries[i].pid
  {
    hide Table, IndexOf;
    TableExact(entries);
    if NameIn(entries, name) {
      var k := NameAt(entries, name);
    }
  }

  /** Entries that differ from others in one place only give maps that differ in one name only. */
  lemma PutTable(entries: seq<Entry>, i: nat, entry: Entry)
    requires DistinctEntries(entries) && i < |entries| && DistinctEntries(entries[i := entry])
    requires entries[i].Tracked? && entry.Tracked? ==> entries[i].name == entry.name
    ensures Table(entries[i := entry]) ==
            (if entries[i].Tracked? then Table(entries) - {entries[i].name} else Table(entries))
            + (if entry.Tracked? then map[entry.name := entry.pid] else map[])
  {
    hide Table, NameIn;
    var more := entries[i := entry];
    TableExact(entries);
    TableExact(more);
    var expected := (if entries[i].Tracked? then Table(entries) - {entries[i].name} else Table(entries))
                    + (if entry.Tracked? then map[entry.name := entry.pid] else map[]);
    forall name ensures name in Table(more) <==> name in expected {
      PutName(entries, i, entry, name);
    }
    forall name | name in Table(more) ensures Table(more)[name] == expected[name] {
      var k := NameAt(more, name);
      if k != i {
        assert entries[k] == more[k];
        assert more[i] == entry && (entry.Tracked? ==> more[k].name != more[i].name);
        assert entries[i].Tracked? ==> entries[k].name != entries[i].name;
      }
    }
  }

  lemma NameAt(entries: seq<Entry>, name: bytes) returns (k: nat)
    requires NameIn(entries, name)
    ensures k < |entries| && entries[k].Tracked? && entries[k].name == name
  {
    k :| 0 <= k < |entries| && entries[k].Tracked? && entries[k].name == name;
  }

  lemma PutName(entries: seq<Entry>, i: nat, entry: Entry, name: bytes)
    requires DistinctEntries(entries) && i < |entries|
    requires entries[i].Tracked? && entry.Tracked? ==> entries[i].name == entry.name
    ensures NameIn(entries[i := entry], name) <==>
            (entry.Tracked? && name == entry.name) ||
            (NameIn(entries, name) && !(entries[i].Tracked? && name == entries[i].name))
  {
    var more := entries[i := entry];
    if entry.Tracked? && name == entry.name {
      assert more[i].name == name;
    }
    if NameIn(entries, name) {
      var k := NameAt(entries, name);
      assert k != i ==> more[k] == entries[k];
    }
    if NameIn(more, name) {
      var k := NameAt(more, name);
      assert k != i ==> more[k] == entries[k];
    }
  }

  /** The entry a new process under the name goes to. */
  function Place(entries: seq<Entry>, name: bytes): (r: Option<nat>)
    ensures r.Some? ==> r.value < |entries|
  {
    if name == [] then None
    else if IndexOf(entries, name).Some? then IndexOf(entries, name)
    else FirstFree(entries)
  }

  lemma StartSteps(s: Services, name: bytes, packet: bytes, spawns: bool)
    ensures var (t, status) := Start(s, name, packet, spawns);
            var title := CString(name);
            var place := Place(s.entries, title);
            if ParseCommand(packet).None? then t == s && status == BadCommand
            else if !spawns then t == s && status == SpawnFailed
            else if place.None?
            then t.entries == s.entries && t.signalled == s.signalled + [s.next] && status == Refused
            else && t.entries == s.entries[place.value := Tracked(title, s.next)] && status == Done
                 && t.signalled == s.signalled + if s.entries[place.value].Tracked?
                                                 then [s.entries[place.value].pid] else []
  {
    hide ParseCommand, CString, IndexOf, FirstFree;
    assert s.signalled + [] == s.signalled;
  }

  /** There is a place exactly for a name that is bound already, or while 64 names are not bound; what stood
      there is what the name was bound to. */
  lemma PlaceExact(entries: seq<Entry>, name: bytes)
    requires DistinctEntries(entries) && |entries| == 64
    ensures var before := Table(entries);
            var place := Place(entries, name);
            && (place.Some? <==> name != [] && (name in before || |before| < 64))
            && (place.Some? && entries[place.value].Tracked? ==>
                  entries[place.value].name == name && name in before && before[name] == entries[place.value].pid)
            && (place.Some? && entries[place.value].Free? ==> name !in before)
  {
    hide Table, IndexOf, FirstFree, DistinctEntries;
    TableSize(entries);
    IndexIsLookup(entries, name);
  }

  /** Starting binds the name to the new process, and what it was bound to is signalled; unless the command is
      bad, the process does not start, the name is empty, or the name is new and 64 names are bound already,
      when the new process itself is signalled. */
  lemma StartRefinesMap(s: Services, name: bytes, packet: bytes, spawns: bool)
    requires Inv(s)
    ensures var (t, status) := Start(s, name, packet, spawns);
            var before := Table(s.entries);
            var title := CString(name);
            var fits := title != [] && (title in before || |before| < 64);
            && status == (if ParseCommand(packet).None? then BadCommand else if !spawns then SpawnFailed
                          else if !fits then Refused else Done)
            && Table(t.entries) == (if status == Done then before[title := s.next] else before)
            && t.signalled == s.signalled + if status == Refused then [s.next]
                                            else if status == Done && title in before then [before[title]]
                                            else []
  {
    hide ParseCommand, CString, Table, Place, Start;
    var title := CString(name);
    assert DistinctEntries(s.entries) && |s.entries| == 64;
    PlaceExact(s.entries, title);
    StartSteps(s, name, packet, spawns);
    assert s.signalled + [] == s.signalled;
    StartedDistinct(s, name, packet, spawns);
    hide Inv, DistinctEntries;
    var place := Place(s.entries, title);
    if ParseCommand(packet).Some? && spawns && place.Some? {
      PutTable(s.entries, place.value, Tracked(title, s.next));
    }
  }

  lemma StartedDistinct(s: Services, name: bytes, packet: bytes, spawns: bool)
    requires Inv(s)
    ensures DistinctEntries(Start(s, name, packet, spawns).0.entries)
  {
    hide Start, DistinctEntries;
    StartKeeps(s, name, packet, spawns);
  }

  /** Stopping unbinds the name and signals its process. */
  lemma StopRefinesMap(s: Services, name: bytes)
    requires Inv(s)
    ensures var (t, status) := Stop(s, name);
            var before := Table(s.entries);
            var title := CString(name);
            && status == (if title in before then Done else NotRunning)
            && Table(t.entries) == before - {title}
            && t.signalled == s.signalled + if title in before then [before[title]] else []
  {
    hide CString, Table;
    var title := CString(name);
    IndexIsLookup(s.entries, title);
    StopKeeps(s, name);
    if IndexOf(s.entries, title).Some? {
      PutTable(s.entries, IndexOf(s.entries, title).value, Free);
    }
  }

  // ----- the static array -----

  class ServiceProcesses {
    const entries: array<Entry>
    var next: Pid
    var spawned: seq<Pid>
    var signalled: seq<Pid>

    ghost predicate Valid() {
      entries.Length == TABLE_SIZE
    }

    ghost function State(): Services
      reads this, entries
    {
      Services(entries[..], next, spawned, signalled)
    }

    constructor ()
      ensures Valid() && fresh(entries) && State() == NoServices()
    {
      entries := new Entry[TABLE_SIZE](_ => Free);
      next, spawned, signalled := 1, [], [];
      new;
      assert entries[..] == NoServices().entries;
    }

    method FindService(name: bytes) returns (r: Option<nat>)
      ensures r == IndexOf(entries[..], name)
    {
      hide IndexOf;
      var i := 0;
      while i < entries.Length
        invariant i <= entries.Length
        invariant forall k :: 0 <= k < i ==> !(entries[k].Tracked? && entries[k].name == name)
      {
        if entries[i].Tracked? && entries[i].name == name {
          IndexIsFirst(entries[..], name, i);
          return Some(i);
        }
        i := i + 1;
      }
      return None;
    }

    method FindFreeEntry() returns (r: Option<nat>)
      ensures r == FirstFree(entries[..])
    {
      hide FirstFree;
      var i := 0;
      while i < entries.Length
        invariant i <= entries.Length
        invariant forall k :: 0 <= k < i ==> entries[k].Tracked?
      {
        if entries[i].Free? {
          FreeIsFirst(entries[..], i);
          return Some(i);
        }
        i := i + 1;
      }
      return None;
    }

    method TrackService(name: bytes, pid: Pid) returns (ok: bool)
      requires Valid()
      modifies this`signalled, entries
      ensures ok <==> Track(old(State()), name, pid).Some?
      ensures State() == if ok then Track(old(State()), name, pid).value else old(State())
    {
      hide IndexOf, FirstFree;
      if name == [] {
        return false;
      }
      var known := FindService(name);
      if known.Some? {
        signalled := signalled + [entries[known.value].pid];
        entries[known.value] := Tracked(name, pid);
        return true;
      }
      var free := FindFreeEntry();
      if free.Some? {
        entries[free.value] := Tracked(name, pid);
        return true;
      }
      return false;
    }

    /** The process that was tracked under the name, whose entry is now free. */
    method UntrackService(name: bytes) returns (pid: Option<Pid>)
      requires Valid()
      modifies entries
      ensures match IndexOf(old(entries[..]), name)
              case None => pid == None && entries[..] == old(entries[..])
              case Some(i) => pid == Some(old(entries[i].pid)) && entries[..] == old(entries[..])[i := Free]
    {
      hide IndexOf;
      var known := FindService(name);
      if known.None? {
        return None;
      }
      pid := Some(entries[known.value].pid);
      entries[known.value] := Free;
    }

    method StartService(name: bytes, packet: bytes, spawns: bool) returns (status: Status)
      requires Valid()
      modifies this, entries
      ensures (State(), status) == Start(old(State()), name, packet, spawns)
    {
      hide Track;
      var argv := ParseCommandPacket(packet);
      if argv.None? {
        return BadCommand;
      }
      if !spawns {
        return SpawnFailed;
      }
      var pid := next;
      next, spawned := next + 1, spawned + [pid];
      var tracked := TrackService(CString(name), pid);
      if !tracked {
        signalled := signalled + [pid];
        return Refused;
      }
      return Done;
    }

    method StopService(name: bytes) returns (status: Status)
      requires Valid()
      modifies this`signalled, entries
      ensures (State(), status) == Stop(old(State()), name)
    {
      hide IndexOf;
      var pid := UntrackService(CString(name));
      if pid.None? {
        return NotRunning;
      }
      signalled := signalled + [pid.value];
      return Done;
    }

    method TerminateTrackedServices()
      requires Valid()
      modifies this`signalled, entries
      ensures State() == Terminate(old(State()))
    {
      var i: nat := 0;
      while i < TABLE_SIZE
        invariant i <= TABLE_SIZE
        invariant Terminate(old(State())) == TerminateFrom(State(), i)
      {
        ghost var before := entries[..];
        if entries[i].Tracked? {
          signalled := signalled + [entries[i].pid];
        }
        entries[i] := Free;
        assert entries[..] == before[i := Free];
        i := i + 1;
      }
    }
  }

  lemma {:induction false} IndexIsFirst(entries: seq<Entry>, name: bytes, i: nat)
    requires i < |entries| && entries[i].Tracked? && entries[i].name == name
    requires forall k :: 0 <= k < i ==> !(entries[k].Tracked? && entries[k].name == name)
    ensures IndexOf(entries, name) == Some(i)
    decreases i
  {
    if i > 0 {
      IndexIsFirst(entries[1..], name, i - 1);
    }
  }

  lemma {:induction false} FreeIsFirst(entries: seq<Entry>, i: nat)
    requires i < |entries| && entries[i].Free? && forall k :: 0 <= k < i ==> entries[k].Tracked?
    ensures FirstFree(entries) == Some(i)
    decreases i
  {
    if i > 0 {
      FreeIsFirst(entries[1..], i - 1);
    }
  }
}
