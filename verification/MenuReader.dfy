/** The item loop of the native menu builder, proved against the functions of MenuBuilder. */
module MenuReader {
  import opened Results
  import opened Bytes
  import opened Words
  import JsonScanner
  import opened JsonReader
  import opened MenuBuilder

  method ReadStringMember(t: bytes, i: nat, end: nat, name: bytes) returns (r: Option<bytes>)
    requires i <= end <= |t|
    ensures r == StringMember(t, i, end, name)
  {
    var member := FindMemberValue(t, i, end, name);
    if member.NoMember? {
      return None;
    }
    var start := SkipSpaces(t, member.value, member.stop);
    var after := FindStringEnd(t, start, member.stop);
    return if after.None? then None else Some(t[start + 1..after.value - 1]);
  }

  method ReadBoolMember(t: bytes, i: nat, end: nat, name: bytes, fallback: bool) returns (r: bool)
    requires i <= end <= |t|
    ensures r == BoolMember(t, i, end, name, fallback)
  {
    var member := FindMemberValue(t, i, end, name);
    if member.NoMember? {
      return fallback;
    }
    var start := SkipSpaces(t, member.value, member.stop);
    if HasWord(t, start, member.stop, TRUE) {
      return true;
    }
    return if HasWord(t, start, member.stop, FALSE) then false else fallback;
  }

  method AddMenuItem(t: bytes, i: nat, end: nat, depth: nat) returns (r: Outcome)
    requires i <= end <= |t|
    ensures r == BuildItem(t, i, end, depth)
    decreases end - i, 0
  {
    hide StringMember, BoolMember, JsonScanner.FindMember, BuildArray, CString;
    if i == end || t[i] != OPEN_BRACE {
      return Items([]);
    }
    var kind := ReadStringMember(t, i, end, KIND);
    if kind == Some(SEPARATOR) {
      return Items([Separator]);
    }
    var text := ReadStringMember(t, i, end, LABEL);
    if text.None? {
      return Items([]);
    }
    var title := CString(text.value);
    var enabled := ReadBoolMember(t, i, end, ENABLED, true);
    if kind == Some(SUBMENU) {
      var children := FindMemberValue(t, i, end, ITEMS);
      if children.Member? && children.value < children.stop && t[children.value] == OPEN_BRACKET {
        var items := AddMenuItemsFromArray(t, children.value, children.stop, depth + 1);
        return if items.Hang? then Hang else Items([Submenu(title, enabled, items.items)]);
      }
      return Items([Bare(title, enabled)]);
    }
    var id := ReadStringMember(t, i, end, ID);
    if kind == Some(CHECK) {
      var active := ReadBoolMember(t, i, end, CHECKED, false);
      return Items([Check(title, enabled, active, Click(id))]);
    }
    return Items([Plain(title, enabled, Click(id))]);
  }

  /** What is left to build from the cursor on, behind the items already appended. */
  ghost function Behind(items: seq<Node>, rest: Outcome): Outcome {
    if rest.Hang? then Hang else Items(items + rest.items)
  }

  method AddMenuItemsFromArray(t: bytes, i: nat, end: nat, depth: nat) returns (r: Outcome)
    requires i <= end <= |t|
    ensures r == BuildArray(t, i, end, depth)
    decreases end - i, 1
  {
    hide BuildItem, JsonScanner.SkipSpace, JsonScanner.ValueEnd, BuildLoop, LoopBody;
    if depth > MAX_DEPTH {
      return Items([]);
    }
    var cursor := SkipSpaces(t, i, end);
    if cursor == end || t[cursor] != OPEN_BRACKET {
      return Items([]);
    }
    cursor := cursor + 1;
    ghost var first := cursor;
    var items: seq<Node> := [];
    FirstTurn(t, first, end, depth);
    while cursor < end
      invariant first <= cursor <= end
      invariant BuildLoop(t, first, end, depth) == Behind(items, BuildLoop(t, cursor, end, depth))
      decreases end - cursor
    {
      OneTurn(t, cursor, end, depth, items);
      ghost var before := cursor;
      var start := SkipSpaces(t, cursor, end);
      if start == end || t[start] == CLOSE_BRACKET {
        EndTurn(t, before, end, depth);
        return Items(items);
      }
      if t[start] == COMMA {
        CommaTurn(t, before, end, depth);
        cursor := start + 1;
        assert items + [] == items;
        continue;
      }
      var itemEnd := FindValueEnd(t, start, end);
      ItemTurn(t, before, end, depth);
      if itemEnd.None? {
        return Items(items);
      }
      var item := AddMenuItem(t, start, itemEnd.value, depth);
      if item.Hang? {
        return Hang;
      }
      var next := SkipSpaces(t, itemEnd.value, end);
      if next < end && t[next] == COMMA {
        next := next + 1;
      }
      if next == cursor {
        // The C loop starts over with the same cursor and the same menu, and so never ends.
        return Hang;
      }
      items := items + item.items;
      cursor := next;
    }
    LastTurn(t, end, depth);
    assert items + [] == items;
    return Items(items);
  }

  /** The menu bar of a whole payload. */
  method MenuBarFromPayload(payload: bytes) returns (r: Option<Outcome>)
    ensures r == MenuBar(payload)
  {
    hide JsonScanner.SkipSpace, JsonScanner.FindMember, BuildArray;
    var root := SkipSpaces(payload, 0, |payload|);
    var items := JsonScanner.Member(root, |payload|);
    if root < |payload| && payload[root] == OPEN_BRACE {
      var range := FindMemberValue(payload, root, |payload|, ITEMS);
      if range.Member? {
        items := range;
      }
    }
    if items.value == items.stop || payload[items.value] != OPEN_BRACKET {
      return None;
    }
    var outcome := AddMenuItemsFromArray(payload, items.value, items.stop, 0);
    return Some(outcome);
  }

  lemma FirstTurn(t: bytes, i: nat, end: nat, depth: nat)
    requires i <= end <= |t|
    ensures BuildLoop(t, i, end, depth) == Behind([], BuildLoop(t, i, end, depth))
  {
    hide LoopBody;
    var rest := BuildLoop(t, i, end, depth);
    assert rest.Items? ==> [] + rest.items == rest.items;
  }

  lemma LastTurn(t: bytes, end: nat, depth: nat)
    requires end <= |t|
    ensures BuildLoop(t, end, end, depth) == Items([])
  {}

  /** One unfolding of the loop, with the items appended so far. */
  lemma OneTurn(t: bytes, i: nat, end: nat, depth: nat, items: seq<Node>)
    requires i < end <= |t|
    ensures Behind(items, BuildLoop(t, i, end, depth)) ==
            match LoopBody(t, i, end, depth)
            case Exit => Items(items)
            case Stuck => Hang
            case Turn(next, more) =>
              if next == i then Hang else Behind(items + more, BuildLoop(t, next, end, depth))
  {
    hide LoopBody;
    match LoopBody(t, i, end, depth)
    case Exit => assert items + [] == items;
    case Stuck =>
    case Turn(next, more) =>
      if next != i {
        var rest := BuildLoop(t, next, end, depth);
        if rest.Items? {
          assert items + (more + rest.items) == items + more + rest.items;
        }
      }
  }

  lemma EndTurn(t: bytes, i: nat, end: nat, depth: nat)
    requires i <= end <= |t|
    requires var start := JsonScanner.SkipSpace(t, i, end); start == end || t[start] == CLOSE_BRACKET
    ensures LoopBody(t, i, end, depth) == Exit
  {}

  lemma CommaTurn(t: bytes, i: nat, end: nat, depth: nat)
    requires i <= end <= |t|
    requires var start := JsonScanner.SkipSpace(t, i, end); start < end && t[start] == COMMA
    ensures LoopBody(t, i, end, depth) == Turn(JsonScanner.SkipSpace(t, i, end) + 1, [])
  {}

  lemma ItemTurn(t: bytes, i: nat, end: nat, depth: nat)
    requires i <= end <= |t|
    requires var start := JsonScanner.SkipSpace(t, i, end);
             start < end && t[start] != CLOSE_BRACKET && t[start] != COMMA
    ensures var start := JsonScanner.SkipSpace(t, i, end);
            LoopBody(t, i, end, depth) ==
            match JsonScanner.ValueEnd(t, start, end)
            case None => Exit
            case Some(itemEnd) =>
              match BuildItem(t, start, itemEnd, depth)
              case Hang => Stuck
              case Items(items) => Turn(JsonScanner.AfterComma(t, JsonScanner.SkipSpace(t, itemEnd, end), end), items)
  {
    hide JsonScanner.ValueEnd, BuildItem;
  }
}
