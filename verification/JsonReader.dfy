/** The scanner loops of the Linux backend, proved against the functions of JsonScanner. */
module JsonReader {
  import opened Results
  import opened Bytes
  import JsonScanner

  method SkipSpaces(t: bytes, i: nat, end: nat) returns (r: nat)
    requires i <= end <= |t|
    ensures r == JsonScanner.SkipSpace(t, i, end)
  {
    r := i;
    while r < end && JsonScanner.IsSpace(t[r])
      invariant i <= r <= end
      invariant JsonScanner.SkipSpace(t, i, end) == JsonScanner.SkipSpace(t, r, end)
    {
      r := r + 1;
    }
  }

  method FindStringEnd(t: bytes, i: nat, end: nat) returns (r: Option<nat>)
    requires i <= end <= |t|
    ensures r == JsonScanner.StringEnd(t, i, end)
  {
    if i == end || t[i] != QUOTE {
      return None;
    }
    var cursor := i + 1;
    while cursor < end
      invariant i < cursor <= end
      invariant JsonScanner.StringEnd(t, i, end) == JsonScanner.StringScan(t, cursor, end)
    {
      if t[cursor] == BACKSLASH {
        cursor := cursor + if cursor + 1 < end then 2 else 1;
      } else if t[cursor] == QUOTE {
        return Some(cursor + 1);
      } else {
        cursor := cursor + 1;
      }
    }
    return None;
  }

  method FindValueEnd(t: bytes, i: nat, end: nat) returns (r: Option<nat>)
    requires i <= end <= |t|
    ensures r == JsonScanner.ValueEnd(t, i, end)
  {
    var cursor := SkipSpaces(t, i, end);
    if cursor == end {
      return None;
    }
    if t[cursor] == QUOTE {
      r := FindStringEnd(t, cursor, end);
      return;
    }
    if t[cursor] == OPEN_BRACE || t[cursor] == OPEN_BRACKET {
      var open := t[cursor];
      var close := JsonScanner.Closing(open);
      var depth: nat := 1;
      ghost var start := cursor + 1;
      cursor := cursor + 1;
      while cursor < end
        invariant start <= cursor <= end && depth > 0
        invariant JsonScanner.ContainerScan(t, start, end, open, 1) ==
                  JsonScanner.ContainerScan(t, cursor, end, open, depth)
        decreases end - cursor
      {
        if t[cursor] == QUOTE {
          var next := FindStringEnd(t, cursor, end);
          if next.None? {
            return None;
          }
          cursor := next.value;
        } else if t[cursor] == open {
          depth := depth + 1;
          cursor := cursor + 1;
        } else if t[cursor] == close {
          cursor := cursor + 1;
          if depth == 1 {
            return Some(cursor);
          }
          depth := depth - 1;
        } else {
          cursor := cursor + 1;
        }
      }
      return None;
    }
    ghost var start := cursor;
    while cursor < end && !JsonScanner.IsDelimiter(t[cursor])
      invariant start <= cursor <= end
      invariant JsonScanner.ScalarScan(t, start, end) == JsonScanner.ScalarScan(t, cursor, end)
    {
      cursor := cursor + 1;
    }
    return Some(cursor);
  }

  /** One turn of the lookup loop: key, colon, value, comma. */
  method ReadMember(t: bytes, cursor: nat, end: nat, name: bytes) returns (r: JsonScanner.Step)
    requires cursor <= end <= |t|
    ensures r == JsonScanner.MemberStep(t, cursor, end, name)
  {
    hide JsonScanner.SkipSpace, JsonScanner.StringEnd, JsonScanner.ValueEnd;
    var key := SkipSpaces(t, cursor, end);
    if key == end || t[key] == CLOSE_BRACE {
      return JsonScanner.Done(JsonScanner.NoMember);
    }
    var keyEnd := FindStringEnd(t, key, end);
    if keyEnd.None? {
      return JsonScanner.Done(JsonScanner.NoMember);
    }
    var colon := SkipSpaces(t, keyEnd.value, end);
    if colon == end || t[colon] != COLON {
      return JsonScanner.Done(JsonScanner.NoMember);
    }
    var value := SkipSpaces(t, colon + 1, end);
    var stop := FindValueEnd(t, value, end);
    if stop.None? {
      return JsonScanner.Done(JsonScanner.NoMember);
    }
    if t[key + 1..keyEnd.value - 1] == name {
      return JsonScanner.Done(JsonScanner.Member(value, stop.value));
    }
    var next := SkipSpaces(t, stop.value, end);
    if next < end && t[next] == COMMA {
      next := next + 1;
    }
    return JsonScanner.Continue(next);
  }

  method FindMemberValue(t: bytes, start: nat, end: nat, name: bytes) returns (r: JsonScanner.Member)
    requires start <= end <= |t|
    ensures r == JsonScanner.FindMember(t, start, end, name)
  {
    hide JsonScanner.SkipSpace, JsonScanner.MemberStep;
    var cursor := SkipSpaces(t, start, end);
    if cursor == end || t[cursor] != OPEN_BRACE {
      return JsonScanner.NoMember;
    }
    cursor := cursor + 1;
    ghost var first := cursor;
    while cursor < end
      invariant first <= cursor <= end
      invariant JsonScanner.MemberScan(t, first, end, name) == JsonScanner.MemberScan(t, cursor, end, name)
      decreases end - cursor
    {
      var step := ReadMember(t, cursor, end, name);
      match step
      case Done(member) => return member;
      case Continue(next) => cursor := next;
    }
    JsonScanner.NoMoreMembers(t, end, end, name);
    return JsonScanner.NoMember;
  }
}
