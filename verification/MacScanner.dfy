/** The macOS backend writes the same scanner differently. Its scanning agrees with the Linux scanner
    on all bytes; its boolean lookup does not. */
module MacScanner {
  import opened Results
  import opened Bytes
  import opened Words
  import opened JsonGrammar
  import opened JsonScanner
  import MenuBuilder

  /** From inside a string to its closing quote; a backslash at the end steps over the end. */
  function MacStringEnd(t: bytes, i: nat, end: nat): (r: Option<nat>)
    requires end <= |t|
    ensures r.Some? ==> i <= r.value < end && t[r.value] == QUOTE
    decreases end - i
  {
    if i >= end then None
    else if t[i] == BACKSLASH then MacStringEnd(t, i + 2, end)
    else if t[i] == QUOTE then Some(i)
    else MacStringEnd(t, i + 1, end)
  }

  /** The depth starts at zero, before the opening bracket; the result is the closing bracket. */
  function MacContainerScan(t: bytes, i: nat, end: nat, open: byte, depth: nat): (r: Option<nat>)
    requires end <= |t|
    requires depth == 0 ==> i >= end || t[i] == open
    requires IsOpening(open)
    ensures r.Some? ==> i <= r.value < end
    decreases end - i
  {
    if i >= end then None
    else if t[i] == QUOTE then
      match MacStringEnd(t, i + 1, end)
      case None => None
      case Some(quote) => MacContainerScan(t, quote + 1, end, open, depth)
    else if t[i] == open then MacContainerScan(t, i + 1, end, open, depth + 1)
    else if t[i] == Closing(open) then
      if depth == 1 then Some(i) else MacContainerScan(t, i + 1, end, open, depth - 1)
    else MacContainerScan(t, i + 1, end, open, depth)
  }

  function MacContainerEnd(t: bytes, i: nat, end: nat): Option<nat>
    requires end <= |t|
  {
    if i >= end || !IsOpening(t[i]) then None else MacContainerScan(t, i, end, t[i], 0)
  }

  function After(at: Option<nat>): Option<nat> {
    match at case None => None case Some(i) => Some(i + 1)
  }

  function MacValueEnd(t: bytes, i: nat, end: nat): (r: Option<nat>)
    requires i <= end <= |t|
    ensures r.Some? ==> i <= r.value <= end
  {
    var cursor := SkipSpace(t, i, end);
    if cursor == end then None
    else if t[cursor] == QUOTE then After(MacStringEnd(t, cursor + 1, end))
    else if IsOpening(t[cursor]) then After(MacContainerEnd(t, cursor, end))
    else Some(ScalarScan(t, cursor, end))
  }

  method FindMacStringEnd(t: bytes, i: nat, end: nat) returns (r: Option<nat>)
    requires end <= |t|
    ensures r == MacStringEnd(t, i, end)
  {
    var cursor := i;
    while cursor < end
      invariant MacStringEnd(t, i, end) == MacStringEnd(t, cursor, end)
    {
      if t[cursor] == BACKSLASH {
        cursor := cursor + 2;
      } else if t[cursor] == QUOTE {
        return Some(cursor);
      } else {
        cursor := cursor + 1;
      }
    }
    return None;
  }

  method FindMacContainerEnd(t: bytes, i: nat, end: nat) returns (r: Option<nat>)
    requires end <= |t|
    ensures r == MacContainerEnd(t, i, end)
  {
    if i >= end || !IsOpening(t[i]) {
      return None;
    }
    var open := t[i];
    var close := Closing(open);
    var depth: nat := 0;
    var cursor := i;
    while cursor < end
      invariant depth == 0 ==> cursor == i
      invariant MacContainerEnd(t, i, end) == MacContainerScan(t, cursor, end, open, depth)
      decreases end - cursor
    {
      if t[cursor] == QUOTE {
        var quote := FindMacStringEnd(t, cursor + 1, end);
        if quote.None? {
          return None;
        }
        cursor := quote.value;
      } else if t[cursor] == open {
        depth := depth + 1;
      } else if t[cursor] == close {
        depth := depth - 1;
        if depth == 0 {
          return Some(cursor);
        }
      }
      cursor := cursor + 1;
    }
    return None;
  }

  // ----- agreement on all bytes -----

  lemma {:induction false} StringsAgree(t: bytes, i: nat, end: nat)
    requires i <= end <= |t|
    ensures After(MacStringEnd(t, i, end)) == StringScan(t, i, end)
    decreases end - i
  {
    if i < end && t[i] != QUOTE {
      if t[i] != BACKSLASH {
        StringsAgree(t, i + 1, end);
      } else if i + 1 < end {
        StringsAgree(t, i + 2, end);
      }
    }
  }

  lemma {:induction false} ContainersAgree(t: bytes, i: nat, end: nat, open: byte, depth: nat)
    requires i <= end <= |t| && depth > 0 && IsOpening(open)
    ensures After(MacContainerScan(t, i, end, open, depth)) == ContainerScan(t, i, end, open, depth)
    decreases end - i
  {
    hide MacStringEnd, StringScan;
    if i < end {
      if t[i] == QUOTE {
        StringsAgree(t, i + 1, end);
        if MacStringEnd(t, i + 1, end).Some? {
          ContainersAgree(t, MacStringEnd(t, i + 1, end).value + 1, end, open, depth);
        }
      } else {
        ContainersAgree(t, i + 1, end, open,
                        if t[i] == open then depth + 1
                        else if t[i] == Closing(open) && depth > 1 then depth - 1 else depth);
      }
    }
  }

  /** Both ways of writing the scanner give the same end of value, on well-formed and on broken text. */
  lemma ScannersAgree(t: bytes, i: nat, end: nat)
    requires i <= end <= |t|
    ensures MacValueEnd(t, i, end) == ValueEnd(t, i, end)
  {
    hide MacStringEnd, StringScan, ContainerScan, SkipSpace, ScalarScan;
    var cursor := SkipSpace(t, i, end);
    if cursor < end {
      StringsAgree(t, cursor + 1, end);
      if IsOpening(t[cursor]) {
        ContainersAgree(t, cursor + 1, end, t[cursor], 1);
      }
    }
  }

  // ----- member lookup -----

  function MacFindMember(t: bytes, start: nat, end: nat, name: bytes): Member
    requires end <= |t|
  {
    if start >= end || t[start] != OPEN_BRACE then NoMember
    else
      match MacContainerEnd(t, start, end)
      case None => NoMember
      case Some(close) => if start == close then NoMember else MacMemberScan(t, start + 1, close, name)
  }

  function MacMemberScan(t: bytes, i: nat, end: nat, name: bytes): Member
    requires i <= end <= |t|
    decreases end - i
  {
    match MacMemberStep(t, i, end, name)
    case Done(member) => member
    case Continue(next) => MacMemberScan(t, next, end, name)
  }

  function MacMemberStep(t: bytes, i: nat, end: nat, name: bytes): (r: Step)
    requires i <= end <= |t|
    ensures r.Continue? ==> i < r.next <= end
  {
    var key := SkipSpace(t, i, end);
    if key == end || t[key] != QUOTE then Done(NoMember)
    else
      match MacStringEnd(t, key + 1, end)
      case None => Done(NoMember)
      case Some(keyEnd) =>
        var colon := SkipSpace(t, keyEnd + 1, end);
        if colon == end || t[colon] != COLON then Done(NoMember)
        else
          var value := SkipSpace(t, colon + 1, end);
          match MacValueEnd(t, value, end)
          case None => Done(NoMember)
          case Some(stop) =>
            if t[key + 1..keyEnd] == name then Done(Member(value, stop))
            else Continue(AfterComma(t, SkipSpace(t, stop, end), end))
  }

  lemma {:induction false} MacMemberScanExact(t: bytes, i: nat, end: nat, name: bytes, members: Members)
    requires MembersStand(t, i, end, members) && i + |PrintMembers(members)| == end
    ensures MacMemberScan(t, i, end, name) == Located(Locate(members, name, i))
    decreases members
  {
    hide At, WellFormed, WellFormedRaw, Print, MacMemberStep, Quoted, Stop, ValueOffset;
    if members.MNil? {
      NoMembers(t, i, end, name, []);
    } else {
      MacMemberTurn(t, i, end, name, members);
      if members.rest.MCons? {
        MacMemberScanExact(t, i + ValueOffset(members) + |Print(members.v)| + |members.after| + 1, end, name,
                           members.rest);
      } else {
        NoMembers(t, end, end, name, []);
      }
    }
  }

  lemma MacMemberTurn(t: bytes, i: nat, end: nat, name: bytes, m: Members)
    requires m.MCons? && MembersStand(t, i, end, m) && i + |PrintMembers(m)| == end
    ensures var value := i + ValueOffset(m);
            var next := value + |Print(m.v)| + |m.after|;
            && next <= end
            && (m.rest.MNil? ==> next == end)
            && (m.rest.MCons? ==> next < end && MembersStand(t, next + 1, end, m.rest) &&
                                  next + 1 + |PrintMembers(m.rest)| == end)
            && MacMemberStep(t, i, end, name) ==
               if m.key == name then Done(Member(value, value + Stop(m.v, m.after)))
               else Continue(if m.rest.MCons? then next + 1 else next)
  {
    hide At, WellFormed, WellFormedRaw, Print, ValueEnd, MacValueEnd, SkipSpace, Quoted, MacStringEnd, StringScan,
         Stop, Blank, PrintMembers, ValueOffset;
    HeadMember(t, i, end, m);
    StringsAgree(t, i + |m.before| + 1, end);
    ScannersAgree(t, i + ValueOffset(m), end);
  }

  /** On every well-formed object the macOS lookup finds what the Linux lookup finds. */
  lemma LookupsAgree(t: bytes, i: nat, end: nat, name: bytes, pad: bytes, members: Members)
    requires At(t, i, Print(Obj(pad, members))) && WellFormed(Obj(pad, members))
    requires i + |Print(Obj(pad, members))| <= end <= |t|
    ensures MacFindMember(t, i, end, name) == FindMember(t, i, end, name) == Located(Locate(members, name, i + 1))
  {
    hide At, PrintMembers, WellFormedMembers, MemberScan, MacMemberScan, FindMember, MacContainerScan, ContainerScan;
    FindMemberExact(t, i, end, name, pad, members);
    var body := ObjectBody(pad, members);
    AtSplit(t, i, [OPEN_BRACE], body + [CLOSE_BRACE]);
    AtSplit(t, i + 1, body, [CLOSE_BRACE]);
    AtByte(t, i, OPEN_BRACE);
    ContainerEnd(t, i, end, Obj(pad, members));
    ContainersAgree(t, i + 1, end, OPEN_BRACE, 1);
    FirstStep(t, i, end);
    var close := i + 1 + |body|;
    if members.MNil? {
      NoMembers(t, i + 1, close, name, pad);
    } else {
      MacMemberScanExact(t, i + 1, close, name, members);
    }
  }

  lemma FirstStep(t: bytes, i: nat, end: nat)
    requires i < end <= |t| && t[i] == OPEN_BRACE
    ensures MacContainerEnd(t, i, end) == MacContainerScan(t, i + 1, end, OPEN_BRACE, 1)
  {}

  lemma NoMembers(t: bytes, i: nat, end: nat, name: bytes, pad: bytes)
    requires At(t, i, pad) && Blank(pad) && i + |pad| == end <= |t|
    ensures MacMemberScan(t, i, end, name) == NoMember
  {
    SkipBlank(t, i, end, pad);
    assert MacMemberStep(t, i, end, name) == Done(NoMember);
  }

  // ----- the boolean lookup -----

  /** The whole range of the value is compared with the word, blanks after the literal included. */
  function MacBoolMember(t: bytes, i: nat, end: nat, name: bytes, fallback: bool): bool
    requires end <= |t|
  {
    match MacFindMember(t, i, end, name)
    case NoMember => fallback
    case Member(value, stop) =>
      if value <= stop <= end && t[value..stop] == TRUE then true
      else if value <= stop <= end && t[value..stop] == FALSE then false
      else fallback
  }

  /** The macOS lookup returns the member's boolean exactly when no blank follows the literal, or the
      boolean is the fallback anyway. */
  lemma MacBoolExact(t: bytes, i: nat, end: nat, v: Value, name: bytes, fallback: bool)
    requires MenuBuilder.ObjectRange(t, i, end, v)
    ensures MacBoolMember(t, i, end, name, fallback) == MenuBuilder.BoolMember(t, i, end, name, fallback) <==>
            var found := Locate(v.members, name, i + 1);
            found.Found? && found.v.Scalar? && (found.v.text == TRUE || found.v.text == FALSE) ==>
              found.after == [] || (found.v.text == TRUE) == fallback
  {
    hide At, WellFormed, Print, MacFindMember, FindMember, MenuBuilder.BoolMember, SkipSpace;
    LookupsAgree(t, i, end, name, v.pad, v.members);
    MenuBuilder.LocateLookup(v.members, name, i + 1);
    MenuBuilder.BoolMemberExact(t, i, end, v, name, fallback);
    var found := Locate(v.members, name, i + 1);
    if found.Found? {
      MenuBuilder.MembersInside(t, i, end, v);
      LocatedStands(t, i + 1, end, name, v.members);
      WholeRange(t, found.value, end, found.v, found.after, TRUE);
      WholeRange(t, found.value, end, found.v, found.after, FALSE);
    }
  }

  /** The scanned range of a value is a literal exactly when the value is and nothing follows it. */
  lemma WholeRange(t: bytes, value: nat, end: nat, v: Value, after: bytes, word: bytes)
    requires Stands(t, value, end, v, after) && (word == TRUE || word == FALSE)
    ensures value + Stop(v, after) <= end
    ensures t[value..value + Stop(v, after)] == word <==> v == Scalar(word) && after == []
  {
    hide At, WellFormed;
    var stop := value + Stop(v, after);
    FirstByte(v);
    AtSlice(t, value, Print(v));
    AtSlice(t, value + |Print(v)|, after);
    assert t[value] == Print(v)[0] && t[value..stop][0] == t[value];
    if v.Scalar? {
      assert t[value..stop] == v.text + after;
      assert after != [] ==> (v.text + after)[|v.text|] == after[0];
      assert v.text + [] == v.text;
    }
  }

  /** `{"a":false }` : the blank before the brace turns the stored false into the fallback. */
  lemma MacDropsFalse()
    ensures var t := [OPEN_BRACE, QUOTE, 97, QUOTE, COLON] + FALSE + [SPACE, CLOSE_BRACE];
            MacBoolMember(t, 0, |t|, [97], true) && !MenuBuilder.BoolMember(t, 0, |t|, [97], true)
  {
    hide MacBoolMember, MenuBuilder.BoolMember;
    var v := Obj([], MCons([], [97], [], [], Scalar(FALSE), [SPACE], MNil));
    var t := [OPEN_BRACE, QUOTE, 97, QUOTE, COLON] + FALSE + [SPACE, CLOSE_BRACE];
    assert PrintMembers(v.members) == Quoted([97]) + ([COLON] + (FALSE + [SPACE])) by {
      assert MembersTail(MNil) == [];
    }
    assert Print(v) == t;
    assert WellFormed(v) by {
      assert WellFormedRaw([97]) by { assert WellFormedRaw([97][1..]); }
      assert WellFormedMembers(MNil);
      assert WellFormedMembers(v.members);
    }
    AtSlice(t, 0, t);
    MacBoolExact(t, 0, |t|, v, [97], true);
    MenuBuilder.BoolMemberExact(t, 0, |t|, v, [97], true);
  }
}
