/** Command lines for auto-launch entries: every non-empty line of the argument text becomes one quoted
    word. They are read back by the quoting rules of the POSIX Shell Command Language, section 2.2,
    whose double quotes also cover the quoting of desktop entries. */
module CommandLine {
  import opened Results
  import opened Bytes
  import opened Quoting

  const EXEC: bytes := [101, 120, 101, 99]

  function Prefix(scheme: Scheme): bytes {
    if scheme == Shell then EXEC + [SPACE] else []
  }

  function LineEnd(args: bytes, i: nat): (r: nat)
    requires i <= |args|
    ensures i <= r <= |args| && NEWLINE !in args[i..r] && (r < |args| ==> args[r] == NEWLINE)
    decreases |args| - i
  {
    if i == |args| || args[i] == NEWLINE then i
    else
      var r := LineEnd(args, i + 1);
      assert args[i..r] == [args[i]] + args[i + 1..r];
      r
  }

  /** The non-empty lines from position `i` on. */
  function Parts(args: bytes, i: nat): seq<bytes>
    decreases |args| - i
  {
    if i >= |args| then []
    else
      var end := LineEnd(args, i);
      (if end == i then [] else [args[i..end]]) + Parts(args, end + 1)
  }

  function Word(scheme: Scheme, part: bytes): bytes {
    if part == [] then [] else [SPACE] + QuotedText(scheme, part)
  }

  function Tail(scheme: Scheme, args: bytes, i: nat): bytes
    decreases |args| - i
  {
    if i >= |args| then []
    else Word(scheme, args[i..LineEnd(args, i)]) + Tail(scheme, args, LineEnd(args, i) + 1)
  }

  function CommandText(scheme: Scheme, executable: bytes, args: bytes): bytes {
    Prefix(scheme) + QuotedText(scheme, executable) + Tail(scheme, args, 0)
  }

  // ----- the buffer is large enough -----

  /** Bytes reserved for each byte of the argument text. */
  function Share(scheme: Scheme): nat {
    if scheme == Shell then 4 else 3
  }

  function Budget(scheme: Scheme, executable: bytes, args: bytes): nat {
    |Prefix(scheme)| + |QuotedText(scheme, executable)| + |args| * Share(scheme) + 64
  }

  lemma {:induction false} EscapedBound(scheme: Scheme, text: bytes)
    requires scheme == Shell || scheme == Desktop
    ensures |Escaped(scheme, text)| <= (if scheme == Shell then 4 else 2) * |text|
    decreases |text|
  {
    if text != [] {
      EscapedBound(scheme, text[1..]);
    }
  }

  lemma WordBound(scheme: Scheme, part: bytes)
    requires scheme == Shell || scheme == Desktop
    ensures |Word(scheme, part)| <= Share(scheme) * |part| + 3
    ensures |Word(scheme, part)| <= Share(scheme) * (|part| + 1)
  {
    hide Escaped;
    EscapedBound(scheme, part);
  }

  lemma {:induction false} TailBound(scheme: Scheme, args: bytes, i: nat)
    requires scheme == Shell || scheme == Desktop
    requires i <= |args|
    ensures |Tail(scheme, args, i)| <= Share(scheme) * (|args| - i) + 3
    decreases |args| - i
  {
    hide LineEnd, Word;
    if i < |args| {
      var end := LineEnd(args, i);
      WordBound(scheme, args[i..end]);
      if end < |args| {
        TailBound(scheme, args, end + 1);
        if scheme == Shell {
          assert |Tail(scheme, args, i)| <= 4 * (end - i + 1) + 4 * (|args| - end - 1) + 3;
        } else {
          assert |Tail(scheme, args, i)| <= 3 * (end - i + 1) + 3 * (|args| - end - 1) + 3;
        }
      }
    }
  }

  /** The text always fits the allocated buffer, with its terminator. */
  lemma CommandFits(scheme: Scheme, executable: bytes, args: bytes)
    requires scheme == Shell || scheme == Desktop
    ensures |CommandText(scheme, executable, args)| <= Budget(scheme, executable, args)
  {
    hide Tail, QuotedText;
    TailBound(scheme, args, 0);
  }

  // ----- building the line -----

  /** Appends a piece and terminates the string again. */
  method Strcat(out: array<byte>, offset: nat, piece: bytes) returns (next: nat)
    requires offset + |piece| < out.Length
    modifies out
    ensures next == offset + |piece| && out[..next] == old(out[..offset]) + piece && out[next] == NUL
  {
    next := Put(out, offset, piece);
    out[next] := NUL;
  }

  method FindLineEnd(args: bytes, i: nat) returns (r: nat)
    requires i <= |args|
    ensures r == LineEnd(args, i)
  {
    r := i;
    while r < |args| && args[r] != NEWLINE
      invariant i <= r <= |args| && LineEnd(args, i) == LineEnd(args, r)
    {
      r := r + 1;
    }
  }

  /** Appends one argument behind a space; an empty line appends nothing. */
  method AppendWord(scheme: Scheme, part: bytes, out: array<byte>, offset: nat) returns (next: nat)
    requires offset + |Word(scheme, part)| < out.Length && out[offset] == NUL
    modifies out
    ensures next == offset + |Word(scheme, part)| && out[next] == NUL
    ensures out[..next] == old(out[..offset]) + Word(scheme, part)
  {
    hide QuotedText;
    next := offset;
    if part != [] {
      var quoted := Quote(scheme, part);
      assert quoted[..quoted.Length - 1] == QuotedText(scheme, part);
      next := Strcat(out, next, [SPACE]);
      next := Strcat(out, next, quoted[..quoted.Length - 1]);
    }
  }

  lemma TailStep(scheme: Scheme, args: bytes, i: nat)
    requires i <= |args|
    ensures Tail(scheme, args, i) ==
            if i == |args| then []
            else Word(scheme, args[i..LineEnd(args, i)]) + Tail(scheme, args, LineEnd(args, i) + 1)
    ensures Tail(scheme, args, |args| + 1) == []
  {
    hide Word, LineEnd;
  }

  /** Appends every non-empty line of the arguments. */
  method AppendArguments(scheme: Scheme, args: bytes, out: array<byte>, offset: nat) returns (next: nat)
    requires offset + |Tail(scheme, args, 0)| < out.Length && out[offset] == NUL
    modifies out
    ensures next == offset + |Tail(scheme, args, 0)| && out[next] == NUL
    ensures out[..next] == old(out[..offset]) + Tail(scheme, args, 0)
  {
    hide Tail, LineEnd, Word;
    next := offset;
    var start: nat := 0;
    ghost var text := out[..offset] + Tail(scheme, args, 0);
    while start < |args|
      invariant start <= |args| + 1 && next < out.Length && out[next] == NUL
      invariant text == out[..next] + Tail(scheme, args, start)
    {
      TailStep(scheme, args, start);
      var end := FindLineEnd(args, start);
      ghost var before := out[..next];
      ghost var word, rest := Word(scheme, args[start..end]), Tail(scheme, args, end + 1);
      assert text == before + word + rest;
      next := AppendWord(scheme, args[start..end], out, next);
      start := end + 1;
    }
    TailStep(scheme, args, |args|);
    assert text == out[..next] + [];
  }

  method BuildCommandLine(scheme: Scheme, executable: bytes, args: bytes) returns (out: array<byte>, length: nat)
    requires scheme == Shell || scheme == Desktop
    ensures out.Length == Budget(scheme, executable, args) + 1 && length < out.Length
    ensures out[..length] == CommandText(scheme, executable, args) && out[length] == NUL
  {
    hide QuotedText, Share, Tail, Prefix;
    var quoted := Quote(scheme, executable);
    assert quoted[..quoted.Length - 1] == QuotedText(scheme, executable);
    out := new byte[|Prefix(scheme)| + (quoted.Length - 1) + |args| * Share(scheme) + 64 + 1];
    CommandFits(scheme, executable, args);
    length := Strcat(out, 0, Prefix(scheme));
    length := Strcat(out, length, quoted[..quoted.Length - 1]);
    assert out[..length] == Prefix(scheme) + QuotedText(scheme, executable);
    length := AppendArguments(scheme, args, out, length);
  }

  // ----- reading the line back -----

  datatype Mode = Bare | Single | Double

  /** Outside quotes these have a meaning of their own: operators, expansions, patterns, comments. */
  predicate ShellSpecial(b: byte) {
    b == NEWLINE || b == 33 || b == 35 || b == DOLLAR || b == 38 || b == 40 || b == 41 || b == 42 || b == 59 || b == 60
    || b == 61 || b == 62 || b == 63 || b == 91 || b == BACKTICK || b == 124 || b == 126 || b == 123 || b == 125
  }

  function Grown(word: Option<bytes>, more: bytes): bytes {
    match word case None => more case Some(w) => w + more
  }

  function Finish(word: Option<bytes>): seq<bytes> {
    match word case None => [] case Some(w) => [w]
  }

  function Then(words: seq<bytes>, rest: Option<seq<bytes>>): Option<seq<bytes>> {
    match rest case None => None case Some(more) => Some(words + more)
  }

  /** The words of a simple command line, or none if a quote is left open or anything unquoted is not a
      plain character. `word` is the word begun, if any. */
  function Lex(s: bytes, i: nat, word: Option<bytes>, mode: Mode): Option<seq<bytes>>
    requires mode != Bare ==> word.Some?
    decreases |s| - i
  {
    match mode
    case Bare =>
      if i >= |s| then Some(Finish(word))
      else if s[i] == SPACE || s[i] == TAB then Then(Finish(word), Lex(s, i + 1, None, Bare))
      else if s[i] == APOSTROPHE then Lex(s, i + 1, Some(Grown(word, [])), Single)
      else if s[i] == QUOTE then Lex(s, i + 1, Some(Grown(word, [])), Double)
      else if s[i] == BACKSLASH then
        if i + 1 >= |s| || s[i + 1] == NEWLINE then None else Lex(s, i + 2, Some(Grown(word, [s[i + 1]])), Bare)
      else if ShellSpecial(s[i]) then None
      else Lex(s, i + 1, Some(Grown(word, [s[i]])), Bare)
    case Single =>
      if i >= |s| then None
      else if s[i] == APOSTROPHE then Lex(s, i + 1, word, Bare)
      else Lex(s, i + 1, Some(Grown(word, [s[i]])), Single)
    case Double =>
      if i >= |s| then None
      else if s[i] == QUOTE then Lex(s, i + 1, word, Bare)
      else if s[i] == DOLLAR || s[i] == BACKTICK then None
      else if s[i] == BACKSLASH && i + 1 < |s| && s[i + 1] == NEWLINE then Lex(s, i + 2, word, Double)
      else if s[i] == BACKSLASH && i + 1 < |s| &&
           DesktopSpecial(s[i + 1]) then Lex(s, i + 2, Some(Grown(word, [s[i + 1]])), Double)
      else Lex(s, i + 1, Some(Grown(word, [s[i]])), Double)
  }

  function Words(s: bytes): Option<seq<bytes>> {
    Lex(s, 0, None, Bare)
  }

  function Inside(scheme: Scheme): Mode {
    if scheme == Shell then Single else Double
  }

  lemma {:induction false} LexEscaped(scheme: Scheme, s: bytes, i: nat, text: bytes, word: bytes)
    requires scheme == Shell || scheme == Desktop
    requires At(s, i, Escaped(scheme, text))
    ensures Lex(s, i, Some(word), Inside(scheme)) ==
            Lex(s, i + |Escaped(scheme, text)|, Some(word + text), Inside(scheme))
    decreases |text|
  {
    hide At;
    if text == [] {
      assert word + text == word;
    } else {
      var head, rest := Escape(scheme, text[0]), Escaped(scheme, text[1..]);
      AtSplit(s, i, head, rest);
      LexOne(scheme, s, i, text[0], word);
      LexEscaped(scheme, s, i + |head|, text[1..], word + [text[0]]);
      assert word + [text[0]] + text[1..] == word + text;
    }
  }

  lemma LexOne(scheme: Scheme, s: bytes, i: nat, b: byte, word: bytes)
    requires scheme == Shell || scheme == Desktop
    requires At(s, i, Escape(scheme, b))
    ensures Lex(s, i, Some(word), Inside(scheme)) == Lex(s, i + |Escape(scheme, b)|, Some(word + [b]), Inside(scheme))
  {
    var head := Escape(scheme, b);
    assert s[i + 0] == head[0];
    if scheme == Shell {
      if b == APOSTROPHE {
        assert s[i + 1] == head[1] == BACKSLASH && s[i + 2] == head[2] == APOSTROPHE &&
               s[i + 3] == head[3] == APOSTROPHE;
        assert Grown(Some(word), [APOSTROPHE]) == word + [APOSTROPHE];
        assert Grown(Some(word + [APOSTROPHE]), []) == word + [APOSTROPHE];
        assert Lex(s, i, Some(word), Single) == Lex(s, i + 1, Some(word), Bare);
        assert Lex(s, i + 1, Some(word), Bare) == Lex(s, i + 3, Some(word + [b]), Bare);
        assert Lex(s, i + 3, Some(word + [b]), Bare) == Lex(s, i + 4, Some(word + [b]), Single);
      }
    } else if |head| == 2 {
      assert s[i + 1] == head[1];
    }
  }

  /** A quoted text is read as its bytes, appended to the word begun. */
  lemma LexQuoted(scheme: Scheme, s: bytes, i: nat, text: bytes, word: Option<bytes>)
    requires scheme == Shell || scheme == Desktop
    requires At(s, i, QuotedText(scheme, text))
    ensures Lex(s, i, word, Bare) == Lex(s, i + |QuotedText(scheme, text)|, Some(Grown(word, text)), Bare)
  {
    hide At, Escaped, Lex;
    var around, body := Around(scheme), Escaped(scheme, text);
    AtSplit(s, i, around, body + around);
    AtSplit(s, i + 1, body, around);
    OneByte(s, i, around);
    OneByte(s, i + 1 + |body|, around);
    LexEscaped(scheme, s, i + 1, text, Grown(word, []));
    assert Grown(word, []) + text == Grown(word, text);
    OpenQuote(scheme, s, i, word);
    CloseQuote(scheme, s, i + 1 + |body|, Grown(word, text));
  }

  lemma OneByte(s: bytes, i: nat, w: bytes)
    requires At(s, i, w) && |w| == 1
    ensures i < |s| && s[i] == w[0]
  {
    assert s[i + 0] == w[0];
  }

  lemma OpenQuote(scheme: Scheme, s: bytes, i: nat, word: Option<bytes>)
    requires scheme == Shell || scheme == Desktop
    requires i < |s| && s[i] == Around(scheme)[0]
    ensures Lex(s, i, word, Bare) == Lex(s, i + 1, Some(Grown(word, [])), Inside(scheme))
  {}

  lemma CloseQuote(scheme: Scheme, s: bytes, i: nat, word: bytes)
    requires scheme == Shell || scheme == Desktop
    requires i < |s| && s[i] == Around(scheme)[0]
    ensures Lex(s, i, Some(word), Inside(scheme)) == Lex(s, i + 1, Some(word), Bare)
  {}

  /** The words of the arguments, behind a word already begun. */
  lemma {:induction false} LexTail(scheme: Scheme, s: bytes, at: nat, args: bytes, i: nat, word: bytes)
    requires scheme == Shell || scheme == Desktop
    requires At(s, at, Tail(scheme, args, i)) && at + |Tail(scheme, args, i)| == |s|
    ensures Lex(s, at, Some(word), Bare) == Some([word] + Parts(args, i))
    decreases |args| - i
  {
    hide At, LineEnd, Lex, Word, Tail, Parts, Then;
    if i >= |args| {
      NothingMore(scheme, args, i);
      LexEnd(s, at, word);
    } else {
      TailStep(scheme, args, i);
      PartsStep(args, i);
      var end := LineEnd(args, i);
      var part := args[i..end];
      var rest := Tail(scheme, args, end + 1);
      AtSplit(s, at, Word(scheme, part), rest);
      LexWord(scheme, s, at, part, word);
      if part == [] {
        LexTail(scheme, s, at, args, end + 1, word);
      } else {
        LexTail(scheme, s, at + |Word(scheme, part)|, args, end + 1, part);
        ThenSome(word, [part] + Parts(args, end + 1));
      }
    }
  }

  lemma NothingMore(scheme: Scheme, args: bytes, i: nat)
    requires i >= |args|
    ensures Tail(scheme, args, i) == [] && Parts(args, i) == []
  {}

  lemma PartsStep(args: bytes, i: nat)
    requires i < |args|
    ensures var part := args[i..LineEnd(args, i)];
            Parts(args, i) ==
            if part == [] then Parts(args, LineEnd(args, i) + 1) else [part] + Parts(args, LineEnd(args, i) + 1)
  {
    hide LineEnd;
    var rest := Parts(args, LineEnd(args, i) + 1);
    assert [] + rest == rest;
  }

  lemma ThenSome(word: bytes, rest: seq<bytes>)
    ensures Then([word], Some(rest)) == Some([word] + rest)
  {}

  /** A space ends the word begun, and a quoted argument is the next one; an empty line adds nothing. */
  lemma LexWord(scheme: Scheme, s: bytes, at: nat, part: bytes, word: bytes)
    requires scheme == Shell || scheme == Desktop
    requires At(s, at, Word(scheme, part))
    ensures Lex(s, at, Some(word), Bare) ==
            if part == [] then Lex(s, at + |Word(scheme, part)|, Some(word), Bare)
            else Then([word], Lex(s, at + |Word(scheme, part)|, Some(part), Bare))
    ensures part == [] ==> Word(scheme, part) == []
  {
    hide At, Lex, QuotedText;
    if part != [] {
      AtSplit(s, at, [SPACE], QuotedText(scheme, part));
      OneByte(s, at, [SPACE]);
      LexSpace(s, at, word);
      LexQuoted(scheme, s, at + 1, part, None);
    }
  }

  lemma LexEnd(s: bytes, i: nat, word: bytes)
    requires i >= |s|
    ensures Lex(s, i, Some(word), Bare) == Some([word] + [])
  {
    assert [word] + [] == [word];
  }

  lemma LexSpace(s: bytes, i: nat, word: bytes)
    requires i < |s| && s[i] == SPACE
    ensures Lex(s, i, Some(word), Bare) == Then([word], Lex(s, i + 1, None, Bare))
  {}

  /** Every command line is read back as `exec` (in the shell form), the executable, and exactly the
      non-empty lines of the argument text, in order, whatever bytes they hold. */
  lemma CommandWords(scheme: Scheme, executable: bytes, args: bytes)
    requires scheme == Shell || scheme == Desktop
    ensures Words(CommandText(scheme, executable, args)) ==
            Some((if scheme == Shell then [EXEC] else []) + [executable] + Parts(args, 0))
  {
    hide At, Lex, Tail, QuotedText, Parts, Then;
    var s := CommandText(scheme, executable, args);
    var quoted, tail := QuotedText(scheme, executable), Tail(scheme, args, 0);
    var prefix := Prefix(scheme);
    AtSlice(s, 0, s);
    AtSplit(s, 0, prefix + quoted, tail);
    AtSplit(s, 0, prefix, quoted);
    LexTail(scheme, s, |prefix| + |quoted|, args, 0, executable);
    LexQuoted(scheme, s, |prefix|, executable, None);
    var words := [executable] + Parts(args, 0);
    assert Lex(s, |prefix|, None, Bare) == Some(words);
    if scheme == Shell {
      LexExec(s);
      ThenSome(EXEC, words);
      assert [EXEC] + words == [EXEC] + [executable] + Parts(args, 0);
    } else {
      assert [] + [executable] == [executable];
    }
  }

  lemma LexExec(s: bytes)
    requires At(s, 0, EXEC + [SPACE])
    ensures Lex(s, 0, None, Bare) == Then([EXEC], Lex(s, 5, None, Bare))
  {
    var w := EXEC + [SPACE];
    assert s[0 + 0] == w[0] && s[0 + 1] == w[1] && s[0 + 2] == w[2] && s[0 + 3] == w[3] && s[0 + 4] == w[4];
    assert Lex(s, 0, None, Bare) == Lex(s, 1, Some([101]), Bare);
    assert [101] + [120] == [101, 120];
    assert Lex(s, 1, Some([101]), Bare) == Lex(s, 2, Some([101, 120]), Bare);
    assert [101, 120] + [101] == [101, 120, 101];
    assert Lex(s, 2, Some([101, 120]), Bare) == Lex(s, 3, Some([101, 120, 101]), Bare);
    assert [101, 120, 101] + [99] == EXEC;
    assert Lex(s, 3, Some([101, 120, 101]), Bare) == Lex(s, 4, Some(EXEC), Bare);
  }
}
