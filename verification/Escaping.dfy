/** The MoonBit escapes are chains of replace_all calls. Texts are UTF-8 bytes here: every replaced
    character is ASCII, and in UTF-8 an ASCII byte stands for nothing but itself. */
module Escaping {
  import opened Results
  import opened Bytes
  import opened Quoting
  import opened CommandLine
  import JsonGrammar

  /** Every occurrence of `old`, found from the left without overlap, becomes `written`. */
  function ReplaceAll(s: bytes, sought: bytes, written: bytes): bytes
    requires sought != []
  {
    if |s| < |sought| then s
    else if s[..|sought|] == sought then written + ReplaceAll(s[|sought|..], sought, written)
    else [s[0]] + ReplaceAll(s[1..], sought, written)
  }

  datatype Replacement = Replacement(sought: byte, written: bytes)

  /** The replacements one after the other, each over the whole result of the one before. */
  function Chain(s: bytes, steps: seq<Replacement>): bytes
    decreases |steps|
  {
    if steps == [] then s else Chain(ReplaceAll(s, [steps[0].sought], steps[0].written), steps[1..])
  }

  /** String::json_string without its quotes. */
  const JSON_CHAIN: seq<Replacement> :=
    [Replacement(BACKSLASH, [BACKSLASH, BACKSLASH]), Replacement(QUOTE, [BACKSLASH, QUOTE]),
     Replacement(NEWLINE, [BACKSLASH, 110]), Replacement(CARRIAGE_RETURN, [BACKSLASH, 114]),
     Replacement(TAB, [BACKSLASH, 116])]

  /** String::xml_escape. */
  const XML_CHAIN: seq<Replacement> :=
    [Replacement(38, XmlEntity(38)), Replacement(60, XmlEntity(60)), Replacement(62, XmlEntity(62)),
     Replacement(QUOTE, XmlEntity(QUOTE)), Replacement(APOSTROPHE, XmlEntity(APOSTROPHE))]

  /** String::c_string_escape. */
  const C_CHAIN: seq<Replacement> :=
    [Replacement(BACKSLASH, [BACKSLASH, BACKSLASH]), Replacement(QUOTE, [BACKSLASH, QUOTE]),
     Replacement(NEWLINE, [BACKSLASH, 110]), Replacement(CARRIAGE_RETURN, [BACKSLASH, 114])]

  /** String::shell_double_quote_escape. */
  const SHELL_CHAIN: seq<Replacement> :=
    [Replacement(BACKSLASH, [BACKSLASH, BACKSLASH]), Replacement(QUOTE, [BACKSLASH, QUOTE]),
     Replacement(DOLLAR, [BACKSLASH, DOLLAR]), Replacement(BACKTICK, [BACKSLASH, BACKTICK])]

  lemma {:induction false} ReplaceDistributes(a: bytes, b: bytes, sought: byte, written: bytes)
    ensures ReplaceAll(a + b, [sought], written) == ReplaceAll(a, [sought], written) + ReplaceAll(b, [sought], written)
    decreases |a|
  {
    if a == [] {
      assert [] + b == b;
    } else {
      var s := a + b;
      assert s[1..] == a[1..] + b && s[..1] == a[..1] == [a[0]];
      ReplaceDistributes(a[1..], b, sought, written);
    }
  }

  /** A chain works on each piece of a text by itself. */
  lemma {:induction false} ChainDistributes(a: bytes, b: bytes, steps: seq<Replacement>)
    ensures Chain(a + b, steps) == Chain(a, steps) + Chain(b, steps)
    decreases |steps|
  {
    hide ReplaceAll;
    if steps != [] {
      ReplaceDistributes(a, b, steps[0].sought, steps[0].written);
      ChainDistributes(ReplaceAll(a, [steps[0].sought], steps[0].written),
                       ReplaceAll(b, [steps[0].sought], steps[0].written), steps[1..]);
    }
  }

  lemma {:induction false} ChainEmpty(steps: seq<Replacement>)
    ensures Chain([], steps) == []
    decreases |steps|
  {
    if steps != [] {
      ChainEmpty(steps[1..]);
    }
  }

  /** A chain that escapes every single byte as a scheme does escapes every text as the scheme does: no
      replacement spoils the work of an earlier one. */
  lemma {:induction false} ChainIsOnePass(text: bytes, steps: seq<Replacement>, scheme: Scheme)
    requires forall b: byte :: Chain([b], steps) == Escape(scheme, b)
    ensures Chain(text, steps) == Escaped(scheme, text)
    decreases |text|
  {
    hide Chain, Escape;
    if text == [] {
      ChainEmpty(steps);
    } else {
      ChainIsOnePass(text[1..], steps, scheme);
      ChainDistributes([text[0]], text[1..], steps);
      assert [text[0]] + text[1..] == text;
    }
  }

  /** One replacement on a text that does not hold its character changes nothing. */
  lemma {:induction false} ReplaceAbsent(s: bytes, sought: byte, written: bytes)
    requires sought !in s
    ensures ReplaceAll(s, [sought], written) == s
    decreases |s|
  {
    if s != [] {
      assert s[..1] == [s[0]];
      ReplaceAbsent(s[1..], sought, written);
      assert [s[0]] + s[1..] == s;
    }
  }

  lemma ReplaceSingle(sought: byte, written: bytes)
    ensures ReplaceAll([sought], [sought], written) == written
  {
    assert [sought][..1] == [sought] && [sought][1..] == [];
    assert written + [] == written;
  }

  /** Once a byte has been replaced, the rest of the chain leaves the result alone if it replaces none
      of its bytes; and a byte no step replaces stays. */
  lemma {:induction false} ChainLeaves(s: bytes, steps: seq<Replacement>)
    requires forall k :: 0 <= k < |steps| ==> steps[k].sought !in s
    ensures Chain(s, steps) == s
    decreases |steps|
  {
    hide ReplaceAll;
    if steps != [] {
      ReplaceAbsent(s, steps[0].sought, steps[0].written);
      ChainLeaves(s, steps[1..]);
    }
  }

  /** The steps of a chain have different characters, and what a step writes holds no character that a
      later step replaces. */
  predicate Settled(steps: seq<Replacement>) {
    forall i, j :: 0 <= i < j < |steps| ==> steps[i].sought != steps[j].sought && steps[j].sought !in steps[i].written
  }

  lemma {:induction false} ChainSingle(b: byte, steps: seq<Replacement>, k: nat)
    requires Settled(steps) && k < |steps| && steps[k].sought == b
    ensures Chain([b], steps) == steps[k].written
    decreases |steps|
  {
    hide ReplaceAll;
    var rest := steps[1..];
    assert forall i :: 0 <= i < |rest| ==> rest[i] == steps[i + 1];
    if k == 0 {
      ReplaceSingle(b, steps[0].written);
      ChainLeaves(steps[0].written, rest);
    } else {
      ReplaceAbsent([b], steps[0].sought, steps[0].written);
      ChainSingle(b, rest, k - 1);
    }
  }

  /** Taken one by one, the steps treat the byte as the scheme does. */
  ghost predicate Follows(b: byte, steps: seq<Replacement>, scheme: Scheme) {
    && (forall k :: 0 <= k < |steps| && steps[k].sought == b ==> steps[k].written == Escape(scheme, b))
    && ((forall k :: 0 <= k < |steps| ==> steps[k].sought != b) ==> Escape(scheme, b) == [b])
  }

  /** Then the chain as a whole does. */
  lemma ChainByte(b: byte, steps: seq<Replacement>, scheme: Scheme)
    requires Settled(steps) && Follows(b, steps, scheme)
    ensures Chain([b], steps) == Escape(scheme, b)
  {
    hide Chain, Escape, Settled;
    if k :| 0 <= k < |steps| && steps[k].sought == b {
      ChainSingle(b, steps, k);
    } else {
      ChainLeaves([b], steps);
    }
  }

  /** The four chains are the one-pass escapes, for every text: json_string escapes as the file dialog
      does, xml_escape as the auto-launch XML escape, shell_double_quote_escape as desktop quoting. */
  lemma ChainsAreOnePass(text: bytes)
    ensures Chain(text, JSON_CHAIN) == Escaped(Json, text)
    ensures Chain(text, XML_CHAIN) == Escaped(Xml, text)
    ensures Chain(text, C_CHAIN) == Escaped(CSource, text)
    ensures Chain(text, SHELL_CHAIN) == Escaped(Desktop, text)
  {
    JsonChainBytes();
    XmlChainBytes();
    CChainBytes();
    ShellChainBytes();
    ChainIsOnePass(text, JSON_CHAIN, Json);
    ChainIsOnePass(text, XML_CHAIN, Xml);
    ChainIsOnePass(text, C_CHAIN, CSource);
    ChainIsOnePass(text, SHELL_CHAIN, Desktop);
  }

  lemma JsonChainBytes()
    ensures forall b: byte :: Chain([b], JSON_CHAIN) == Escape(Json, b)
  {
    hide Chain;
    forall b: byte ensures Chain([b], JSON_CHAIN) == Escape(Json, b) {
      assert JSON_CHAIN[0].sought == BACKSLASH && JSON_CHAIN[1].sought == QUOTE && JSON_CHAIN[2].sought == NEWLINE &&
        JSON_CHAIN[3].sought == CARRIAGE_RETURN && JSON_CHAIN[4].sought == TAB;
      ChainByte(b, JSON_CHAIN, Json);
    }
  }

  lemma XmlChainBytes()
    ensures forall b: byte :: Chain([b], XML_CHAIN) == Escape(Xml, b)
  {
    hide Chain;
    forall b: byte ensures Chain([b], XML_CHAIN) == Escape(Xml, b) {
      assert XML_CHAIN[0].sought == 38 && XML_CHAIN[1].sought == 60 && XML_CHAIN[2].sought == 62 &&
        XML_CHAIN[3].sought == QUOTE && XML_CHAIN[4].sought == APOSTROPHE;
      ChainByte(b, XML_CHAIN, Xml);
    }
  }

  lemma CChainBytes()
    ensures forall b: byte :: Chain([b], C_CHAIN) == Escape(CSource, b)
  {
    hide Chain;
    forall b: byte ensures Chain([b], C_CHAIN) == Escape(CSource, b) {
      assert C_CHAIN[0].sought == BACKSLASH && C_CHAIN[1].sought == QUOTE && C_CHAIN[2].sought == NEWLINE &&
        C_CHAIN[3].sought == CARRIAGE_RETURN;
      ChainByte(b, C_CHAIN, CSource);
    }
  }

  lemma ShellChainBytes()
    ensures forall b: byte :: Chain([b], SHELL_CHAIN) == Escape(Desktop, b)
  {
    hide Chain;
    forall b: byte ensures Chain([b], SHELL_CHAIN) == Escape(Desktop, b) {
      assert SHELL_CHAIN[0].sought == BACKSLASH && SHELL_CHAIN[1].sought == QUOTE && SHELL_CHAIN[2].sought == DOLLAR &&
        SHELL_CHAIN[3].sought == BACKTICK;
      ChainByte(b, SHELL_CHAIN, Desktop);
    }
  }

  /** Each chain is undone by its decoder for every text; the JSON chain gives the contents of a JSON
      string exactly when the text holds no control character but newline, carriage return and tab. */
  lemma ChainsRoundTrip(text: bytes)
    ensures JsonDecode(Chain(text, JSON_CHAIN)) == Some(text)
    ensures JsonGrammar.WellFormedRaw(Chain(text, JSON_CHAIN)) <==> Printable(text)
    ensures XmlDecode(Chain(text, XML_CHAIN)) == Some(text)
    ensures CDecode(Chain(text, C_CHAIN)) == Some(text)
    ensures Words([QUOTE] + (Chain(text, SHELL_CHAIN) + [QUOTE])) == Some([text])
  {
    hide Chain, Escaped, JsonDecode, XmlDecode, JsonGrammar.WellFormedRaw, Printable, Lex;
    ChainsAreOnePass(text);
    JsonRoundTrip(Json, text);
    JsonContentsExact(Json, text);
    XmlRoundTrip(text);
    CSourceRoundTrip(text);
    var s := QuotedText(Desktop, text);
    AtSlice(s, 0, s);
    LexQuoted(Desktop, s, 0, text, None);
    LexEnd(s, |s|, text);
    assert [text] + [] == [text];
  }
}
