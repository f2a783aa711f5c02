# Verification of the Lepusa native loop and its runtime tables

Lepusa runs desktop applications: a MoonBit runtime answers bridge messages with byte packets, and a
native loop, written by hand in C for each platform, decodes the packets and changes windows, menus,
drain requests and service processes. This project models that logic in Dafny and proves what it keeps,
over all byte strings, all trees, all runs and all answers of the other side.

Run `dafny verify dfyconfig.toml` in this directory.

## What is modelled

- **Packets** (`PacketCodec`, `PacketReader`, `RecordReader`, `HandoffScript`, `CommandPacket`, with `Bytes`,
  `Decimal`, `Words`, `Results`). The handoff packet `status\n<window>\n<len>\n<body>\n<ops>` and its
  `lepusa-ops-v3` records of fourteen length-prefixed fields. The encoder follows the runtime's own writer
  (`runtime/native_operations.mbt`, `runtime/bridge_transport.mbt`), the decoder the C readers. The set of
  accepted status lines is a parameter: `immediate` on Linux and macOS, also `deferred` on Windows.
- **JSON scanning and menus** (`JsonGrammar`, `JsonScanner`, `JsonReader`, `MacScanner`, `MenuBuilder`,
  `MenuReader`, `MenuRoundTrip`, `MenuAgreement`, `MenuRuns`). RFC 8259 values as trees that carry their own
  blanks, number texts and raw strings, with a printer; the range scanner that counts one bracket kind, member
  lookup, and the recursive menu builder; the differently written macOS scanner beside them; the menu plugin's
  own decoding of the same payload, compared with what the builder shows; and runs of the plugin's application
  menu against the native loop.
- **The native loop** (`LoopSpec`, `LoopInvariants`, `LoopRuns`, `LoopTheorems`, `LoopOverlay`, `LoopLiveness`,
  `PacketEffects`, `ShellEffects`, `MessageEffects`, `LateWindow`, `BridgeContext`). Window slots, the primary
  window, the menus, the drain queue and the six passes over a packet, first as functions on a state and then as
  a class with the source's arrays and counters, each method proved equal to its function; and, from the bytes
  of a packet to the toolkit call, what each kind of record and each message does. `gtk_widget_destroy` runs the
  destroy callback synchronously; the toolkit hands out fresh handles; the runtime's answers to drain requests
  are an arbitrary function.
- **Service processes** (`ServiceTable`): the 64 entries, process ids and signals.
- **Quoting** (`Quoting`, `CommandLine`, `DialogPaths`, `Escaping`): the measure-and-fill quoting routines,
  the POSIX command line and the desktop-entry line with their buffer formulas, the growing JSON array of
  paths, and the `replace_all` chains; with the lexers and decoders that undo them: POSIX shell quoting
  (sections 2.2.1 to 2.2.3 of the POSIX.1-2017 Shell Command Language), XML 1.0 section 4.6 and RFC 8259
  section 7.
- **Runtime tables** (`Channels`, `EventBus`, with `IdLists`): histories over whole runs, with mutable classes.
- **Capabilities** (`Permissions`, `Scopes`, `Policy`, `Manifest`): the policy, operation scopes, filesystem
  widening, and the command manifest compiled from the policy.

## What turned out not to hold

Each of these is kept as the code has it; a lemma gives an input, and another says exactly when the
property does hold.

- The Linux menu builder does not return on every payload: `[}` keeps it in its loop for ever
  (`MenuBuilder.BraceHangs`). It hangs exactly on the payloads in which a closing brace stands where an item
  should start, in an array it enters, at any nesting (`MenuBuilder.MenuBarHangsExact`,
  `MenuBuilder.ArrayHangsExact`); so it returns on all well-formed JSON (`MenuRoundTrip.MenuBarExact`). The
  menu plugin forwards only text it has parsed as JSON (plugins/menu/menu.mbt:391-407, 660-684), so such a
  payload would have to reach the C code from another writer.
- The menu that is shown is not always the menu the plugin stored: the builder compares raw bytes and takes
  the first member of a key, the plugin undoes escapes and keeps the last (`MenuAgreement.ReadersDiffer`).
  Where both read the same members they agree exactly when the shown texts hold no escape and every item but
  a separator has a string label (`MenuAgreement.PayloadAgreesExact`); what the plugin accepts has its labels,
  so there the escapes alone decide (`MenuAgreement.AcceptedAgreesExact`). They read the same member exactly
  under `MenuAgreement.KeysReadAlikeExact`.
- `menu.setItemEnabled` and `menu.setItemChecked` change the stored menu and are passed on, but the Linux loop
  has no case for them (`MenuRuns.ItemActionsIgnored`): what is shown stays equal to what is stored exactly
  when every shown item the change reaches has the value already (`MenuRuns.IdleExact`; over whole runs of
  menu calls, `MenuRuns.RunAgreesExact`).
- The macOS reader of a boolean menu member loses the value when a blank follows the literal
  (`MacScanner.MacBoolExact`, `MacScanner.MacDropsFalse`); the Linux reader does not.
- A window label with a newline breaks its packet (`PacketCodec.HandoffRoundTripExact`); a NUL byte in the
  window or the body loses the immediate script (`HandoffScript.ImmediateScriptExact`).
- A label of 128 bytes or more, or with a NUL, is never found again, so opening it twice makes two windows
  with one stored label (`LoopTheorems.OddLabelOpensTwice`, `LoopTheorems.OpenKeepsNamesExact`).
- Once the last window has gone, a window opened later is live but the context has no primary window and
  ignores every message (`LoopTheorems.LateWindowIsDeaf`, `LoopTheorems.PrimaryLiveExact`). A run gets there by
  two drain requests, the answer to the first closing the last window and the answer to the second opening
  one (`LateWindow.LateWindowReached`).
- A menu payload that gives no menu leaves the old bar in place although the payload or the flag is stored;
  and clearing a window's own menu leaves its old bar when the stored application payload gives none
  (`LoopTheorems.ClearedMenuStays`). The plugin itself sends such a payload: an object with two `items`, of
  which it reads the last and the builder the first (`MenuRuns.RepeatedItemsUnshown`). The exact conditions
  are `LoopTheorems.SetAppMenuExact`, `LoopTheorems.SetWindowMenuExact` and
  `LoopTheorems.ClearWindowMenuExact`; over runs the overlay holds in every state gone through exactly when
  every menu step meets its condition (`LoopOverlay.AlwaysShowsExact`, `LoopTheorems.StepShowsExact`).
- An operation on an unknown label falls on the first window (`LoopLiveness.SecondCloseHitsFirst`, exactly:
  `LoopLiveness.TargetExact`), and a window opened on a full table is shown but registered nowhere
  (`LoopLiveness.OpenRegistersExact`).
- A command that no granted window may use is compiled with an empty origin list, which admits every origin
  (`Manifest.OriginsExact`); and an entry can admit an origin in one window that the policy allows only in
  another (`Manifest.ManifestCanAdmitMore`; exactly when it cannot: `Manifest.EntryIsPolicyExact`).
- The path scope `/` does not contain `/etc`, because a separator is appended to a root that is one
  (`Scopes.SystemRootHoldsNoFile`). A root contains its children exactly when it is empty or is more than
  separators (`Scopes.ChildExact`; `Scopes.ContinuationExact` for every continued path).
- The JSON writers leave control characters other than newline, carriage return and tab as they are, which
  RFC 8259 does not allow in a string (`Quoting.JsonContentsExact`, `DialogPaths.PathsRoundTrip`,
  `Escaping.ChainsRoundTrip`).
- Two different commands can have one route (`Manifest.DottedPluginsShareRoutes`): two plugins of different
  names can share one exactly when the name of one is the other's with a dot and more behind it
  (`Manifest.SharedRouteExact`). App validation refuses duplicate routes (app.mbt:203-222); then every declared
  command is found, and not only the first of a route (`Manifest.EveryCommandNeverRefused`).
- README.mbt.md:665-668 says all three platforms consume the operations of a handoff packet; the code on
  Linux and macOS reads them only from `immediate` packets (`PacketCodec.DeferredByPlatform`). The model
  follows the code.

## Model

| member | source | states |
|---|---|---|
| PacketCodec.ReadFieldExact | runtime/linux/linux_backend.c:981-1015 | a field read succeeds with a value and an end exactly when the bytes up to that end are a digit line, a newline and that many bytes |
| PacketCodec.HandoffRoundTrip | runtime/linux/linux_backend.c:1142-1187 | decoding an encoded handoff gives back its status, window, body and every record, and consumes all bytes, for all field bytes and bodies |
| PacketCodec.HandoffRoundTripExact | runtime/bridge_transport.mbt:1270-1277 | window and records come back exactly when the window has no newline |
| PacketCodec.StatusDecides | runtime/linux/linux_backend.c:640-646 | the records of an encoded packet are visited exactly when its status line is an accepted one |
| PacketCodec.DeferredByPlatform | runtime/windows/windows_backend.c:934-936 | the operations of a deferred packet are read on Windows and ignored on Linux and macOS |
| PacketCodec.HandoffExact | runtime/linux/linux_backend.c:632-676 | a packet, whatever its bytes, is accepted exactly when it consists of an accepted status, a window line, a length line and a body of that length; the operations start behind the body and one newline, if there is one |
| PacketCodec.BatchExact | runtime/linux/linux_backend.c:1142-1187 | the operations section, whatever its bytes, is read exactly when it starts with `lepusa-ops-v3` and a line with the count |
| PacketCodec.NumberExact | runtime/linux/linux_backend.c:655-664 | a length line is read exactly when it is digits of a value below 2^31 |
| PacketCodec.WireOrder | runtime/native_operations.mbt:785-808 | the fourteen field texts become the kind, window, action, url, title, sizes, position and flags in this order |
| PacketCodec.InitialOpenRoundTrip | runtime/native_operations.mbt:620-645 | the start-up packet, which lacks the newline after its body, is decoded to its records |
| PacketCodec.HandoffInjective | runtime/native_operations.mbt:785-808 | equal packets carry equal status, window, body and records |
| PacketCodec.TruncationSafe | runtime/linux/linux_backend.c:632-676 | the records decoded from any prefix of any bytes are a prefix of those decoded from the whole |
| PacketCodec.RecordsInPrefix | runtime/linux/linux_backend.c:1017-1092 | the same at any cursor, and a complete decoding of a prefix is the decoding of the whole |
| PacketCodec.FieldInPrefix | runtime/linux/linux_backend.c:981-1015 | a field read from a prefix is the field read from the whole |
| PacketCodec.ReadsRecords | runtime/linux/linux_backend.c:1017-1092 | encoded records standing anywhere in a text are read back in order, the cursor ending right behind them |
| Decimal.ParseLengthExact | runtime/linux/linux_backend.c:994-1006 | the digit loop that refuses early accepts exactly the digit texts whose value fits 31 bits, and returns that value |
| PacketReader.FindNewlineRange | runtime/linux/linux_backend.c:618-630 | the loop finds the first newline of the range, or none |
| PacketReader.ReadDigits | runtime/linux/linux_backend.c:994-1006 | the loop with its early exit is the parse of the whole digit text |
| PacketReader.ReadPacketField | runtime/linux/linux_backend.c:981-1015 | a successful read strictly advances and stays in the range; a failed one leaves the cursor |
| PacketReader.ReadNativeOperationRecord | runtime/linux/linux_backend.c:1017-1092 | the chain of fourteen reads is the record read, and fails exactly when one field does |
| PacketReader.HandoffOperationsRange | runtime/windows/windows_backend.c:923-965 | the operations start where the sections end, for a packet with an accepted status line only |
| PacketReader.HandoffOperationRecords | runtime/linux/linux_backend.c:1142-1187 | the cursor and the count behind the version and count lines, or a refusal |
| RecordReader.ParseRecordInt | runtime/linux/linux_backend.c:1094-1121 | the digit loop accepts an optional minus and digits, and gives their value |
| RecordReader.ReadControl | runtime/linux/linux_backend.c:1219-1310 | the toolkit call of a window-control record, or none when its arguments are bad |
| RecordReader.ReadLong | runtime/linux/linux_backend.c:596-601 | the whole-line number of strtol |
| RecordReader.ReadImmediateScript | runtime/linux/linux_backend.c:564-616 | the line reader over the C string gives the script of the specification |
| HandoffScript.ImmediateScriptExact | runtime/linux/linux_backend.c:564-616 | the C-string reader returns the script of an encoded immediate packet exactly when window and body hold no NUL |
| HandoffScript.ScriptExact | runtime/linux/linux_backend.c:564-616 | a packet, whatever its bytes, has a script exactly when its C string is `immediate`, a window line, a line with a whole number, and as many bytes |
| HandoffScript.WholeLongExact | runtime/linux/linux_backend.c:596-601 | a line is a number exactly when it is blanks, at most one sign and digits, and then that number |
| CommandPacket.CommandRoundTrip | runtime/service_supervisor.mbt:34-41 | a service command comes back as C strings exactly when its program name is not empty |
| CommandPacket.ParseCommandPacket | runtime/linux/linux_backend.c:3327-3392 | the two nested loops read the packet as the recursive reader does, and refuse the same packets |
| JsonScanner.ValueEndExact | runtime/linux/linux_backend.c:1493-1534 | on every well-formed value the scan stops at its end, for numbers and literals at the next delimiter with only blanks between |
| JsonScanner.ScanValue | runtime/linux/linux_backend.c:1502-1526 | counting one bracket kind passes over a whole well-formed value and comes out at the same depth |
| JsonScanner.StringEndQuoted | runtime/linux/linux_backend.c:1476-1491 | a quoted string with any well-formed escapes ends at its own quote, and its raw text lies between |
| JsonScanner.FindMemberExact | runtime/linux/linux_backend.c:1536-1584 | lookup finds the value of the first top-level member with that raw key and nothing else, never a key inside a nested value |
| JsonScanner.LocatedStands | runtime/linux/linux_backend.c:1536-1584 | where the lookup points, that member's value stands in the text |
| JsonReader.SkipSpaces | runtime/linux/linux_backend.c:1469-1474 | the loop stops at the first byte that is not a blank |
| JsonReader.FindStringEnd | runtime/linux/linux_backend.c:1476-1491 | the loop over escapes returns the end just after the closing quote, or none |
| JsonReader.FindValueEnd | runtime/linux/linux_backend.c:1493-1534 | the scanning loop equals the recursive scan for which the theorems are proved |
| JsonReader.ReadMember | runtime/linux/linux_backend.c:1547-1581 | one turn of the lookup loop, with every way it can give up |
| JsonReader.FindMemberValue | runtime/linux/linux_backend.c:1536-1584 | the lookup loop equals the recursive lookup, with its error exits |
| MenuBuilder.BuildArrayExact | runtime/linux/linux_backend.c:2291-2436 | for every well-formed array at every depth the builder appends exactly the items the tree stands for; below nesting depth 8 none |
| MenuBuilder.ArrayHangsExact | runtime/linux/linux_backend.c:2291-2436 | on any bytes and at any depth the builder never returns exactly when a closing brace stands at an item position of an array it enters |
| MenuBuilder.MenuBarHangsExact | runtime/linux/linux_backend.c:2438-2484 | the same for whole payloads: which ones hang, and no others |
| MenuBuilder.BraceHangs | runtime/linux/linux_backend.c:2303-2320 | the payload of an opening bracket and a closing brace keeps the builder in its loop |
| MenuBuilder.StringMemberExact | runtime/linux/linux_backend.c:1843-1863 | a string member is read as the raw text of the first such member if that is a string, and holds no NUL |
| MenuBuilder.BoolMemberExact | runtime/linux/linux_backend.c:1865-1878 | a boolean member is read as its literal, and as the fallback if it is missing or something else |
| MenuReader.AddMenuItem | runtime/linux/linux_backend.c:2321-2425 | one turn's widget building equals the item the specification builds, submenus by recursion |
| MenuReader.AddMenuItemsFromArray | runtime/linux/linux_backend.c:2291-2436 | the recursive loop returns the specified items for every byte range, or reports the hang |
| MenuReader.ReadStringMember | runtime/linux/linux_backend.c:1843-1863 | the range of a string member, as specified |
| MenuReader.ReadBoolMember | runtime/linux/linux_backend.c:1865-1878 | the value of a boolean member, as specified |
| MenuRoundTrip.MenuBarExact | runtime/linux/linux_backend.c:2438-2484 | on every JSON text with any blanks around, the menu bar is the tree's menu, and there is a bar exactly when the text holds an array of items |
| MenuRoundTrip.MenuRoundTrip | runtime/linux/linux_backend.c:2291-2436 | any JSON text describing a menu, whatever its blanks, member order and extra members, is built into exactly that menu, cut below depth 8 |
| MenuRoundTrip.NineLevels | runtime/linux/linux_backend.c:2291-2306 | a menu is shown whole exactly when it has at most nine levels of items, and what is shown never has more |
| MenuAgreement.PayloadAgreesExact | plugins/menu/menu.mbt:660-770 | for every payload text in any layout that the plugin decodes, with both readers on the same members, the shown menu is the stored menu, cut below depth 8, exactly when the shown texts hold no escape and every item but a separator has a string label |
| MenuAgreement.ItemsAgree | plugins/menu/menu.mbt:714-770 | the same for item arrays at every depth, with kinds, labels, ids, flags and submenus |
| MenuAgreement.AcceptedAgreesExact | plugins/menu/menu.mbt:159-173 | for payloads the plugin's checks of labels, identifiers and empty menus let through: shown is stored exactly when the shown texts hold no escape |
| MenuAgreement.KeysReadAlikeExact | plugins/menu/menu.mbt:987-1001 | with given keys, both readers find the same value whatever the values are, exactly when the first member with the raw key is the last with the unescaped key |
| MenuAgreement.UnescapedExact | plugins/menu/menu.mbt:987-992 | a string's text is its raw bytes exactly when it holds no backslash; every escape makes it shorter |
| MenuAgreement.PairExact | plugins/menu/menu.mbt:987-992 | a pair of surrogates is read as its code point |
| MenuAgreement.Utf8Exact | plugins/menu/menu.mbt:987-992 | the bytes written for a code point carry that code point |
| MenuAgreement.ReadersDiffer | runtime/linux/linux_backend.c:1843-1863 | an escaped label is shown with its backslash, and of two labels the first is shown and the last stored |
| MenuRuns.UpdateMenuItems | plugins/menu/menu.mbt:569-588 | the loop changes every item with the identifier outside changed submenus and no other, and reports whether there is one |
| MenuRuns.IdleExact | plugins/menu/menu.mbt:569-601 | changing an item leaves what showing the menu means as it was exactly when each shown item it reaches has the value already |
| MenuRuns.ItemActionsIgnored | runtime/linux/linux_backend.c:2665-2784 | a record of an item change leaves the native loop as it is |
| MenuRuns.SetShowsExact | plugins/menu/menu.mbt:391-407 | an accepted payload always gives a menu bar, and the stored one exactly when no shown text has an escape |
| MenuRuns.CallAgreesExact | plugins/menu/menu.mbt:501-533 | from agreement, setting, clearing or changing the application menu keeps stored and shown menu equal exactly under the condition of the call |
| MenuRuns.RunAgreesExact | plugins/menu/menu.mbt:391-533 | over every run of such calls both menus agree all the way exactly when each call meets its condition in the state it finds |
| MenuRuns.RepeatedItemsUnshown | plugins/menu/menu.mbt:660-681 | a payload the plugin accepts and the builder gives no bar for; after it a cleared window menu stays |
| MenuReader.MenuBarFromPayload | runtime/linux/linux_backend.c:2438-2484 | the range of the items and the builder over it |
| MacScanner.ScannersAgree | runtime/macos/macos_backend.c:1516-1575 | the macOS value scan ends where the Linux one does on all bytes, well-formed or not |
| MacScanner.LookupsAgree | runtime/macos/macos_backend.c:1577-1629 | on every well-formed object both lookups find the same member |
| MacScanner.MacBoolExact | runtime/macos/macos_backend.c:1654-1672 | the macOS boolean equals the Linux one exactly when no blank follows the literal or the literal is the fallback |
| MacScanner.MacDropsFalse | runtime/macos/macos_backend.c:1654-1672 | an object whose stored false is read as true |
| MacScanner.FindMacStringEnd | runtime/macos/macos_backend.c:1516-1527 | the index loop, which steps over escaped bytes, finds the closing quote |
| MacScanner.FindMacContainerEnd | runtime/macos/macos_backend.c:1529-1556 | the loop that starts at depth zero finds the closing bracket |
| LoopRuns.RunKeeps | runtime/linux/linux_backend.c:3273-3315 | in every run the windows, quit and drain invariants hold, and the menu overlay as long as every menu step has met its exact condition |
| LoopRuns.ProcessDrainsConserves | runtime/linux/linux_backend.c:3146-3195 | accepted requests are sent or queued, each once and in order; at most 32*32 are sent; at the end the queue is empty or 32 rounds ran |
| LoopRuns.RoundKeeps | runtime/linux/linux_backend.c:3153-3194 | one round sends exactly the queue it found while the answers fill it again |
| LoopRuns.StepKeeps | runtime/linux/linux_backend.c:1189-1316 | every record in every pass keeps the invariant, and the call log only grows |
| LoopInvariants.DestroyedKeeps | runtime/linux/linux_backend.c:3467-3480 | destroying any window keeps the invariant; quit, after service termination, is asked for only when none is left |
| LoopInvariants.RemoveKeepsWindows | runtime/linux/linux_backend.c:892-926 | compaction keeps labels and handles distinct and moves the primary pair to a live slot while there is one |
| LoopInvariants.OpenKeeps | runtime/linux/linux_backend.c:2919-3091 | opening keeps the invariant, also when the table is full |
| LoopInvariants.SetAppMenuKeeps | runtime/linux/linux_backend.c:2568-2603 | setting the application menu keeps every window on its own menu or else the application's, or notes a drift exactly when its condition fails |
| LoopInvariants.ClearAppMenuKeeps | runtime/linux/linux_backend.c:2605-2618 | so does clearing it |
| LoopInvariants.SetWindowMenuKeeps | runtime/linux/linux_backend.c:2620-2637 | so does setting a window's own menu |
| LoopInvariants.ClearWindowMenuKeeps | runtime/linux/linux_backend.c:2639-2663 | and clearing it, which brings the application menu back under the condition of ClearWindowMenuExact, and is noted as a drift otherwise |
| LoopTheorems.CloseAllExact | runtime/linux/linux_backend.c:1318-1328 | closing all windows destroys each once, last slot first, and leaves no slot and no primary window; termination and quit come at the very end, and not at all without a window |
| LoopTheorems.CloseDownExact | runtime/linux/linux_backend.c:1318-1328 | the downward loop over the table that shrinks under it, with everything else unchanged |
| LoopTheorems.StablePartition | runtime/linux/linux_backend.c:3117-3127 | the six passes visit each record of a known kind at exactly one point, grouped in the order of the passes, in packet order inside a group |
| LoopTheorems.SelectPositions | runtime/linux/linux_backend.c:3117-3127 | what a pass selects are the records at the positions the partition gives it |
| LoopTheorems.StepsSelect | runtime/linux/linux_backend.c:2665-2909 | a pass over all records is a pass over those of its own kind |
| LoopTheorems.OperationsByKind | runtime/linux/linux_backend.c:3117-3127 | with a primary window, carrying out a packet is the six passes over their own records, navigations being skipped only when the controls closed the last window |
| LoopTheorems.PrimaryLiveExact | runtime/linux/linux_backend.c:892-926 | in every run the primary pair is a live window exactly until quit is first asked for |
| LoopTheorems.LateWindowIsDeaf | runtime/linux/linux_backend.c:3280-3287 | a window opened after that is live, but every message is ignored |
| LateWindow.LateWindowReached | runtime/linux/linux_backend.c:3146-3195 | for any two drain requests whose answers close the last window and open one: the run ends with a registered window, no primary window, and every message ignored |
| PacketEffects.ControlEffect | runtime/linux/linux_backend.c:1285-1303 | a packet with one window-control record makes exactly the call its action names - show, hide, focus, minimize, maximize, unmaximize - for the window the label reaches |
| PacketEffects.TitleEffect | runtime/linux/linux_backend.c:1238-1243 | setTitle sets what C reads of the title, and nothing else |
| PacketEffects.SizeEffect | runtime/linux/linux_backend.c:1244-1256 | setSize resizes to the two printed numbers if both are positive, and does nothing for any other texts |
| PacketEffects.PositionEffect | runtime/linux/linux_backend.c:1257-1268 | setPosition moves to the two printed numbers, signs included, and does nothing for any other texts |
| PacketEffects.FullscreenEffect | runtime/linux/linux_backend.c:1268-1284 | setFullscreen takes `true` and `false` and nothing else; an unknown action makes no call |
| PacketEffects.ParseIntExact | runtime/linux/linux_backend.c:1094-1121 | a text is a number exactly when it is an optional minus and digits, and then that number |
| PacketEffects.CloseEffect | runtime/linux/linux_backend.c:1219-1233 | a closing record destroys the window the label reaches, takes its slot out, and hands the primary pair on; with the last window, termination and quit follow |
| PacketEffects.OneClosePerPacket | runtime/linux/linux_backend.c:1207-1233 | of several closing records in one packet only the first is carried out |
| PacketEffects.ScriptEffect | runtime/linux/linux_backend.c:2865-2909 | a script record runs what C reads of its text in the view of the window reached; an empty one runs nothing |
| PacketEffects.NavigateEffect | runtime/linux/linux_backend.c:2786-2826 | a navigation record loads its page there, also an empty one |
| PacketEffects.DrainEffect | runtime/linux/linux_backend.c:928-955 | a drain request is queued with its label and its callback, as far as the buffers hold them, unless 32 are waiting or the callback is empty |
| PacketEffects.OpenEffect | runtime/linux/linux_backend.c:2919-3091 | a new label opens a window with its title, page, size and flag, or their fallbacks; it is registered last unless 32 are, and starts with the application menu |
| PacketEffects.OpenRefused | runtime/linux/linux_backend.c:2919-3091 | without a label or a page, or for a label in the table, nothing is opened |
| PacketEffects.NoPrimaryEffect | runtime/linux/linux_backend.c:1189-1199 | without a primary window scripts, controls and navigations are not carried out |
| PacketEffects.ReachedExact | runtime/linux/linux_backend.c:804-843 | an operation reaches the first window that bears its label, or else the first of all |
| PacketEffects.StartEffect | runtime/linux/linux_backend.c:3821-3824 | the start-up packet opens its windows as any packet with these records would |
| ShellEffects.ExitEffect | runtime/linux/linux_backend.c:2754-2763 | exit destroys every window, last slot first, then asks for termination and quit; restart does so exactly when a copy of the process could be started |
| ShellEffects.ShowEffect | runtime/linux/linux_backend.c:2768-2782 | show makes the two calls, and hide the one, for the window the label reaches |
| ShellEffects.SetAppMenuEffect | runtime/linux/linux_backend.c:2690-2693 | the application menu is stored, and shown by exactly the windows without a menu of their own |
| ShellEffects.ClearAppMenuEffect | runtime/linux/linux_backend.c:2694-2697 | it goes, and with it the bars of those windows |
| ShellEffects.WindowMenuEffect | runtime/linux/linux_backend.c:2698-2714 | one window gets its own menu, or gets the application menu back; all other windows stay |
| ShellEffects.OtherActions | runtime/linux/linux_backend.c:2665-2784 | every other action, with or without a domain, leaves the loop as it is |
| MessageEffects.PacketWindowExact | runtime/linux/linux_backend.c:957-979 | the label a packet is for is its second line: it comes back exactly when it holds no newline |
| MessageEffects.MessageEffect | runtime/linux/linux_backend.c:3273-3315 | the first call of a message runs its script in the view of the window its second line names, or else of the first window; then come its operations and the drains |
| MessageEffects.OtherStatusEffect | runtime/linux/linux_backend.c:3273-3315 | a packet with another status runs no script and carries nothing out |
| MessageEffects.DispatchEffect | runtime/linux/linux_backend.c:3129-3195 | the oldest drain request is answered for `lepusa-drain-v1` and its label, and the answer's script runs in the view of the window that asked, before the answer's operations |
| PacketEffects.OnlyPass | runtime/linux/linux_backend.c:3117-3127 | carrying out a packet whose records are all of one pass is that pass, in any state |
| LoopTheorems.OpenKeepsNamesExact | runtime/linux/linux_backend.c:845-885 | opening keeps labels distinct exactly when the cut label is new; a label that fits always is |
| LoopTheorems.OddLabelOpensTwice | runtime/linux/linux_backend.c:785-824 | a label that does not fit the buffer is opened twice under one stored label |
| LoopTheorems.SetAppMenuExact | runtime/linux/linux_backend.c:2587-2603 | the windows show what was asked for afterwards exactly when the payload gives a menu or no affected window shows one |
| LoopTheorems.SetWindowMenuExact | runtime/linux/linux_backend.c:2526-2566 | the same for a window's own menu |
| LoopTheorems.ClearWindowMenuExact | runtime/linux/linux_backend.c:2639-2663 | clearing a window's menu shows what was asked for exactly when there is no window, no application payload, one that gives a menu, or no bar |
| LoopTheorems.ClearAppMenuExact | runtime/linux/linux_backend.c:2605-2618 | clearing the application menu always does |
| LoopTheorems.ClearedMenuStays | runtime/linux/linux_backend.c:2639-2663 | a run of three menu steps after which a cleared menu is still shown |
| LoopTheorems.StepShowsExact | runtime/linux/linux_backend.c:2665-2784 | any record in any pass keeps the overlay exactly when it meets the condition of its kind |
| LoopTheorems.RecordsShowExact | runtime/linux/linux_backend.c:2665-2784 | over the records of a pass the overlay held after each one exactly when none failed its condition |
| LoopTheorems.RunShows | runtime/linux/linux_backend.c:2568-2663 | in every run in which each menu step met its condition, each live window shows its own menu or else the application's or none |
| LoopOverlay.OperationsShowExact | runtime/linux/linux_backend.c:3117-3127 | over a packet's six passes no step drifts exactly when the overlay held before and after every record |
| LoopOverlay.RoundsShowExact | runtime/linux/linux_backend.c:3146-3195 | the same over the drain rounds and every answer in them |
| LoopOverlay.AlwaysShowsExact | runtime/linux/linux_backend.c:2568-2663 | in every run no menu step fails its condition exactly when each live window shows its own menu or else the application's or none in every state gone through |
| LoopLiveness.RunSound | runtime/linux/linux_backend.c:3273-3315 | in every run no toolkit call names a window that ended before it, destroyed by a call or closed by its user, or its view; so none is destroyed twice |
| LoopLiveness.ClosedIsFinal | runtime/linux/linux_backend.c:3467-3480 | whatever came before and comes after, from the event of a user closing a window on no call names it or its view |
| LoopLiveness.TargetExact | runtime/linux/linux_backend.c:826-843 | a label reaches the window that bears it exactly when there is one, and otherwise the first window |
| LoopLiveness.SecondCloseHitsFirst | runtime/linux/linux_backend.c:1189-1316 | closing a label that is not in the table destroys the first window |
| LoopLiveness.OpenRegistersExact | runtime/linux/linux_backend.c:845-885 | an opened window is registered exactly when the table had room |
| BridgeContext.Context.constructor | runtime/linux/linux_backend.c:3743-3782 | the context starts with the main window in slot 0 and a zeroed tail |
| BridgeContext.Context.FindWindowSlotExact | runtime/linux/linux_backend.c:804-824 | the first slot whose stored label is the name |
| BridgeContext.Context.FindWindowSlot | runtime/linux/linux_backend.c:826-843 | the exact slot, or the first one |
| BridgeContext.Context.RegisterWindowSlot | runtime/linux/linux_backend.c:845-885 | the table after registering, keeping both counters equal and the tail zero |
| BridgeContext.Context.RemoveWindowSlot | runtime/linux/linux_backend.c:892-926 | the table after compaction, with the primary pair moved |
| BridgeContext.Context.ShiftDown | runtime/linux/linux_backend.c:905-912 | the shifting loop moves every later slot down by one and touches nothing else |
| BridgeContext.Context.OnWindowDestroyed | runtime/linux/linux_backend.c:3467-3480 | the destroy callback, with termination and quit when the count reaches zero |
| BridgeContext.Context.CloseAllWindows | runtime/linux/linux_backend.c:1318-1328 | the loop whose every call re-enters the table |
| BridgeContext.Context.SetMenuBar | runtime/linux/linux_backend.c:2526-2566 | one slot's bar is replaced, or kept when the payload gives none; all other slots stay |
| BridgeContext.Context.ApplyAppMenuToAvailableWindows | runtime/linux/linux_backend.c:2568-2585 | the loop sets the payload on every window without its own menu and touches no other slot |
| BridgeContext.Context.SetApplicationMenu | runtime/linux/linux_backend.c:2568-2603 | the payload is stored and every window without its own menu gets its bar |
| BridgeContext.Context.ClearApplicationMenu | runtime/linux/linux_backend.c:2605-2618 | the payload and the bars of those windows go |
| BridgeContext.Context.SetSpecificWindowMenu | runtime/linux/linux_backend.c:2620-2637 | one window's flag and bar |
| BridgeContext.Context.ClearSpecificWindowMenu | runtime/linux/linux_backend.c:2639-2663 | one window's flag, and the application menu again |
| BridgeContext.Context.RegisterBridgeDrainRequest | runtime/linux/linux_backend.c:928-955 | a request is queued behind the others unless the queue is full or the callback empty |
| BridgeContext.Context.OpenWindowFromRecord | runtime/linux/linux_backend.c:2919-3091 | the new window, its slot and its starting menu, or nothing for a bad or known label |
| BridgeContext.Context.ApplyControl | runtime/linux/linux_backend.c:1189-1316 | one window-control record, with at most one window closed by a pass |
| BridgeContext.Context.ApplyShellAction | runtime/linux/linux_backend.c:2665-2784 | one desktop-shell record |
| BridgeContext.Context.ApplyRecord | runtime/linux/linux_backend.c:2786-2909 | one record in any pass |
| BridgeContext.Context.ApplyPassFromHandoffPacket | runtime/linux/linux_backend.c:3093-3115 | a pass that decodes while it acts equals the pass over the decoded records |
| BridgeContext.Context.ApplyOperationsFromHandoffPacket | runtime/linux/linux_backend.c:3117-3127 | the six passes in order, each decoding the bytes again |
| BridgeContext.Context.EvaluateImmediate | runtime/linux/linux_backend.c:3291-3311 | the immediate script runs in the given view, if there is one |
| BridgeContext.Context.ProcessBridgeDrainRequests | runtime/linux/linux_backend.c:3146-3195 | the bounded rounds over a queue that the answers refill |
| BridgeContext.Context.OnScriptMessage | runtime/linux/linux_backend.c:3273-3315 | a whole message: immediate script, operations, drains |
| ServiceTable.RunConserves | runtime/linux/linux_backend.c:3394-3451 | in every run each process started is in exactly one entry or has been sent SIGTERM, never both, and none is signalled twice |
| ServiceTable.TerminateLeavesNone | runtime/linux/linux_backend.c:3437-3451 | terminating with clearing leaves no entry in use and no process without a signal |
| ServiceTable.StartRefinesMap | runtime/linux/linux_backend.c:3855-3888 | starting binds the name in a map of at most 64 names and signals what it was bound to, with the exact condition of each refusal |
| ServiceTable.StopRefinesMap | runtime/linux/linux_backend.c:3891-3911 | stopping unbinds the name and signals exactly its process |
| ServiceTable.ServiceProcesses.FindService | runtime/linux/linux_backend.c:3398-3409 | the loop finds the first entry tracked under the name |
| ServiceTable.ServiceProcesses.FindFreeEntry | runtime/linux/linux_backend.c:3411-3417 | the loop finds the first free entry |
| ServiceTable.ServiceProcesses.TrackService | runtime/linux/linux_backend.c:3394-3418 | replace and signal, or take the first free entry, or refuse |
| ServiceTable.ServiceProcesses.UntrackService | runtime/linux/linux_backend.c:3420-3435 | the tracked process, its entry now free |
| ServiceTable.ServiceProcesses.StartService | runtime/linux/linux_backend.c:3855-3888 | the new table and the status, a process that cannot be tracked being signalled |
| ServiceTable.ServiceProcesses.StopService | runtime/linux/linux_backend.c:3891-3911 | the new table and the status |
| ServiceTable.ServiceProcesses.TerminateTrackedServices | runtime/linux/linux_backend.c:3437-3451 | every tracked process is signalled in table order |
| Quoting.Measure | plugins/auto_launch/auto_launch_backend.c:70-74 | the counting pass gives the exact length of the quoted text |
| Quoting.Fill | plugins/auto_launch/auto_launch_backend.c:75-92 | the filling pass writes the quoted text and its NUL into exactly the measured buffer |
| Quoting.Quote | plugins/file_dialog/file_dialog_backend.c:57-88 | measure, allocate, fill: the buffer is the quoted text for every scheme |
| Quoting.ScriptLiteral | runtime/linux/linux_backend.c:427-468 | the JavaScript literal stays within 6n+3 bytes for every text of n bytes |
| Quoting.JsonRoundTrip | runtime/linux/linux_backend.c:427-468 | JSON, JavaScript and C source escaping are undone by the decoder for every byte string |
| Quoting.CSourceRoundTrip | bundle_platform.mbt:309-315 | C source escaping is undone by the reading of C string literals, for every text |
| Quoting.XmlRoundTrip | plugins/auto_launch/auto_launch_backend.c:219-265 | XML escaping is undone by the five predefined entities |
| Quoting.PowerShellRoundTrip | plugins/file_dialog/file_dialog_backend.c:670-690 | doubled quotes are undone |
| Quoting.JsonContentsExact | plugins/file_dialog/file_dialog_backend.c:57-88 | the result is a legal JSON string exactly when the text has no other control characters; the JavaScript writer's always is |
| CommandLine.CommandFits | plugins/auto_launch/auto_launch_backend.c:94-139 | the text never exceeds the allocated 4 (or 3) bytes per argument byte and 64 more |
| CommandLine.CommandWords | plugins/auto_launch/auto_launch_backend.c:94-207 | shell tokenising gives exec, the executable and exactly the non-empty lines of the arguments, whatever bytes they hold |
| CommandLine.BuildCommandLine | plugins/auto_launch/auto_launch_backend.c:94-139 | the strcat loop fills the allocated buffer with that text and never writes beyond it |
| CommandLine.AppendArguments | plugins/auto_launch/auto_launch_backend.c:109-137 | the line loop appends one quoted word for each non-empty line |
| CommandLine.LexQuoted | plugins/auto_launch/auto_launch_backend.c:141-161 | a quoted text in any place of a line is read as its own bytes, in both quoting styles |
| DialogPaths.PathsJson | plugins/file_dialog/file_dialog_backend.c:90-142 | the loop over a reallocated buffer writes exactly the array text, always inside the buffer |
| DialogPaths.PathsRoundTrip | plugins/file_dialog/file_dialog_backend.c:90-142 | that text is a JSON array whose elements decode to the non-empty lines; valid JSON exactly without other control characters |
| Escaping.ChainsAreOnePass | bundle_platform.mbt:299-325 | each replace_all chain equals the one-pass escape on every text: no step spoils an earlier one |
| Escaping.ChainsRoundTrip | json_helpers.mbt:2-11 | each chain is undone by its decoder on every text; for JSON with the exact condition of validity |
| Escaping.ChainIsOnePass | bundle_platform.mbt:299-306 | a chain that is right on single bytes is right on all texts |
| Channels.RunKeeps | channel.mbt:288-342 | over every interleaving: drained plus pending is emitted, numbers are 1 to n, a terminal message is last and unique, and the flags hold exactly when it exists |
| Channels.IdsNeverReused | channel.mbt:134-152 | two channels opened in one run never share an id, whatever was closed in between |
| Channels.RunDelivers | channel.mbt:228-241 | over every run, for every open channel: the results of its drains, one after the other, and what is pending are the messages its accepted emits returned, each with the kind and payload it was sent with |
| Channels.DrainExact | channel.mbt:228-241 | draining hands out exactly what was emitted and not handed out before |
| Channels.EmitExact | channel.mbt:288-331 | a message carries what it was sent with, under the next number |
| Channels.CloseExact | channel.mbt:244-256 | closing succeeds exactly for an open channel and takes that one out |
| Channels.ListedAsOpened | channel.mbt:134-152 | in every run the channels are listed in the order in which they were opened |
| Channels.EmitRefusedExact | channel.mbt:288-305 | emitting is refused exactly for an unknown channel or one that has emitted its terminal message |
| Channels.OtherChannelsKeep | channel.mbt:194-256 | work on one channel leaves the others alone |
| Channels.ChannelTable.OpenChannel | channel.mbt:134-152 | a fresh channel at the end of the order |
| Channels.ChannelTable.EmitData | channel.mbt:288-305 | the new table and the message, or the refusal |
| Channels.ChannelTable.EmitTerminal | channel.mbt:309-331 | the same, setting the flag of its kind |
| Channels.ChannelTable.DrainChannel | channel.mbt:228-241 | the pending messages, once |
| Channels.ChannelTable.CloseChannel | channel.mbt:244-256 | the channel leaves resources, map and order |
| Channels.ChannelTable.CloseAllChannels | channel.mbt:259-263 | the empty table, the id counter going on |
| IdLists.Remove | channel.mbt:345-350 | the search removes the first occurrence of an id and nothing else |
| IdLists.RemoveFirstExact | event_bus.mbt:287-292 | taking an id out of an order list keeps all others, each once |
| IdLists.RemoveFirstCut | event_bus.mbt:287-292 | and they stay in their places |
| EventBus.RunKeeps | event_bus.mbt:121-244 | in every run map and order agree without duplicates, and a listener for one event is in at most one emit result |
| EventBus.IdsNeverReused | event_bus.mbt:121-138 | two registrations of one run never share an id |
| EventBus.ListenExact | event_bus.mbt:121-138 | a new listener is last in the list under a new id; refused exactly for a bad name or target |
| EventBus.EmitExact | event_bus.mbt:185-212 | emit returns exactly the matching listeners in registration order and drops those of them for one event only |
| EventBus.HeardExact | event_bus.mbt:277-284 | the listeners heard are exactly those with the name and an accepting target |
| EventBus.EmitReaches | event_bus.mbt:277-284 | a listener gets the event exactly when the names are equal and either target is the application or both are the same; afterwards it is registered unless it got it and is for one event only |
| EventBus.HeardInOrder | event_bus.mbt:197-206 | the order of delivery is the order of registration |
| EventBus.RefusedExact | event_bus.mbt:121-138 | registering and emitting are refused exactly for an empty name or an empty label, with one problem for each |
| EventBus.UnlistenExact | event_bus.mbt:215-227 | exactly one listener goes from map and order |
| EventBus.RemoveTargetExact | event_bus.mbt:230-244 | exactly the target's listeners go, although the loop removes while it walks its snapshot |
| EventBus.MutableBus.AddListener | event_bus.mbt:121-138 | the new bus and the listener, or the problems |
| EventBus.MutableBus.Snapshot | event_bus.mbt:155-164 | the listeners in order |
| EventBus.MutableBus.Collect | event_bus.mbt:197-206 | the delivering loop: deliveries and the ids to drop |
| EventBus.MutableBus.EmitEvent | event_bus.mbt:185-212 | the new bus and the deliveries, or the problems |
| EventBus.MutableBus.RemoveListener | event_bus.mbt:215-227 | the new bus and the listener, or the error |
| EventBus.MutableBus.RemoveTargetListeners | event_bus.mbt:230-244 | the new bus, and the listeners removed in their order |
| EventBus.MutableBus.ClearListeners | event_bus.mbt:247-252 | the empty bus, and the listeners it had |
| Permissions.NamesRoundTrip | capability.mbt:35-107 | a name parses to a permission exactly when it is that permission's name and not the custom one without a name |
| Scopes.AllowsIsPreorder | operation_scope.mbt:85-99 | allowing is reflexive and transitive |
| Scopes.AllowsExact | operation_scope.mbt:85-99 | shell commands and URLs are allowed only as they are written; a path with everything inside it, for writing only by a scope for writing |
| Scopes.MutualAllowanceExact | operation_scope.mbt:85-99 | two scopes allow each other exactly when they name the same thing |
| Scopes.ContinuationExact | operation_scope.mbt:157-173 | for every root and continuation: inside exactly when nothing or a separator follows, or the root has a trailing separator that is trimmed |
| Scopes.ChildExact | operation_scope.mbt:157-173 | for every root and child: the child's path is inside exactly when the root is empty or more than separators, or the child is empty or starts with one |
| Scopes.JoinedIsInside | operation_scope.mbt:157-173 | a path joined to any root by a separator is inside it |
| Scopes.SystemRootHoldsNoFile | operation_scope.mbt:157-173 | the scope `/` does not allow `/etc` |
| Scopes.WidenExact | filesystem_capability_scope.mbt:2-24 | widening keeps the old scopes in front, adds exactly the roots called for, and repeats none |
| Scopes.WidenIdempotent | filesystem_capability_scope.mbt:2-24 | widening twice is widening once |
| Scopes.WidenedAllowsExact | filesystem_capability_scope.mbt:2-58 | what a widened list allows beyond the old one is what lies inside a root added |
| Scopes.WithFileSystemScopes | filesystem_capability_scope.mbt:2-24 | the two loops give the widened list |
| Policy.Evaluate | capability_policy.mbt:157-182 | allowed exactly when some capability grants the request; the first one is named; the reason otherwise |
| Policy.EvaluateOperation | capability_policy.mbt:199-242 | allowed exactly when some capability grants request and scope; a refusal names the scope exactly when the permission was granted |
| Policy.PolicyAllowsExact | capability_policy.mbt:157-182 | a request is allowed exactly when some entry lists its permission, and its window, origin and platform or none at all |
| Policy.OperationAllowsExact | capability_policy.mbt:199-242 | a shell or URL operation is allowed exactly when such an entry lists that very scope, a path when it lists a scope the path continues |
| Policy.AllowsWindow | capability_policy.mbt:136-154 | true exactly when a capability applies to the window |
| Policy.CollectOrigins | capability_policy.mbt:245-272 | the merging loops with their early return |
| Policy.MergeAdmits | capability_policy.mbt:245-272 | merged lists admit exactly what one of them admits, but everything when there is no list |
| Policy.AllowedOriginsExact | capability_policy.mbt:245-272 | the origins compiled for a window admit what the policy allows there, as long as the window has the permission |
| Policy.WindowAllowedExact | capability_policy.mbt:136-154 | a window has a permission exactly when the policy allows it there for some origin |
| Policy.NarrowerIsAllowed | capability.mbt:214-224 | an operation allowed for a scope is allowed for every scope inside it |
| Policy.WideningExact | filesystem_capability_scope.mbt:2-24 | the roots added to a capability change its grants by exactly the paths inside them |
| Manifest.ListedExact | command_manifest.mbt:180-188 | a window is listed exactly when it is granted and the policy allows the permission there for some origin |
| Manifest.OriginsExact | command_manifest.mbt:218-241 | the compiled origins admit exactly what the policy allows for some listed window; without a listed window they admit everything |
| Manifest.PlatformsExact | command_manifest.mbt:244-282 | the compiled platforms admit exactly those of some capability with the permission for a listed window |
| Manifest.AdmittedPlatformsExact | command_manifest.mbt:244-282 | for every platform: an entry with a listed window admits exactly those on which the policy allows the permission for some listed window |
| Manifest.EntryAnywhereExact | command_manifest.mbt:352-366 | what an entry admits on any platform, in terms of the policy alone |
| Manifest.EntryExact | command_manifest.mbt:169-215 | what an entry admits on its platform, in terms of the policy alone |
| Manifest.EntryIsPolicyExact | command_manifest.mbt:169-215 | an entry says exactly what the policy says if and only if its listed windows share their origins |
| Manifest.ManifestCanAdmitMore | command_manifest.mbt:218-241 | two windows with different origins: the entry admits what the policy refuses |
| Manifest.ManifestNeverRefuses | command_manifest.mbt:352-366 | on its platform the manifest never refuses what the policy allows for the command the route names |
| Manifest.FindExact | command_manifest.mbt:297-307 | looking a route up finds the entry of the first command with it |
| Manifest.FirstWithExact | command_manifest.mbt:297-307 | that is a command declaring the route, and there is none exactly when nobody declares it |
| Manifest.RoutesDiffer | command_manifest.mbt:30-33 | plugins of which neither name extends the other by a dot keep all routes apart |
| Manifest.SharedRouteExact | command_manifest.mbt:30-33 | two plugins can share a route exactly when their names are equal or one extends the other by a dot |
| Manifest.NamesKeepRoutesApart | app.mbt:203-222 | such names and distinct commands in each plugin give every command its own route |
| Manifest.EveryCommandNeverRefused | command_manifest.mbt:297-307 | with distinct routes every declared command is found and never refused what the policy allows |
| Manifest.DottedPluginsShareRoutes | command_manifest.mbt:30-33 | two commands with one route |
| Manifest.CommandAllowedOrigins | command_manifest.mbt:218-241 | the loop over the windows, with its early return |
| Manifest.CommandAllowedPlatforms | command_manifest.mbt:244-266 | the loop over the capabilities, with its early return |
| Manifest.CompileEntry | command_manifest.mbt:179-211 | the window loop and the two list loops give the compiled entry |
| Manifest.CompileManifest | command_manifest.mbt:169-215 | the nested loops give the compiled entries in declaration order |
| Manifest.Allows | command_manifest.mbt:352-366 | the request is admitted exactly when the first entry of the route admits it |

## Left out

- LoopSpec.Bar: a payload on which the builder would hang counts as one that gives no menu, so runs of the
  loop are modelled as going on after it.
- LoopRuns.RunKeeps: the runtime's answer is a function of the number and the bytes of the request. Of the
  toolkit's own events only a window being closed by its user occurs in a run; menu clicks and tray and theme
  actions do not.
- LoopTheorems.OperationsByKind: stated for a context with a primary window; for packets of one record
  `PacketEffects.NoPrimaryEffect` says what is switched off without one.
- PacketEffects.ControlEffect: stated, like the lemmas beside it, for packets of one record; several are carried
  out one after the other as `LoopTheorems.OperationsByKind` says.
- PacketCodec.HandoffRoundTrip: packets longer than 31 bits can count are not covered.
- CommandPacket.ParseCommandPacket: argument lengths do not overflow as the C `int` would.
- BridgeContext.Context.ApplyControl: numbers in records do not overflow as the C `int` would.
- CommandLine.CommandWords: for the desktop-entry form the words are those of shell double quotes; field
  codes (`%f` and the like) of the desktop-entry format are not interpreted.
- Quoting.JsonRoundTrip: the decoder reads `\u` escapes below 80 hexadecimal only, which are all the
  writers produce.
- Quoting.CSourceRoundTrip: octal, hexadecimal and trigraph forms, which the writer does not produce, are not
  decoded.
- Escaping.ChainsRoundTrip: texts are UTF-8 bytes; the source's chains work on characters, none of which
  the replaced ones are part of.
- Channels.RunKeeps: channels are values in the table; a channel handed out earlier and kept outside the
  table is not followed. The resource table is its fresh-id counter and set of open ids.
- Permissions.NamesRoundTrip: names are sequences of characters without normalisation.
- Scopes.ContinuationExact: paths are compared as text, as the source does; `..` and links are not resolved.
- ServiceTable.RunConserves: a signal always arrives, and asynchronous clean-up at exit or on a signal,
  which sends without clearing, is not an event of a run.
- Manifest.CompileManifest: mode, affinity and schemas of a command are one opaque text carried along.
- MenuAgreement.PayloadAgreesExact: that parsing keeps the last of several members with one key, and turns a
  lone surrogate into three bytes, is taken from the parser, which is not part of this model; accelerators
  are left out.
- MenuAgreement.AcceptedAgreesExact: the plugin also refuses identifiers with certain characters, repeated
  ones and bad accelerators; the model accepts those payloads too, so its results cover all the plugin takes.
- MenuRuns.RunAgreesExact: the calls concern the application menu, with payloads in which both readers take the
  same members, and are carried out by the loop one by one; menus of single windows and windows opened
  between calls are not in these runs.
- Allocation failures, and GTK, WebKit, Objective-C, COM and WebView2 calls beyond fresh handles, call
  records and the destroy callback.
- Menu accelerators, check-item signals and the tray menu, which uses the same scanner.
- The Windows slot table, which never reuses a dead slot, its argument quoting and its asset URLs; the
  macOS slot table and script extraction, which follow the Linux ones.
- Sockets, HTTP readiness, `popen`, spawning, the registry, clipboard, opener and notification backends.
- The state store, which repeats the map and order list of the event bus; plain records, builders and JSON
  printers of the MoonBit packages.
