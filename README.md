# ft_ality recogniser, modelled in Dafny

ft_ality recognises fighting-game moves typed on a keyboard. Its grammar file has three sections:

- `@alphabet`: symbols, as `token: type (description)`.
- `@keymapping`: `key = symbol` lines.
- `@moves`: `s1, s2, ... -> Name (Character)` lines.

The program works in three stages:

1. It parses the grammar.
2. It folds the symbol sequence of every move into one trie-shaped deterministic automaton.
3. It drives that automaton from key presses. The driver announces a move when its buffer reaches a final state and then resets. When appending a symbol kills the buffer, it retries from that symbol alone.

Every function of the core is pure and works on immutable tuples, so the model is made of datatypes, recursive functions and lemmas. It has no classes and no loops. The modules are:

- `Types`: the records of `src/types.py`. It also has a `Printed` datatype for what the drivers write to the console.
- `Seqs`: the filtering comprehension.
- `Utils`: `src/utils.py`, including Python's `str.strip`, `str.split` and substring search as used there.
- `Builder`, `BuilderInvariants`, `TrieLanguage`: `src/automaton.py`. Between them they hold the functions, the invariants of the tables, and the language the automaton accepts.
- `Recognition`: `src/recognition.py`, the recogniser and the five-step key policy.
- `Interactive`: `src/interactive.py`, the older driver that only appends and processes one input line at a time.
- `Parser`: `src/parser.py`.
- `Scenarios`: small grammars followed key by key through both drivers.

The main results:

- **Trie.** `BuildAutomaton` yields a trie. `Builder.BuildPath` and `BuilderInvariants.Valid` give the state-numbering invariants:
  - the state ids are exactly 0 to next id - 1, each used once;
  - there is one transition per non-root state, and no key (source, symbol) appears twice;
  - distinct transitions have distinct targets;
  - every transition goes from a lower id to a higher one, so none returns to the root.
- **Accepted words.** A word runs from the root exactly when it is empty or a prefix of some move's sequence (`TrieLanguage.BuildAutomatonLive`). The state it reaches holds exactly the moves spelling that word, in grammar order, and is final exactly when there are any (`TrieLanguage.BuildAutomatonMoves`).
- **Recogniser.** Recognition is therefore "the moves whose sequence equals the buffer" (`Recognition.RecognizeBuilt`).
- **Key policy.** The five-step policy of `process_key_input` is stated in grammar terms (`Recognition.ProcessKeyBuilt`). Recognition always empties the buffer. The buffer the driver holds is always empty or a live prefix that no move spells (`Recognition.ProcessKeyPending`).
- **Debug flag.** Debug tracing changes only what is printed (`Recognition.DebugOnlyPrints`).
- **Interactive driver.** One line of keys is given in closed form (`Interactive.ProcessLineBuilt`):
  - the final buffer is the mapped symbols;
  - the announcements are those prefixes of that sequence that some move spells, in order.
- **Parser.** Line-parser round trips, a reference definition of `partition_sections`, and the key mappings as the identity on the alphabet's tokens, independent of the `@keymapping` section.

### Behaviour that may be unexpected

The scenario lemmas pin down what the code does in these cases:

- **Restart only on a dead buffer.** The driver of `src/recognition.py` restarts from the new symbol alone only when the extended buffer runs off the automaton. With the move `a, b, c`, the buffer `a` followed by `b` gives `a, b`, a live prefix, so the driver keeps waiting and a move `b` is not announced (`Scenarios.LivePrefixNoRestart`). When the extended buffer is dead, the restart does happen (`Scenarios.DeadEndRestart`).
- **Move extending another move.** With the moves `a` and `a, b`, the key `a` pressed on the empty buffer announces `a` and resets the buffer. The key `b` then starts from the empty buffer, is not recognised and leaves the buffer empty, so typing `a`, `b` never announces `a, b` (`Scenarios.PrefixMoveShadows`). Conversely, a move none of whose proper non-empty prefixes is spelled by a move is announced when its keys are typed from the empty buffer: the driver waits on every proper prefix, and at the last key it announces once, with every move of that sequence, and returns to the empty buffer (`Recognition.TypedMoveAnnounced`).
- **The interactive driver.** It never resets within a line: after a recognition it keeps the extended buffer, and a later key of the same line is announced only if the longer buffer spells a move (`Interactive.ProcessLineBuilt`). Each line starts again from the empty buffer. In a grammar whose every move has the one-symbol sequence `a`, the kept buffer `a, a` is dead after the second press, so a repeated key is announced once per line by this driver and at every press by the driver of `src/recognition.py` (`Scenarios.RepeatedKey`, `Interactive.CompareDrivers`).
- **Key mappings.** The parser builds them as the identity on the alphabet's tokens, and the `@keymapping` section has no effect (`Parser.ParseGrammarIgnoresKeymapping`).
- **The `Automaton` record.** `src/utils.py` declares one with a `final_states` field, which is only used as a type annotation. The builder uses the four-field record of `src/types.py`, and so does the model.

## Model

| member | source | states |
|---|---|---|
| Builder.FindState | src/automaton.py:8-11 | None exactly when no state in the table has the id |
| Builder.FindStateFirst | src/automaton.py:8-11 | the state returned is the first one with that id |
| Builder.FindTransition | src/automaton.py:14-23 | None exactly when no entry has the key (source, symbol) |
| Builder.FindTransitionFirst | src/automaton.py:14-23 | the target returned is that of the first entry with the key |
| Builder.AddState | src/automaton.py:26-29 | the new state is last and no other entry shares its id |
| Builder.FindStateAfterAdd | src/automaton.py:26-29 | after add_state, looking up the added id gives the new state and any other id gives what it gave before |
| Builder.AddStateFresh | src/automaton.py:26-29 | adding an unused id appends the state |
| Builder.AddStateReplaces | src/automaton.py:26-29 | adding a used id removes the old record and appends the new one, keeping the order of the rest |
| Builder.AddTransition | src/automaton.py:32-41 | the new entry is last and no other entry has its key |
| Builder.FindTransitionAfterAdd | src/automaton.py:32-41 | after add_transition, δ maps the added key to the new target and is unchanged on every other key |
| Builder.AddTransitionFresh | src/automaton.py:32-41 | adding an unused key appends the entry |
| Builder.AddTransitionReplaces | src/automaton.py:32-41 | adding a used key replaces the old entry, which moves to the end |
| Builder.BuildPath | src/automaton.py:44-67 | the next id never decreases, and exactly one transition is added per id consumed |
| Builder.BuildPathReuses | src/automaton.py:52-61 | a sequence that is already a path from `current` (the empty one included) returns its end state and leaves the tables and the counter untouched; otherwise at least one state is created |
| Builder.BuildPathAppends | src/automaton.py:63-67 | the old transitions are a prefix of the new table, and the k-th new entry targets the k-th fresh id |
| Builder.BuildPathKeeps | src/automaton.py:44-67 | every value δ already had is kept |
| Builder.BuildPathReaches | src/automaton.py:44-67 | afterwards the sequence leads from `current` to the state returned |
| Builder.AddMove | src/automaton.py:70-88 | the move's sequence runs from the root to a final state whose last move is this move; the counter never decreases; δ is kept where it was defined |
| Builder.BuildAutomaton | src/automaton.py:91-96 | the initial state is 0 and the alphabet is exactly the symbols occurring in the moves |
| Builder.AddMoves | src/automaton.py:95 | the reduce of add_move_to_automaton over the moves never decreases the counter and keeps every value δ already had; the invariant it keeps is BuilderInvariants.AddMovesKeepsBuilt |
| BuilderInvariants.ValidInitial | src/automaton.py:94 | the initial tables (state 0 alone, no transitions, next id 1) satisfy the table invariant |
| BuilderInvariants.ValidExtend | src/automaton.py:63-67 | adding a fresh state with a transition on an undefined key keeps the invariant |
| BuilderInvariants.ValidReplace | src/automaton.py:83-88 | replacing the record of an existing state keeps the invariant |
| BuilderInvariants.BuildPathShape | src/automaton.py:44-67 | build_path_recursive creates states exactly for the ids it consumes, all non-final and without moves, and returns either an old state or the last one created |
| BuilderInvariants.BuildPathValid | src/automaton.py:44-67 | build_path_recursive keeps the table invariant |
| BuilderInvariants.BuildPathFreshStep | src/automaton.py:63-67 | on an undefined key, build_path_recursive appends one fresh state and one transition and continues from it |
| BuilderInvariants.BuiltInitial | src/automaton.py:94 | the fold starts from a built automaton with no moves |
| BuilderInvariants.BuiltAfterPath | src/automaton.py:79-81 | building a path keeps every state's moves equal to the moves reaching it |
| BuilderInvariants.MarkEndKeepsBuilt | src/automaton.py:83-88 | marking the end state final with the move appended accounts for the move |
| BuilderInvariants.AddMoveKeepsBuilt | src/automaton.py:70-88 | add_move_to_automaton keeps the invariant for the moves added so far plus this one, and does not change where any live word leads |
| BuilderInvariants.AddMovesKeepsBuilt | src/automaton.py:95 | the reduce over the moves keeps the invariant |
| BuilderInvariants.BuildAutomatonBuilt | src/automaton.py:91-96 | every state holds exactly the moves whose sequence leads to it, in grammar order, and is final exactly when it holds one; every move's sequence is a path |
| TrieLanguage.RunLeavesRoot | src/automaton.py:63-67 | no non-empty word leads back to the root |
| TrieLanguage.RunInjective | src/automaton.py:44-67 | in a trie-shaped table two words reaching the same state are equal |
| TrieLanguage.ValidIsTrie | src/automaton.py:44-67 | the table invariant makes δ trie-shaped |
| TrieLanguage.FreshWalk | src/automaton.py:63-67 | a new edge from the end of `u` makes only `u + [x]` newly live |
| TrieLanguage.BuildPathWalk | src/automaton.py:44-67 | every word that build_path_recursive makes live is a prefix of the path built |
| TrieLanguage.BuildPathWalkFresh | src/automaton.py:63-67 | the same, on the branch that creates a state |
| TrieLanguage.AddMoveLive | src/automaton.py:70-88 | after adding a move, every live word is a prefix of some added move |
| TrieLanguage.AddMovesLive | src/automaton.py:95 | the same over the fold |
| TrieLanguage.BuildAutomatonLive | src/automaton.py:91-96 | a word runs from the root exactly when it is empty or a prefix of some move's sequence |
| TrieLanguage.BuildAutomatonLiveOnlyPrefixes | src/automaton.py:91-96 | every live word is a prefix of some move |
| TrieLanguage.BuildAutomatonPrefixLive | src/automaton.py:91-96 | every prefix of every move is live |
| TrieLanguage.MovesSpellingMembers | src/automaton.py:83-86 | a move is among those spelling w exactly when its sequence is w |
| TrieLanguage.BuildAutomatonMoves | src/automaton.py:91-96 | the state a word reaches holds exactly the moves spelling it and is final exactly when there is one; a dead word is spelled by no move |
| TrieLanguage.BuildAutomatonInitialFinal | src/automaton.py:94-95 | the initial state exists and is final exactly when some move has the empty sequence |
| Recognition.TraverseIsRun | src/recognition.py:13-17 | traverse gives the end of the run, or -1 when δ is undefined on the way |
| Recognition.Traverse | src/recognition.py:13-17 | the inner traverse: follows δ from `current`, -1 at the first undefined step; its contract is stated by Recognition.TraverseIsRun and Recognition.TraverseAppend |
| Recognition.StateIdAfter | src/recognition.py:10-19 | the empty word stays at the initial state |
| Recognition.TraverseAppend | src/recognition.py:13-17 | walking u + v is walking v from where u ends; a dead walk stays dead |
| Recognition.StateIdAfterSnoc | src/recognition.py:10-19 | one more symbol is one more δ step from the state reached |
| Recognition.StateIdAfterBuilt | src/recognition.py:10-19 | on a built automaton the result is not -1 exactly when the word is empty or a prefix of a move |
| Recognition.BuiltNoSentinel | src/automaton.py:63-67 | no transition of a built automaton targets -1, so -1 only ever means a dead end |
| Recognition.RecognizeSequence | src/recognition.py:22-30 | no moves without recognition, and recognition only on a live word |
| Recognition.RecognizeBuilt | src/recognition.py:22-30 | on a built automaton a word is recognised exactly when some move spells it, with those moves in grammar order |
| Recognition.DebugTransition | src/recognition.py:33-42 | prints one trace line exactly when the extended buffer is live, naming the symbol and the state the buffer reached before it |
| Recognition.DebugEndStates | src/recognition.py:45-50 | prints one line per move found, each naming that move and the state the sequence reaches |
| Recognition.ProcessKeyInput | src/recognition.py:53-91 | an unmapped key changes nothing and prints nothing; recognition empties the buffer and ends with an announcement; announcements are printed only when recognised, and only last; a mapped key leaves an empty buffer or a live, non-accepting one, and such a buffer stays one |
| Recognition.DebugOnlyPrints | src/recognition.py:53-91 | the debug flag changes neither the buffer nor the flag; without it, exactly the announcements of the traced run are printed |
| Recognition.ProcessKeyBuilt | src/recognition.py:53-91 | on a built automaton, in this order: the extended buffer spelled by moves is announced with them and reset; a live prefix is kept; the symbol alone spelled by moves is announced and reset; a live symbol alone restarts the buffer; otherwise the buffer is reset |
| Recognition.WaitingBuilt | src/recognition.py:78-91 | on a built automaton the buffers the driver can hold are exactly the empty one and the prefixes of moves that no move spells |
| Recognition.ProcessKeyPending | src/recognition.py:53-91 | a mapped key, or any key on such a buffer, yields such a buffer |
| Recognition.Handler | src/recognition.py:53-59 | process_key_input with the grammar, the automaton and the debug flag fixed, as one step of a key stream |
| Recognition.Feed | src/recognition.py:53-91 | a key handler folded over a stream of keys, threading the buffer and collecting what is printed (the repository has no such caller; it is the driver loop the lemmas below reason about) |
| Recognition.FeedKeys | src/recognition.py:53-91 | process_key_input fed a stream of keys |
| Recognition.FeedSnoc | src/recognition.py:53-91 | feeding one more key is one more step from the buffer reached, with its output appended |
| Recognition.FeedPrefixKey | src/recognition.py:53-91 | silent keys up to a buffer followed by one more step give that step's buffer and exactly its announcements |
| Recognition.FeedWaits | src/recognition.py:65-79 | keys each of which, pressed on the symbols before it, holds one more symbol silently, end holding those symbols having announced nothing |
| Recognition.FeedSpells | src/recognition.py:53-91 | when moreover the last key empties the buffer announcing f, every proper prefix of the stream is silent and the whole stream ends empty having announced exactly f |
| Recognition.TypedKeysWait | src/recognition.py:65-79 | on a built automaton, every key of a move but the last waits, when no move spells a shorter part of its sequence |
| Recognition.PrefixSnoc | src/recognition.py:65 | extending the prefix of length j - 1 of a sequence by its next symbol gives the prefix of length j |
| Recognition.WaitingKey | src/recognition.py:65-79 | a key extending the buffer to a part of a move's sequence that no move spells is held and announces nothing |
| Recognition.CompletingKey | src/recognition.py:65-76 | the key completing a move's sequence announces every move of that sequence, last, and empties the buffer |
| Recognition.TypedMoveAnnounced | src/recognition.py:53-91 | a move none of whose proper non-empty prefixes is spelled by a move is recognised when typed from the empty buffer: the driver waits on every proper prefix, and the last key announces it once and resets |
| Interactive.WalkAgrees | src/interactive.py:16-24 | this traverse agrees with the one of src/recognition.py |
| Interactive.Walk | src/interactive.py:16-24 | the inner traverse of this recognize_sequence: follows δ, -1 at the first undefined step; its contract is Interactive.WalkAgrees |
| Interactive.RecognizeSequence | src/interactive.py:11-36 | this recogniser gives the same answer as the one of src/recognition.py |
| Interactive.ProcessKeyInput | src/interactive.py:39-56 | an unmapped key changes nothing; a mapped key always appends its symbol, recognised or not; the buffer and moves are announced exactly when the new buffer is recognised |
| Interactive.ProcessKeyBuilt | src/interactive.py:39-56 | on a built automaton the step appends the symbol and announces the moves spelling the new buffer, if any |
| Interactive.StepBuffer | src/interactive.py:39-56 | a step extends the buffer by the key's symbol, or by nothing when the key is unmapped |
| Interactive.ProcessKeysBuffer | src/interactive.py:74-81 | the final buffer is the initial one followed by the symbols of the mapped keys, in order |
| Interactive.ProcessKeys | src/interactive.py:74-81 | the buffer only grows, by at most one symbol per key; at most one line is printed per key, and every one is an announcement |
| Interactive.ProcessLine | src/interactive.py:83 | one input line processed from the empty buffer ends holding exactly the symbols of its mapped keys |
| Interactive.ProcessKeysAppend | src/interactive.py:74-81 | processing keys then more keys is processing them in sequence, with the announcements concatenated |
| Interactive.MappedStep | src/interactive.py:39-56 | on an automaton recognising what the moves spell, a mapped key appends and announces the moves spelling the result |
| Interactive.ProcessKeysSpelling | src/interactive.py:74-81 | on such an automaton the fold gives the mapped symbols and announces, in order, every extended buffer that some move spells |
| Interactive.BuiltRecognisesSpelling | src/interactive.py:11-36 | the automaton of a grammar recognises exactly what its moves spell |
| Interactive.ProcessLineBuilt | src/interactive.py:74-84 | one line from the empty buffer ends with the mapped symbols and announces exactly their prefixes that moves spell |
| Interactive.CompareDrivers | src/interactive.py:39-56 | when this driver recognises so does the other, which resets while this one keeps the buffer; while the extended buffer is live they agree on the flag, and on the buffer unless a move was recognised |
| Utils.TrimStart | src/utils.py:23 | the result is a suffix, everything dropped is whitespace, and the result does not start with whitespace |
| Utils.TrimEnd | src/utils.py:23 | the result is a prefix, everything dropped is whitespace, and the result does not end with whitespace |
| Utils.Strip | src/utils.py:23 | str.strip(): the result is no longer than the string and has no outer whitespace; Utils.TrimSpec and Utils.StrippedIff state the rest |
| Utils.TrimSpec | src/utils.py:23 | strip returns a slice s[i..j] with only dropped characters outside it and kept characters at both of its ends |
| Utils.TrimIdempotent | src/utils.py:23 | stripping twice is stripping once |
| Utils.StrippedIff | src/utils.py:23 | a string is its own strip exactly when it has no outer whitespace, and a strip has none |
| Utils.IndexOf | src/utils.py:23 | the first occurrence of a character, None exactly when it is absent |
| Utils.FindFrom | src/utils.py:33 | the first occurrence of a separator at or after a position, None exactly when there is none |
| Utils.Find | src/utils.py:33 | the first occurrence of a separator, None exactly when there is none |
| Utils.SplitOn | src/utils.py:23 | str.split on a character gives at least one part, none containing it |
| Utils.StripAll | src/parser.py:38 | every piece stripped, one result per piece, in order |
| Utils.TrimStartDropped | src/utils.py:23 | dropped characters in front of a string do not change its left trim |
| Utils.TrimEndDropped | src/utils.py:23 | dropped characters after a string do not change its right trim |
| Utils.TrimStartAppend | src/utils.py:23 | the left trim of x + w is that of x followed by w, or that of w when x trims to nothing |
| Utils.TrimAround | src/utils.py:23 | stripping text with only whitespace added around it gives the strip of the text |
| Utils.SplitOnPrepend | src/utils.py:23 | text without the separator in front of a string only extends the first part of its split |
| Utils.SplitOnAppend | src/utils.py:23 | text without the separator after a string only extends the last part of its split |
| Utils.SplitAroundTrimmed | src/utils.py:23 | dropped characters around a string leave every trimmed part of its split on a kept character unchanged |
| Utils.SplitAround | src/utils.py:23 | whitespace around a string changes no stripped part of its split on a non-space character |
| Utils.SplitStripped | src/parser.py:34-38 | splitting the stripped text on a non-space character gives the same stripped parts as splitting the text itself |
| Utils.JoinSplit | src/utils.py:23 | joining the parts of a split with the separator gives the string back |
| Utils.SplitJoin | src/parser.py:38 | splitting the join of separator-free parts gives the parts back |
| Utils.StripComment | src/utils.py:21-23 | the result has no '#' |
| Utils.StripCommentSpec | src/utils.py:21-23 | the result is the part before the first '#', stripped |
| Utils.StripCommentIdempotent | src/utils.py:21-23 | removing comments twice is removing them once |
| Utils.IsEmpty | src/utils.py:26-28 | true exactly for the empty string |
| Utils.SplitOnce | src/utils.py:31-34 | without the separator the string comes back unstripped with an empty second half; with it both halves are stripped and together shorter than the string by at least the separator |
| Utils.SplitOnceSpec | src/utils.py:31-34 | when the separator occurs the string is left + sep + right with no earlier occurrence, and the halves are left and right stripped; otherwise the string comes back unstripped with an empty second half |
| Utils.SplitOnceChar | src/utils.py:31-34 | for a one-character separator that occurs, the halves are the stripped text around its first index |
| Utils.SplitOnceAt | src/utils.py:31-34 | splitting left + sep + right, where left cannot start an occurrence, gives the stripped halves |
| Utils.ExtractParentheses | src/utils.py:37-43 | both parts are stripped and free of '('; a string without '(' gives itself stripped and ""; with '(' the name is the stripped text before the first '(' and the character is the text after it, up to any further '(', with its closing ')' characters and its outer whitespace removed |
| Utils.ExtractParenthesesSpec | src/utils.py:37-43 | `before(inside)` gives the stripped before and inside; a string without '(' gives itself stripped and "" |
| Utils.LookupKey | src/utils.py:54-57 | the symbol of the first pair with the key, or None; its contract is Utils.LookupKeySpec |
| Utils.LookupKeySpec | src/utils.py:54-57 | None exactly when no pair has the key; otherwise the symbol of the first pair with it |
| Utils.LookupSymbol | src/utils.py:60-65 | None exactly when no entry has the token; otherwise the symbol of the first entry with it |
| Parser.ParseAlphabetLine | src/parser.py:9-17 | None exactly when the line has no ':'; the key is the symbol's own token and has no ':' |
| Parser.ParseAlphabetLineToken | src/parser.py:9-17 | the token is the stripped text before the first ':' |
| Parser.ParseAlphabetLineRoundTrip | src/parser.py:9-17 | `token:type(description)` parses back to its parts |
| Parser.ParseKeymappingLine | src/parser.py:20-26 | None exactly when the line has no '='; the key has no '='; otherwise the pair is the stripped text before and after the first '=' |
| Parser.ParseKeymappingLineRoundTrip | src/parser.py:20-26 | `key=symbol`, with any spacing and a key without '=', parses to the stripped key and symbol, and back to the pair itself when both are stripped |
| Parser.Tokens | src/parser.py:36-40 | the kept tokens are non-empty and stripped, at most one per piece |
| Parser.TokensFilter | src/parser.py:36-40 | the tokens are exactly the stripped pieces that are not empty, in the order of their pieces |
| Parser.TokensOfTokens | src/parser.py:36-40 | pieces that are already non-empty and stripped are kept as they are, in order |
| Parser.ParseMoveLine | src/parser.py:29-47 | None exactly when the line has no "->"; the character is never empty; the sequence tokens are non-empty, stripped and comma-free |
| Parser.ParseMoveLineSequence | src/parser.py:29-40 | for every line with "->", whatever its spacing, the sequence is the comma-separated pieces of the text before the first "->", stripped, empty ones dropped, in order |
| Parser.ParseMoveLineUnknown | src/parser.py:42-45 | without '(' after the arrow the character is "Unknown" |
| Parser.MoveTokensRoundTrip | src/parser.py:36-40 | tokens joined by ',' are split back into the same tokens |
| Parser.MoveNameRoundTrip | src/parser.py:42-44 | `name(character)` gives back the name and the character |
| Parser.JoinNoArrow | src/parser.py:38 | tokens without "->" joined by ',' give a text without "->" |
| Parser.NoArrowAround | src/parser.py:38 | two texts without "->" around a ',' make a text without "->" |
| Parser.MoveLineSplit | src/parser.py:34 | in left + "->" + right, where left has no "->", the first "->" is the one after left, and split_once gives the stripped left and right |
| Parser.ParseMoveLineRoundTrip | src/parser.py:29-47 | `t1,...,tn->name(character)`, with non-empty stripped tokens free of ',' and of "->", parses back to the move |
| Parser.PartitionFoldSnoc | src/parser.py:76 | reading one more line is one more step of the reduce |
| Parser.PartitionStep | src/parser.py:55-74 | the helper of partition_sections: blank lines are skipped, a header switches the section, any other line goes to the current one; its contract is Parser.PartitionStepSpec |
| Parser.PartitionFold | src/parser.py:76 | the reduce of the helper over the lines; its contract is Parser.PartitionFoldSnoc |
| Parser.PartitionSections | src/parser.py:50-77 | the three sections of the grammar file; its contract is Parser.PartitionSectionsSpec |
| Parser.PartitionStepSpec | src/parser.py:55-74 | one step of the helper extends the reference sections by one line |
| Parser.PartitionSectionsSpec | src/parser.py:50-77 | each section holds exactly the non-blank, non-header, comment-free lines under its last header, in input order |
| Parser.SectionLinesClean | src/parser.py:60-72 | every kept line is non-empty, has no '#' and is not a header |
| Parser.ParseSection | src/parser.py:80-83 | at most one result per line |
| Parser.ParseSectionMembers | src/parser.py:80-83 | a value is kept exactly when some line parses to it |
| Parser.ParseSectionAppend | src/parser.py:80-83 | parsing concatenated lines concatenates the results, so their order is kept |
| Parser.ParseSectionAll | src/parser.py:80-83 | when every line parses, nothing is dropped |
| Parser.ParseSectionKeeps | src/parser.py:80-83 | every kept value satisfies what the line parser promises |
| Parser.IdentityMappings | src/parser.py:93 | one pair per alphabet entry, mapping its token to itself |
| Parser.ParseGrammar | src/parser.py:86-97 | alphabet keys are their symbols' tokens, and key_mappings pairs each alphabet token with itself |
| Parser.IdentityLookup | src/parser.py:93 | with identity mappings a key is mapped exactly when it is an alphabet token, and then to itself |
| Parser.ParseGrammarKeys | src/parser.py:86-97 | in a parsed grammar a key maps to itself exactly when it is an alphabet token, and otherwise to nothing |
| Parser.ParseGrammarIgnoresKeymapping | src/parser.py:86-97 | contents whose alphabet and moves sections agree parse to the same grammar, whatever their keymapping sections |
| Scenarios.Announces | src/recognition.py:71-76 | when the extended buffer is spelled only by move y, the driver announces it with y and resets |
| Scenarios.Waits | src/recognition.py:78-79 | a live extended buffer spelled by no move is kept, nothing recognised |
| Scenarios.RestartAnnounces | src/recognition.py:81-89 | on a dead extended buffer, a symbol spelled only by y is announced alone and the buffer reset |
| Scenarios.Resets | src/recognition.py:91 | a symbol that starts no move resets the empty buffer without recognition |
| Scenarios.SharedPrefix | src/recognition.py:65-79 | with moves a,b and a,c: "a" waits, then "c" announces only a,c and resets |
| Scenarios.DeadEndRestart | src/recognition.py:78-89 | with moves a,c and b: "a" waits, then "b" kills a,b and restarts, announcing only b |
| Scenarios.LivePrefixNoRestart | src/recognition.py:78-79 | with moves a,b,c and b: after "a", "b" is kept as a live prefix and b is not announced |
| Scenarios.PrefixMoveShadows | src/recognition.py:65-91 | with moves a and a,b: "a" announces a and resets, and "b" then starts nothing, so a,b is never announced |
| Scenarios.DoubleTap | src/interactive.py:74-81 | when every move spells "a", keys a,a give symbols a,a and a single announcement |
| Scenarios.RepeatedKey | src/interactive.py:39-56 | one key announces the move and resets under src/recognition.py, while the line a,a under src/interactive.py announces once and ends holding a,a |

## Left out

- `src/display.py`, `main.py` and `src/__init__.py` are not part of this model. Everything the drivers print (`display_moves`, the joined buffer, the debug traces) is modelled as a list of `Printed` values, not as text.
- `read_file_content` is not modelled, because it reads from the filesystem. `Parser.ParseGrammar` takes the file content as a string.
- `run_interactive_mode`: the input loop, the banner, `input().strip().split()` and the EOFError/KeyboardInterrupt exits are not modelled, because they are console I/O. `Interactive.ProcessLine` takes a line's keys already split and models that each line starts from the empty buffer.
- The automaton's alphabet is built as `tuple(set(...))`, whose order depends on Python's hashing. It is modelled as a `set<string>`.
- The `final_states` field of the `Automaton` record in `src/utils.py` is not modelled, because no code builds or reads it.
- Python's recursion limit is not modelled. `process_keys` (`src/interactive.py:74-81`), `build_path_recursive` (`src/automaton.py:44-67`) and both `traverse` functions (`src/recognition.py:13-17`, `src/interactive.py:16-24`) recurse once per key or symbol, so a line of about a thousand keys or a move about a thousand symbols long raises RecursionError, which `run_interactive_mode` does not catch. `Interactive.ProcessKeys`, `Builder.BuildPath`, `Recognition.Traverse` and `Interactive.Walk` are total.
- `Utils.SplitOnce` requires a non-empty separator. Python raises ValueError on an empty one, and every caller passes ":", "=" or "->".
- `str.strip()` removes the characters Python's `str.isspace` accepts, written out as a fixed list (`Utils.IsSpace`). Any later change to Python's Unicode tables is not followed.
- Strings are sequences of characters. Nothing depends on their encoding.
- The scenarios are stated for any grammar whose keys "a", "b" and "c" map to the symbols of the same names and whose moves have the given sequences. They are not stated for a particular grammar file.
