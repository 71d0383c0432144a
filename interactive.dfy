/** The earlier key driver of src/interactive.py, the one the package exports:
    the same recogniser, but the buffer only ever grows within one input line,
    and each line is processed from an empty buffer by a left fold over its keys. */
module Interactive {
  import opened Types
  import opened Seqs
  import opened Builder
  import opened TrieLanguage
  import opened Utils
  import Recognition

  /** The inner `traverse` of this recognize_sequence: -1 as soon as δ is undefined. */
  function Walk(transitions: seq<Transition>, w: seq<string>, current: int): int
    decreases |w|
  {
    if w == [] then current
    else
      var next := FindTransition(transitions, current, w[0]);
      if next.None? then -1 else Walk(transitions, w[1..], next.value)
  }

  /** This traverse and the one of src/recognition.py compute the same id. */
  lemma {:induction false} WalkAgrees(transitions: seq<Transition>, w: seq<string>, current: int)
    ensures Walk(transitions, w, current) == Recognition.Traverse(transitions, w, current)
    decreases |w|
  {
    if w != [] && FindTransition(transitions, current, w[0]).Some? {
      WalkAgrees(transitions, w[1..], FindTransition(transitions, current, w[0]).value);
    }
  }

  /** recognize_sequence of src/interactive.py: (true, moves) at a live final
      state, (false, []) on a dead walk or a non-final state. */
  function RecognizeSequence(a: Automaton, w: seq<string>): (r: (bool, seq<Move>))
    ensures r == Recognition.RecognizeSequence(a, w)
  {
    WalkAgrees(a.transitions, w, a.initialState);
    var finalStateId := Walk(a.transitions, w, a.initialState);
    if finalStateId == -1 then (false, [])
    else
      var finalState := FindState(a.states, finalStateId);
      if finalState.Some? && finalState.value.isFinal then (true, finalState.value.moves) else (false, [])
  }

  /** process_key_input of src/interactive.py: an unmapped key changes nothing;
      a mapped key always appends its symbol, and announces the moves when the
      extended buffer is recognised. */
  function ProcessKeyInput(key: string, grammar: Grammar, a: Automaton, buffer: seq<string>): (r: KeyStep)
    ensures LookupKey(grammar.keyMappings, key).None? ==> r == KeyStep(buffer, false, [])
    ensures LookupKey(grammar.keyMappings, key).Some? ==>
              && r.buffer == buffer + [LookupKey(grammar.keyMappings, key).value]
              && r.recognized == Recognition.RecognizeSequence(a, r.buffer).0
    ensures r.printed == if r.recognized then [Announce(r.buffer, Recognition.RecognizeSequence(a, r.buffer).1)] else []
  {
    match LookupKey(grammar.keyMappings, key)
    case None => KeyStep(buffer, false, [])
    case Some(symbol) =>
      var newBuffer := buffer + [symbol];
      var (isRecognized, moves) := RecognizeSequence(a, newBuffer);
      if isRecognized then KeyStep(newBuffer, true, [Announce(newBuffer, moves)])
      else KeyStep(newBuffer, false, [])
  }

  /** On the automaton of a grammar, a mapped key extends the buffer and
      announces the moves spelling the extended buffer, if there are any. */
  lemma ProcessKeyBuilt(key: string, grammar: Grammar, buffer: seq<string>)
    requires LookupKey(grammar.keyMappings, key).Some?
    ensures var candidate := buffer + [LookupKey(grammar.keyMappings, key).value];
            var F := MovesSpelling(grammar.moves, candidate);
            ProcessKeyInput(key, grammar, BuildAutomaton(grammar), buffer) ==
            KeyStep(candidate, F != [], if F != [] then [Announce(candidate, F)] else [])
  {
    Recognition.RecognizeBuilt(grammar, buffer + [LookupKey(grammar.keyMappings, key).value]);
  }

  /** process_keys: process_key_input folded over the keys from left to right,
      collecting the final buffer and everything announced on the way. */
  function ProcessKeys(grammar: Grammar, a: Automaton, buffer: seq<string>, keys: seq<string>): (r: (seq<string>, seq<Printed>))
    ensures buffer <= r.0 && |r.0| <= |buffer| + |keys|
    ensures |r.1| <= |keys| && forall i :: 0 <= i < |r.1| ==> r.1[i].Announce?
    decreases |keys|
  {
    if keys == [] then (buffer, [])
    else
      var step := ProcessKeyInput(keys[0], grammar, a, buffer);
      var rest := ProcessKeys(grammar, a, step.buffer, keys[1..]);
      (rest.0, step.printed + rest.1)
  }

  /** One input line of run_interactive_mode: its keys are processed from the
      empty buffer, whatever the previous line left. */
  function ProcessLine(grammar: Grammar, a: Automaton, keys: seq<string>): (r: (seq<string>, seq<Printed>))
    ensures r.0 == MappedSymbols(grammar.keyMappings, keys)
  {
    ProcessKeysBuffer(grammar, a, [], keys);
    assert [] + MappedSymbols(grammar.keyMappings, keys) == MappedSymbols(grammar.keyMappings, keys);
    ProcessKeys(grammar, a, [], keys)
  }

  /** The symbol a key contributes to the buffer: its mapping, or nothing. */
  function KeySymbols(mappings: seq<(string, string)>, key: string): seq<string> {
    match LookupKey(mappings, key)
    case None => []
    case Some(s) => [s]
  }

  /** The symbols of the mapped keys, in order; unmapped keys contribute nothing. */
  function MappedSymbols(mappings: seq<(string, string)>, keys: seq<string>): seq<string>
    decreases |keys|
  {
    if keys == [] then [] else KeySymbols(mappings, keys[0]) + MappedSymbols(mappings, keys[1..])
  }

  /** One step extends the buffer by the symbol of its key. */
  lemma StepBuffer(key: string, grammar: Grammar, a: Automaton, buffer: seq<string>)
    ensures ProcessKeyInput(key, grammar, a, buffer).buffer == buffer + KeySymbols(grammar.keyMappings, key)
  {
    assert buffer + [] == buffer;
  }

  /** The buffer after a nonempty line, from the first step and the rest. */
  lemma BufferFold(grammar: Grammar, a: Automaton, buffer: seq<string>, keys: seq<string>, head: seq<string>)
    requires keys != [] && head == KeySymbols(grammar.keyMappings, keys[0])
    requires ProcessKeyInput(keys[0], grammar, a, buffer).buffer == buffer + head
    requires ProcessKeys(grammar, a, buffer + head, keys[1..]).0 == buffer + head + MappedSymbols(grammar.keyMappings, keys[1..])
    ensures ProcessKeys(grammar, a, buffer, keys).0 == buffer + MappedSymbols(grammar.keyMappings, keys)
  {
    assert ProcessKeys(grammar, a, buffer, keys).0 == ProcessKeys(grammar, a, buffer + head, keys[1..]).0;
    assert buffer + head + MappedSymbols(grammar.keyMappings, keys[1..]) ==
           buffer + (head + MappedSymbols(grammar.keyMappings, keys[1..]));
  }

  /** The fold only appends: the final buffer is the starting one followed by
      the symbols of the mapped keys. */
  lemma {:induction false} ProcessKeysBuffer(grammar: Grammar, a: Automaton, buffer: seq<string>, keys: seq<string>)
    ensures ProcessKeys(grammar, a, buffer, keys).0 == buffer + MappedSymbols(grammar.keyMappings, keys)
    decreases |keys|
  {
    if keys == [] {
      assert buffer + [] == buffer;
    } else {
      var head := KeySymbols(grammar.keyMappings, keys[0]);
      StepBuffer(keys[0], grammar, a, buffer);
      ProcessKeysBuffer(grammar, a, buffer + head, keys[1..]);
      BufferFold(grammar, a, buffer, keys, head);
    }
  }

  /** Processing a line in two pieces is processing it at once. */
  lemma {:induction false} ProcessKeysAppend(grammar: Grammar, a: Automaton, buffer: seq<string>, keys: seq<string>, more: seq<string>)
    ensures var first := ProcessKeys(grammar, a, buffer, keys);
            var second := ProcessKeys(grammar, a, first.0, more);
            ProcessKeys(grammar, a, buffer, keys + more) == (second.0, first.1 + second.1)
    decreases |keys|
  {
    if keys == [] {
      assert keys + more == more;
      var second := ProcessKeys(grammar, a, buffer, more);
      assert [] + second.1 == second.1;
    } else {
      assert (keys + more)[0] == keys[0] && (keys + more)[1..] == keys[1..] + more;
      var step := ProcessKeyInput(keys[0], grammar, a, buffer);
      ProcessKeysAppend(grammar, a, step.buffer, keys[1..], more);
      var first := ProcessKeys(grammar, a, step.buffer, keys[1..]);
      var second := ProcessKeys(grammar, a, first.0, more);
      assert step.printed + (first.1 + second.1) == step.printed + first.1 + second.1;
    }
  }

  /** What the driver announces, in grammar terms, while `symbols` are
      appended one by one to `buffer`: each extended buffer that some move
      spells, with those moves. */
  function Announcements(moves: seq<Move>, buffer: seq<string>, symbols: seq<string>): seq<Printed>
    decreases |symbols|
  {
    if symbols == [] then []
    else
      var candidate := buffer + [symbols[0]];
      var spelled := MovesSpelling(moves, candidate);
      (if spelled != [] then [Announce(candidate, spelled)] else []) + Announcements(moves, candidate, symbols[1..])
  }

  /** `a` recognises exactly the buffers that some move of `moves` spells,
      with those moves: what RecognizeBuilt proves of the automaton of a grammar. */
  ghost predicate RecognisesSpelling(a: Automaton, moves: seq<Move>) {
    forall w :: Recognition.RecognizeSequence(a, w) == (MovesSpelling(moves, w) != [], MovesSpelling(moves, w))
  }

  /** One mapped key on such an automaton. */
  lemma MappedStep(key: string, symbol: string, grammar: Grammar, a: Automaton, buffer: seq<string>)
    requires RecognisesSpelling(a, grammar.moves)
    requires LookupKey(grammar.keyMappings, key) == Some(symbol)
    ensures var F := MovesSpelling(grammar.moves, buffer + [symbol]);
            ProcessKeyInput(key, grammar, a, buffer) ==
            KeyStep(buffer + [symbol], F != [], if F != [] then [Announce(buffer + [symbol], F)] else [])
  {
    assert Recognition.RecognizeSequence(a, buffer + [symbol]) ==
           (MovesSpelling(grammar.moves, buffer + [symbol]) != [], MovesSpelling(grammar.moves, buffer + [symbol]));
  }

  /** The fold in closed form: the final buffer and the announcements. */
  ghost predicate FoldsTo(grammar: Grammar, a: Automaton, buffer: seq<string>, keys: seq<string>) {
    var symbols := MappedSymbols(grammar.keyMappings, keys);
    ProcessKeys(grammar, a, buffer, keys) == (buffer + symbols, Announcements(grammar.moves, buffer, symbols))
  }

  /** An unmapped first key adds nothing to the closed form of the rest. */
  lemma UnmappedFold(grammar: Grammar, a: Automaton, buffer: seq<string>, keys: seq<string>)
    requires keys != [] && LookupKey(grammar.keyMappings, keys[0]).None?
    requires FoldsTo(grammar, a, buffer, keys[1..])
    ensures FoldsTo(grammar, a, buffer, keys)
  {
    var rest := ProcessKeys(grammar, a, buffer, keys[1..]);
    assert ProcessKeys(grammar, a, buffer, keys) == (rest.0, [] + rest.1);
    assert [] + rest.1 == rest.1;
    var later := MappedSymbols(grammar.keyMappings, keys[1..]);
    assert MappedSymbols(grammar.keyMappings, keys) == [] + later == later;
  }

  /** A mapped first key whose step announces what the moves spell extends
      the buffer before the closed form of the rest. */
  lemma MappedFold(grammar: Grammar, a: Automaton, buffer: seq<string>, keys: seq<string>, symbol: string)
    requires keys != [] && LookupKey(grammar.keyMappings, keys[0]) == Some(symbol)
    requires var F := MovesSpelling(grammar.moves, buffer + [symbol]);
             ProcessKeyInput(keys[0], grammar, a, buffer) ==
             KeyStep(buffer + [symbol], F != [], if F != [] then [Announce(buffer + [symbol], F)] else [])
    requires FoldsTo(grammar, a, buffer + [symbol], keys[1..])
    ensures FoldsTo(grammar, a, buffer, keys)
  {
    var step := ProcessKeyInput(keys[0], grammar, a, buffer);
    var rest := ProcessKeys(grammar, a, buffer + [symbol], keys[1..]);
    assert ProcessKeys(grammar, a, buffer, keys) == (rest.0, step.printed + rest.1);
    var later := MappedSymbols(grammar.keyMappings, keys[1..]);
    var symbols := [symbol] + later;
    assert MappedSymbols(grammar.keyMappings, keys) == symbols;
    assert symbols[0] == symbol && symbols[1..] == later;
    assert buffer + [symbol] + later == buffer + symbols;
  }

  /** On an automaton that recognises what the moves spell, a line of keys
      leaves the starting buffer followed by the mapped symbols, and announces
      every extended buffer that some move spells, in order. */
  lemma {:induction false} ProcessKeysSpelling(grammar: Grammar, a: Automaton, buffer: seq<string>, keys: seq<string>)
    requires RecognisesSpelling(a, grammar.moves)
    ensures var symbols := MappedSymbols(grammar.keyMappings, keys);
            ProcessKeys(grammar, a, buffer, keys) == (buffer + symbols, Announcements(grammar.moves, buffer, symbols))
    decreases |keys|
  {
    if keys == [] {
      assert buffer + [] == buffer;
    } else {
      match LookupKey(grammar.keyMappings, keys[0])
      case None =>
        ProcessKeysSpelling(grammar, a, buffer, keys[1..]);
        UnmappedFold(grammar, a, buffer, keys);
      case Some(symbol) =>
        ProcessKeysSpelling(grammar, a, buffer + [symbol], keys[1..]);
        MappedStep(keys[0], symbol, grammar, a, buffer);
        MappedFold(grammar, a, buffer, keys, symbol);
    }
    assert FoldsTo(grammar, a, buffer, keys);
  }

  /** The automaton of a grammar recognises what its moves spell. */
  lemma BuiltRecognisesSpelling(grammar: Grammar)
    ensures RecognisesSpelling(BuildAutomaton(grammar), grammar.moves)
  {
    forall w ensures Recognition.RecognizeSequence(BuildAutomaton(grammar), w) ==
                     (MovesSpelling(grammar.moves, w) != [], MovesSpelling(grammar.moves, w)) {
      Recognition.RecognizeBuilt(grammar, w);
    }
  }

  /** On the automaton of a grammar, a line of keys from the empty buffer
      leaves the mapped symbols and announces, in order, each of their
      prefixes that some move spells. */
  lemma ProcessLineBuilt(grammar: Grammar, keys: seq<string>)
    ensures var symbols := MappedSymbols(grammar.keyMappings, keys);
            ProcessLine(grammar, BuildAutomaton(grammar), keys) == (symbols, Announcements(grammar.moves, [], symbols))
  {
    BuiltRecognisesSpelling(grammar);
    ProcessKeysSpelling(grammar, BuildAutomaton(grammar), [], keys);
    assert [] + MappedSymbols(grammar.keyMappings, keys) == MappedSymbols(grammar.keyMappings, keys);
  }

  /** The two drivers on the same key and buffer: when this one recognises, so
      does the one of src/recognition.py, which then empties its buffer while
      this one keeps the extended buffer; while the extended buffer is live
      they report the same flag, and agree on the buffer unless a move was
      recognised. */
  lemma CompareDrivers(key: string, grammar: Grammar, a: Automaton, buffer: seq<string>, debug: bool)
    requires LookupKey(grammar.keyMappings, key).Some?
    ensures var symbol := LookupKey(grammar.keyMappings, key).value;
      var i := ProcessKeyInput(key, grammar, a, buffer);
      var r := Recognition.ProcessKeyInput(key, grammar, a, buffer, debug);
      && (i.recognized ==> r.recognized && r.buffer == [] && i.buffer == buffer + [symbol])
      && (Recognition.StateIdAfter(a, buffer + [symbol]) != -1 ==>
            i.recognized == r.recognized && (r.recognized || r.buffer == i.buffer))
  {
  }
}
