/** The recogniser and key driver of src/recognition.py: walking the automaton
    with -1 for a dead end, reporting final states, and the five-step policy
    that decides, for each key, whether to recognise, keep extending, retry
    from the key's symbol alone, or reset. What the driver prints (the
    announcement and, with debug on, the trace) is returned as a list of
    `Printed` events. */
module Recognition {
  import opened Types
  import opened Seqs
  import opened Builder
  import opened BuilderInvariants
  import opened TrieLanguage
  import opened Utils

  // ---------------------------------------------------------------------------
  // Walking and recognising
  // ---------------------------------------------------------------------------

  /** The inner `traverse` of state_id_after: follows δ from `current`, -1 at a missing transition. */
  function Traverse(transitions: seq<Transition>, w: seq<string>, current: int): int
    decreases |w|
  {
    if w == [] then current
    else match FindTransition(transitions, current, w[0])
      case None => -1
      case Some(next) => Traverse(transitions, w[1..], next)
  }

  /** traverse is δ* with None written as -1. */
  lemma {:induction false} TraverseIsRun(transitions: seq<Transition>, w: seq<string>, q: int)
    ensures Traverse(transitions, w, q) == match Run(transitions, q, w) case None => -1 case Some(p) => p
    decreases |w|
  {
    if w != [] {
      match FindTransition(transitions, q, w[0])
      case None =>
      case Some(next) => TraverseIsRun(transitions, w[1..], next);
    }
  }

  /** No entry of the table enters the sentinel -1, so -1 always means a dead end. */
  ghost predicate NoSentinelTarget(a: Automaton) {
    a.initialState != -1 && forall i :: 0 <= i < |a.transitions| ==> a.transitions[i].target != -1
  }

  /** state_id_after: the id reached from the initial state, or -1. */
  function StateIdAfter(a: Automaton, w: seq<string>): (r: int)
    ensures w == [] ==> r == a.initialState
  {
    Traverse(a.transitions, w, a.initialState)
  }

  /** Walking u + v is walking u, then v from where u stopped; a dead end stays dead. */
  lemma {:induction false} TraverseAppend(transitions: seq<Transition>, u: seq<string>, v: seq<string>, q: int)
    requires q != -1 && forall i :: 0 <= i < |transitions| ==> transitions[i].target != -1
    ensures Traverse(transitions, u + v, q) ==
            if Traverse(transitions, u, q) == -1 then -1 else Traverse(transitions, v, Traverse(transitions, u, q))
    decreases |u|
  {
    if u == [] {
      assert u + v == v;
    } else {
      assert (u + v)[0] == u[0] && (u + v)[1..] == u[1..] + v;
      match FindTransition(transitions, q, u[0])
      case None =>
      case Some(next) =>
        var i := FindTransitionFirst(transitions, q, u[0]);
        TraverseAppend(transitions, u[1..], v, next);
    }
  }

  /** state_id_after extends one symbol at a time: dead stays dead, and a live
      walk takes one δ step, -1 when δ is undefined there. */
  lemma StateIdAfterSnoc(a: Automaton, w: seq<string>, x: string)
    requires NoSentinelTarget(a)
    ensures StateIdAfter(a, w + [x]) ==
            if StateIdAfter(a, w) == -1 then -1
            else match FindTransition(a.transitions, StateIdAfter(a, w), x) case None => -1 case Some(p) => p
  {
    TraverseAppend(a.transitions, w, [x], a.initialState);
    assert [x][1..] == [];
  }

  /** recognize_sequence: (true, the moves of the state reached) when the walk
      is live and ends in a final state, (false, []) otherwise. */
  function RecognizeSequence(a: Automaton, w: seq<string>): (r: (bool, seq<Move>))
    ensures !r.0 ==> r.1 == []
    ensures r.0 ==> Run(a.transitions, a.initialState, w).Some?
  {
    TraverseIsRun(a.transitions, w, a.initialState);
    var sid := StateIdAfter(a, w);
    if sid == -1 then (false, [])
    else match FindState(a.states, sid)
      case Some(s) => if s.isFinal then (true, s.moves) else (false, [])
      case None => (false, [])
  }

  /** The automaton of a grammar recognises a word exactly when some move
      spells it, and then reports all the moves spelling it, in grammar order. */
  lemma RecognizeBuilt(grammar: Grammar, w: seq<string>)
    ensures var F := MovesSpelling(grammar.moves, w);
            RecognizeSequence(BuildAutomaton(grammar), w) == (F != [], F)
  {
    var a := BuildAutomaton(grammar);
    BuildAutomatonMoves(grammar, w);
    TraverseIsRun(a.transitions, w, 0);
  }

  /** In the automaton of a grammar, state_id_after is -1 exactly on the words
      that are neither empty nor a prefix of a move's sequence. */
  lemma StateIdAfterBuilt(grammar: Grammar, w: seq<string>)
    ensures (StateIdAfter(BuildAutomaton(grammar), w) != -1) <==>
            (w == [] || exists m :: m in grammar.moves && w <= m.sequence)
  {
    var a := BuildAutomaton(grammar);
    BuildAutomatonLive(grammar, w);
    BuildAutomatonMoves(grammar, w);
    TraverseIsRun(a.transitions, w, 0);
  }

  /** The automaton of a grammar never uses the sentinel id. */
  lemma BuiltNoSentinel(grammar: Grammar)
    ensures NoSentinelTarget(BuildAutomaton(grammar))
  {
    BuildAutomatonBuilt(grammar);
  }

  // ---------------------------------------------------------------------------
  // The key driver
  // ---------------------------------------------------------------------------

  /** _debug_transition: the step from the state of `buffer` to that of
      `candidate`, printed only when the latter is live. */
  function DebugTransition(a: Automaton, buffer: seq<string>, symbol: string, candidate: seq<string>): (r: seq<Printed>)
    ensures |r| <= 1
    ensures r != [] <==> StateIdAfter(a, candidate) != -1
    ensures r != [] ==> r[0].StepTrace? && r[0].symbol == symbol && r[0].from == StateIdAfter(a, buffer)
  {
    var to := StateIdAfter(a, candidate);
    if to != -1 then [StepTrace(StateIdAfter(a, buffer), symbol, to)] else []
  }

  /** _debug_end_states: one line per recognised move, with the state reached. */
  function DebugEndStates(a: Automaton, w: seq<string>, moves: seq<Move>): (r: seq<Printed>)
    ensures |r| == |moves|
    ensures forall i :: 0 <= i < |r| ==> r[i].EndStateTrace? && r[i].move == moves[i] && r[i].stateId == StateIdAfter(a, w)
  {
    var sid := StateIdAfter(a, w);
    seq(|moves|, i requires 0 <= i < |moves| => EndStateTrace(moves[i], sid))
  }

  /** A buffer the driver may hold: empty, or live and not accepting. */
  predicate Waiting(a: Automaton, buffer: seq<string>) {
    buffer == [] || (StateIdAfter(a, buffer) != -1 && !RecognizeSequence(a, buffer).0)
  }

  /** Is this printed event the announcement of recognised moves? */
  predicate IsAnnounce(p: Printed) {
    p.Announce?
  }

  /** process_key_input: maps the key to a symbol (an unmapped key changes
      nothing), then applies, in this order: the extended buffer is recognised
      (announce, reset); it is live (keep it); the symbol alone is recognised
      (announce, reset); the symbol alone is live (restart from it); reset. */
  function ProcessKeyInput(key: string, grammar: Grammar, a: Automaton, buffer: seq<string>, debug: bool): (r: KeyStep)
    ensures LookupKey(grammar.keyMappings, key).None? ==> r == KeyStep(buffer, false, [])
    ensures r.recognized ==> r.buffer == []
    ensures LookupKey(grammar.keyMappings, key).Some? ==> Waiting(a, r.buffer)
    ensures Waiting(a, buffer) ==> Waiting(a, r.buffer)
    ensures r.recognized ==> |r.printed| > 0 && IsAnnounce(r.printed[|r.printed| - 1])
    ensures forall i :: 0 <= i < |r.printed| && IsAnnounce(r.printed[i]) ==> r.recognized && i == |r.printed| - 1
  {
    match LookupKey(grammar.keyMappings, key)
    case None => KeyStep(buffer, false, [])
    case Some(symbol) =>
      var candidate := buffer + [symbol];
      var (matched, moves) := RecognizeSequence(a, candidate);
      var trace := if debug then DebugTransition(a, buffer, symbol, candidate) else [];
      if matched then
        var ends := if debug then DebugEndStates(a, candidate, moves) else [];
        KeyStep([], true, trace + ends + [Announce(candidate, moves)])
      else if StateIdAfter(a, candidate) != -1 then
        KeyStep(candidate, false, trace)
      else
        var single := [symbol];
        var (matchedSingle, movesSingle) := RecognizeSequence(a, single);
        if matchedSingle then
          var retry := if debug then DebugTransition(a, [], symbol, single) + DebugEndStates(a, single, movesSingle) else [];
          KeyStep([], true, trace + retry + [Announce(single, movesSingle)])
        else
          KeyStep(if StateIdAfter(a, single) != -1 then single else [], false, trace)
  }

  /** The debug flag changes only what is printed: the buffer and the flag are
      the same, and without debug exactly the announcements are printed. */
  lemma DebugOnlyPrints(key: string, grammar: Grammar, a: Automaton, buffer: seq<string>)
    ensures var on := ProcessKeyInput(key, grammar, a, buffer, true);
            var off := ProcessKeyInput(key, grammar, a, buffer, false);
            && on.buffer == off.buffer
            && on.recognized == off.recognized
            && off.printed == Filter(on.printed, IsAnnounce)
  {
    var on := ProcessKeyInput(key, grammar, a, buffer, true);
    if LookupKey(grammar.keyMappings, key).Some? {
      var symbol := LookupKey(grammar.keyMappings, key).value;
      var candidate := buffer + [symbol];
      var moves := RecognizeSequence(a, candidate).1;
      var single := [symbol];
      var movesSingle := RecognizeSequence(a, single).1;
      var trace := DebugTransition(a, buffer, symbol, candidate);
      FilterDropsAll(trace, IsAnnounce);
      if RecognizeSequence(a, candidate).0 {
        var ends := DebugEndStates(a, candidate, moves);
        FilterDropsAll(trace + ends, IsAnnounce);
        FilterAppend(trace + ends, [Announce(candidate, moves)], IsAnnounce);
      } else if StateIdAfter(a, candidate) == -1 && RecognizeSequence(a, single).0 {
        var retry := DebugTransition(a, [], symbol, single) + DebugEndStates(a, single, movesSingle);
        FilterDropsAll(trace + retry, IsAnnounce);
        FilterAppend(trace + retry, [Announce(single, movesSingle)], IsAnnounce);
      }
    }
  }

  /** A word that is empty or a proper prefix of a move's sequence and spelled
      by no move: what the driver may keep waiting on. */
  ghost predicate Pending(grammar: Grammar, buffer: seq<string>) {
    buffer == [] || ((exists m :: m in grammar.moves && buffer <= m.sequence) && MovesSpelling(grammar.moves, buffer) == [])
  }

  /** The five-step policy on the automaton of a grammar, in the grammar's
      terms: with `symbol` the key's symbol, the extended buffer is announced
      with the moves spelling it if there are any; otherwise it is kept if it
      is a prefix of a move; otherwise the symbol alone is announced with the
      moves spelling it if there are any; otherwise the symbol alone is kept if
      it begins a move; otherwise the buffer is reset. */
  lemma ProcessKeyBuilt(key: string, grammar: Grammar, buffer: seq<string>, debug: bool)
    requires LookupKey(grammar.keyMappings, key).Some?
    ensures var symbol := LookupKey(grammar.keyMappings, key).value;
      var r := ProcessKeyInput(key, grammar, BuildAutomaton(grammar), buffer, debug);
      var candidate := buffer + [symbol];
      var F := MovesSpelling(grammar.moves, candidate);
      var G := MovesSpelling(grammar.moves, [symbol]);
      if F != [] then
        r.buffer == [] && r.recognized && r.printed[|r.printed| - 1] == Announce(candidate, F)
      else if exists m :: m in grammar.moves && candidate <= m.sequence then
        r.buffer == candidate && !r.recognized
      else if G != [] then
        r.buffer == [] && r.recognized && r.printed[|r.printed| - 1] == Announce([symbol], G)
      else if exists m :: m in grammar.moves && [symbol] <= m.sequence then
        r.buffer == [symbol] && !r.recognized
      else
        r.buffer == [] && !r.recognized
  {
    var symbol := LookupKey(grammar.keyMappings, key).value;
    RecognizeBuilt(grammar, buffer + [symbol]);
    RecognizeBuilt(grammar, [symbol]);
    StateIdAfterBuilt(grammar, buffer + [symbol]);
    StateIdAfterBuilt(grammar, [symbol]);
  }

  /** On the automaton of a grammar, a buffer is one the driver may hold
      exactly when it is pending. */
  lemma WaitingBuilt(grammar: Grammar, buffer: seq<string>)
    ensures Waiting(BuildAutomaton(grammar), buffer) <==> Pending(grammar, buffer)
  {
    RecognizeBuilt(grammar, buffer);
    StateIdAfterBuilt(grammar, buffer);
  }

  /** On the automaton of a grammar the buffer returned for a mapped key is
      pending: empty, or a prefix of some move's sequence that no move spells;
      and a pending buffer stays pending whatever the key. */
  lemma ProcessKeyPending(key: string, grammar: Grammar, buffer: seq<string>, debug: bool)
    requires LookupKey(grammar.keyMappings, key).Some? || Pending(grammar, buffer)
    ensures Pending(grammar, ProcessKeyInput(key, grammar, BuildAutomaton(grammar), buffer, debug).buffer)
  {
    var r := ProcessKeyInput(key, grammar, BuildAutomaton(grammar), buffer, debug);
    WaitingBuilt(grammar, buffer);
    WaitingBuilt(grammar, r.buffer);
  }

  // ---------------------------------------------------------------------------
  // A stream of keys
  // ---------------------------------------------------------------------------

  /** What handles one key: given the key and the buffer, the next step. */
  type KeyHandler = (string, seq<string>) -> KeyStep

  /** process_key_input with the grammar, the automaton and the flag fixed. */
  function Handler(grammar: Grammar, a: Automaton, debug: bool): KeyHandler {
    (key: string, buffer: seq<string>) => ProcessKeyInput(key, grammar, a, buffer, debug)
  }

  /** A handler applied to keys one after the other, each from the buffer the
      previous key returned: the final buffer and everything printed. */
  function Feed(handle: KeyHandler, buffer: seq<string>, keys: seq<string>): (seq<string>, seq<Printed>)
    decreases |keys|
  {
    if keys == [] then (buffer, [])
    else
      var step := handle(keys[0], buffer);
      var rest := Feed(handle, step.buffer, keys[1..]);
      (rest.0, step.printed + rest.1)
  }

  /** process_key_input fed a stream of keys. */
  function FeedKeys(grammar: Grammar, a: Automaton, buffer: seq<string>, keys: seq<string>, debug: bool): (seq<string>, seq<Printed>) {
    Feed(Handler(grammar, a, debug), buffer, keys)
  }

  /** One more key is one more step from the buffer the others left. */
  lemma {:induction false} FeedSnoc(handle: KeyHandler, buffer: seq<string>, keys: seq<string>, key: string)
    ensures var before := Feed(handle, buffer, keys);
            var step := handle(key, before.0);
            Feed(handle, buffer, keys + [key]) == (step.buffer, before.1 + step.printed)
    decreases |keys|
  {
    if keys == [] {
      assert keys + [key] == [key] && [key][1..] == [];
      var step := handle(key, buffer);
      assert step.printed + [] == [] + step.printed;
    } else {
      assert (keys + [key])[0] == keys[0] && (keys + [key])[1..] == keys[1..] + [key];
      var first := handle(keys[0], buffer);
      FeedSnoc(handle, first.buffer, keys[1..], key);
      var before := Feed(handle, first.buffer, keys[1..]);
      var step := handle(key, before.0);
      assert first.printed + (before.1 + step.printed) == (first.printed + before.1) + step.printed;
    }
  }

  /** Silent keys up to buffer `w`, then key j - 1 leaving buffer `v` and announcing `f`. */
  lemma FeedPrefixKey(handle: KeyHandler, keys: seq<string>, j: nat, w: seq<string>, v: seq<string>, f: seq<Printed>)
    requires 0 < j <= |keys|
    requires var before := Feed(handle, [], keys[..j - 1]);
             before.0 == w && Filter(before.1, IsAnnounce) == []
    requires var step := handle(keys[j - 1], w);
             step.buffer == v && Filter(step.printed, IsAnnounce) == f
    ensures var r := Feed(handle, [], keys[..j]);
            r.0 == v && Filter(r.1, IsAnnounce) == f
  {
    assert keys[..j] == keys[..j - 1] + [keys[j - 1]];
    FeedSnoc(handle, [], keys[..j - 1], keys[j - 1]);
    var before := Feed(handle, [], keys[..j - 1]);
    var step := handle(keys[j - 1], w);
    FilterAppend(before.1, step.printed, IsAnnounce);
  }

  /** Key i, pressed on the first i symbols of `w`, holds the first i + 1 and announces nothing. */
  predicate WaitsAt(handle: KeyHandler, keys: seq<string>, w: seq<string>, i: nat) {
    i < |keys| && i < |w| &&
    var step := handle(keys[i], w[..i]);
    step.buffer == w[..i + 1] && Filter(step.printed, IsAnnounce) == []
  }

  /** Keys that each wait on the symbols before them hold those symbols and announce nothing. */
  lemma {:induction false} FeedWaits(handle: KeyHandler, keys: seq<string>, w: seq<string>, j: nat)
    requires forall i :: 0 <= i < j ==> WaitsAt(handle, keys, w, i)
    requires j <= |keys| && j <= |w|
    ensures var r := Feed(handle, [], keys[..j]);
            r.0 == w[..j] && Filter(r.1, IsAnnounce) == []
    decreases j
  {
    if j == 0 {
      assert keys[..0] == [] && w[..0] == [];
    } else {
      FeedWaits(handle, keys, w, j - 1);
      assert WaitsAt(handle, keys, w, j - 1);
      FeedPrefixKey(handle, keys, j, w[..j - 1], w[..j], []);
    }
  }

  /** Keys that wait on every proper prefix of `w`, the last of which empties
      the buffer announcing `f`: every proper prefix is held silently, and the
      whole stream ends empty having announced `f`. */
  lemma FeedSpells(handle: KeyHandler, keys: seq<string>, w: seq<string>, f: seq<Printed>)
    requires |keys| == |w| > 0
    requires forall i :: 0 <= i < |keys| - 1 ==> WaitsAt(handle, keys, w, i)
    requires var step := handle(keys[|keys| - 1], w[..|keys| - 1]);
             step.buffer == [] && Filter(step.printed, IsAnnounce) == f
    ensures forall j :: 0 < j < |keys| ==>
              Feed(handle, [], keys[..j]).0 == w[..j] && Filter(Feed(handle, [], keys[..j]).1, IsAnnounce) == []
    ensures Feed(handle, [], keys).0 == [] && Filter(Feed(handle, [], keys).1, IsAnnounce) == f
  {
    var n := |keys|;
    forall j | 0 < j < n
      ensures Feed(handle, [], keys[..j]).0 == w[..j] && Filter(Feed(handle, [], keys[..j]).1, IsAnnounce) == []
    {
      FeedWaits(handle, keys, w, j);
    }
    FeedWaits(handle, keys, w, n - 1);
    FeedPrefixKey(handle, keys, n, w[..n - 1], [], f);
    assert keys[..n] == keys;
  }

  /** Key k maps to the k-th symbol of `w`. */
  predicate KeysSpell(grammar: Grammar, keys: seq<string>, w: seq<string>) {
    |keys| == |w| && forall k :: 0 <= k < |keys| ==> LookupKey(grammar.keyMappings, keys[k]) == Some(w[k])
  }

  /** Extending a prefix by the next symbol. */
  lemma PrefixSnoc(w: seq<string>, j: nat)
    requires 0 < j <= |w|
    ensures w[..j - 1] + [w[j - 1]] == w[..j] && w[..j] <= w
  {
  }

  /** A key extending the buffer to a proper part of a move's sequence that no
      move spells is held and announces nothing. */
  lemma WaitingKey(key: string, grammar: Grammar, m: Move, buffer: seq<string>, debug: bool)
    requires m in grammar.moves
    requires LookupKey(grammar.keyMappings, key).Some?
    requires buffer + [LookupKey(grammar.keyMappings, key).value] <= m.sequence
    requires MovesSpelling(grammar.moves, buffer + [LookupKey(grammar.keyMappings, key).value]) == []
    ensures var step := ProcessKeyInput(key, grammar, BuildAutomaton(grammar), buffer, debug);
            step.buffer == buffer + [LookupKey(grammar.keyMappings, key).value] &&
            Filter(step.printed, IsAnnounce) == []
  {
    ProcessKeyBuilt(key, grammar, buffer, debug);
    var step := ProcessKeyInput(key, grammar, BuildAutomaton(grammar), buffer, debug);
    FilterDropsAll(step.printed, IsAnnounce);
  }

  /** The key completing a move's sequence announces every move of that
      sequence, last, and empties the buffer. */
  lemma CompletingKey(key: string, grammar: Grammar, m: Move, buffer: seq<string>, debug: bool)
    requires m in grammar.moves
    requires LookupKey(grammar.keyMappings, key).Some?
    requires buffer + [LookupKey(grammar.keyMappings, key).value] == m.sequence
    ensures var step := ProcessKeyInput(key, grammar, BuildAutomaton(grammar), buffer, debug);
            step.buffer == [] &&
            Filter(step.printed, IsAnnounce) == [Announce(m.sequence, MovesSpelling(grammar.moves, m.sequence))]
  {
    MovesSpellingMembers(grammar.moves, m.sequence, m);
    ProcessKeyBuilt(key, grammar, buffer, debug);
    var step := ProcessKeyInput(key, grammar, BuildAutomaton(grammar), buffer, debug);
    FilterOnlyLast(step.printed, IsAnnounce);
  }

  /** Each key of a move but the last waits, when no move spells a shorter
      part of its sequence. */
  lemma TypedKeysWait(grammar: Grammar, m: Move, keys: seq<string>, debug: bool)
    requires m in grammar.moves && KeysSpell(grammar, keys, m.sequence)
    requires forall i :: 0 < i < |m.sequence| ==> MovesSpelling(grammar.moves, m.sequence[..i]) == []
    ensures forall i :: 0 <= i < |keys| - 1 ==> WaitsAt(Handler(grammar, BuildAutomaton(grammar), debug), keys, m.sequence, i)
  {
    forall i | 0 <= i < |keys| - 1
      ensures WaitsAt(Handler(grammar, BuildAutomaton(grammar), debug), keys, m.sequence, i)
    {
      PrefixSnoc(m.sequence, i + 1);
      WaitingKey(keys[i], grammar, m, m.sequence[..i], debug);
    }
  }

  /** A move none of whose shorter non-empty prefixes is spelled by a move is
      recognised when its keys are typed from the empty buffer: the driver
      waits on every proper prefix, then at the last key announces once, with
      every move of that sequence, and returns to the empty buffer. */
  lemma TypedMoveAnnounced(grammar: Grammar, m: Move, keys: seq<string>, debug: bool)
    requires m in grammar.moves && m.sequence != [] && KeysSpell(grammar, keys, m.sequence)
    requires forall i :: 0 < i < |m.sequence| ==> MovesSpelling(grammar.moves, m.sequence[..i]) == []
    ensures forall j :: 0 < j < |keys| ==>
              FeedKeys(grammar, BuildAutomaton(grammar), [], keys[..j], debug).0 == m.sequence[..j] &&
              Filter(FeedKeys(grammar, BuildAutomaton(grammar), [], keys[..j], debug).1, IsAnnounce) == []
    ensures var r := FeedKeys(grammar, BuildAutomaton(grammar), [], keys, debug);
            r.0 == [] && Filter(r.1, IsAnnounce) == [Announce(m.sequence, MovesSpelling(grammar.moves, m.sequence))]
  {
    var n := |keys|;
    TypedKeysWait(grammar, m, keys, debug);
    PrefixSnoc(m.sequence, n);
    assert m.sequence[..n] == m.sequence;
    CompletingKey(keys[n - 1], grammar, m, m.sequence[..n - 1], debug);
    FeedSpells(Handler(grammar, BuildAutomaton(grammar), debug), keys, m.sequence,
               [Announce(m.sequence, MovesSpelling(grammar.moves, m.sequence))]);
  }
}
