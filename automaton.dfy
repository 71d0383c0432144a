/** The automaton builder (src/automaton.py): every move's symbol sequence is
    folded into one trie-shaped DFA held in two tables, states and transitions,
    that are rebuilt as new values at every step. */
module Builder {
  import opened Types
  import opened Seqs

  // ---------------------------------------------------------------------------
  // Tables and their lookups
  // ---------------------------------------------------------------------------

  /** The state with the given id: the first match of the comprehension, or None. */
  function FindState(states: seq<State>, id: int): (r: Option<State>)
    ensures r.None? <==> forall i :: 0 <= i < |states| ==> states[i].id != id
  {
    if states == [] then None
    else if states[0].id == id then Some(states[0])
    else FindState(states[1..], id)
  }

  /** find_state returns the first state with the id. */
  lemma {:induction false} FindStateFirst(states: seq<State>, id: int) returns (i: nat)
    requires FindState(states, id).Some?
    ensures i < |states| && states[i] == FindState(states, id).value && states[i].id == id
    ensures forall j :: 0 <= j < i ==> states[j].id != id
  {
    if states[0].id == id {
      i := 0;
    } else {
      var k := FindStateFirst(states[1..], id);
      i := k + 1;
    }
  }

  /** Does this entry of the transition table have the key (from, symbol)? */
  predicate HasKey(t: Transition, from: int, symbol: string) {
    t.source == from && t.symbol == symbol
  }

  /** The target of the first entry keyed (from, symbol), or None: the DFA's δ. */
  function FindTransition(transitions: seq<Transition>, from: int, symbol: string): (r: Option<int>)
    ensures r.None? <==> forall i :: 0 <= i < |transitions| ==> !HasKey(transitions[i], from, symbol)
  {
    if transitions == [] then None
    else if HasKey(transitions[0], from, symbol) then Some(transitions[0].target)
    else FindTransition(transitions[1..], from, symbol)
  }

  /** find_transition returns the target of the first entry with the key. */
  lemma {:induction false} FindTransitionFirst(transitions: seq<Transition>, from: int, symbol: string) returns (i: nat)
    requires FindTransition(transitions, from, symbol).Some?
    ensures i < |transitions| && HasKey(transitions[i], from, symbol)
    ensures transitions[i].target == FindTransition(transitions, from, symbol).value
    ensures forall j :: 0 <= j < i ==> !HasKey(transitions[j], from, symbol)
  {
    if HasKey(transitions[0], from, symbol) {
      i := 0;
    } else {
      var k := FindTransitionFirst(transitions[1..], from, symbol);
      i := k + 1;
    }
  }

  /** The filter that drops the states with id `id`. */
  function OtherId(id: int): State -> bool {
    (s: State) => s.id != id
  }

  /** The filter that drops the entries keyed (from, symbol). */
  function OtherKey(from: int, symbol: string): Transition -> bool {
    (t: Transition) => !HasKey(t, from, symbol)
  }

  /** Adds `state`, replacing every state that has its id. */
  function AddState(states: seq<State>, state: State): (r: seq<State>)
    ensures |r| > 0 && r[|r| - 1] == state
    ensures forall i :: 0 <= i < |r| - 1 ==> r[i].id != state.id
  {
    Filter(states, OtherId(state.id)) + [state]
  }

  /** Adds the entry (from, symbol) -> to, replacing every entry with that key. */
  function AddTransition(transitions: seq<Transition>, from: int, symbol: string, to: int): (r: seq<Transition>)
    ensures |r| > 0 && r[|r| - 1] == Transition(from, symbol, to)
    ensures forall i :: 0 <= i < |r| - 1 ==> !HasKey(r[i], from, symbol)
  {
    Filter(transitions, OtherKey(from, symbol)) + [Transition(from, symbol, to)]
  }

  // ---------------------------------------------------------------------------
  // Lookups after updates
  // ---------------------------------------------------------------------------

  lemma {:induction false} FindStateAppend(a: seq<State>, b: seq<State>, id: int)
    ensures FindState(a + b, id) == if FindState(a, id).Some? then FindState(a, id) else FindState(b, id)
  {
    if a != [] {
      assert (a + b)[1..] == a[1..] + b;
      FindStateAppend(a[1..], b, id);
    } else {
      assert a + b == b;
    }
  }

  lemma {:induction false} FindStateFiltered(states: seq<State>, k: int, id: int)
    requires id != k
    ensures FindState(Filter(states, OtherId(k)), id) == FindState(states, id)
  {
    if states != [] {
      FindStateFiltered(states[1..], k, id);
      var kept := if OtherId(k)(states[0]) then [states[0]] else [];
      assert Filter(states, OtherId(k)) == kept + Filter(states[1..], OtherId(k));
      FindStateAppend(kept, Filter(states[1..], OtherId(k)), id);
    }
  }

  /** After add_state, looking up its id finds the added state and every other
      id finds what it found before. */
  lemma FindStateAfterAdd(states: seq<State>, state: State, id: int)
    ensures FindState(AddState(states, state), id) ==
            if id == state.id then Some(state) else FindState(states, id)
  {
    var kept := Filter(states, OtherId(state.id));
    FindStateAppend(kept, [state], id);
    if id == state.id {
      assert FindState(kept, id).None?;
    } else {
      FindStateFiltered(states, state.id, id);
    }
  }

  lemma {:induction false} FindTransitionAppend(a: seq<Transition>, b: seq<Transition>, from: int, symbol: string)
    ensures FindTransition(a + b, from, symbol) ==
            if FindTransition(a, from, symbol).Some? then FindTransition(a, from, symbol)
            else FindTransition(b, from, symbol)
  {
    if a != [] {
      assert (a + b)[1..] == a[1..] + b;
      FindTransitionAppend(a[1..], b, from, symbol);
    } else {
      assert a + b == b;
    }
  }

  lemma {:induction false} FindTransitionFiltered(transitions: seq<Transition>, from: int, symbol: string,
                                                   q: int, x: string)
    requires q != from || x != symbol
    ensures FindTransition(Filter(transitions, OtherKey(from, symbol)), q, x) == FindTransition(transitions, q, x)
  {
    if transitions != [] {
      FindTransitionFiltered(transitions[1..], from, symbol, q, x);
      var t := transitions[0];
      var kept := if OtherKey(from, symbol)(t) then [t] else [];
      assert Filter(transitions, OtherKey(from, symbol)) == kept + Filter(transitions[1..], OtherKey(from, symbol));
      FindTransitionAppend(kept, Filter(transitions[1..], OtherKey(from, symbol)), q, x);
    }
  }

  /** add_transition updates δ at exactly one key: δ' = δ[(from, symbol) := to]. */
  lemma FindTransitionAfterAdd(transitions: seq<Transition>, from: int, symbol: string, to: int)
    ensures forall q, x :: FindTransition(AddTransition(transitions, from, symbol, to), q, x) ==
                           if q == from && x == symbol then Some(to) else FindTransition(transitions, q, x)
  {
    var kept := Filter(transitions, OtherKey(from, symbol));
    forall q, x
      ensures FindTransition(AddTransition(transitions, from, symbol, to), q, x) ==
              if q == from && x == symbol then Some(to) else FindTransition(transitions, q, x)
    {
      FindTransitionAppend(kept, [Transition(from, symbol, to)], q, x);
      if q == from && x == symbol {
        assert FindTransition(kept, q, x).None?;
      } else {
        FindTransitionFiltered(transitions, from, symbol, q, x);
      }
    }
  }

  /** When no entry has the key, add_transition appends and keeps every entry in place. */
  lemma AddTransitionFresh(transitions: seq<Transition>, from: int, symbol: string, to: int)
    requires FindTransition(transitions, from, symbol).None?
    ensures AddTransition(transitions, from, symbol, to) == transitions + [Transition(from, symbol, to)]
  {
    FilterKeepsAll(transitions, OtherKey(from, symbol));
  }

  /** When one entry has the key, add_transition removes that one entry, keeps
      all others in their original order and appends the new one. */
  lemma AddTransitionReplaces(before: seq<Transition>, prior: Transition, after: seq<Transition>, to: int)
    requires forall i :: 0 <= i < |before| ==> !HasKey(before[i], prior.source, prior.symbol)
    requires forall i :: 0 <= i < |after| ==> !HasKey(after[i], prior.source, prior.symbol)
    ensures AddTransition(before + [prior] + after, prior.source, prior.symbol, to) ==
            before + after + [Transition(prior.source, prior.symbol, to)]
  {
    var keep := OtherKey(prior.source, prior.symbol);
    FilterAppend(before + [prior], after, keep);
    FilterAppend(before, [prior], keep);
    FilterKeepsAll(before, keep);
    FilterKeepsAll(after, keep);
    assert !keep(prior);
    FilterDropsAll([prior], keep);
    assert Filter(before + [prior] + after, keep) == before + after;
  }

  /** When no state has the id, add_state appends. */
  lemma AddStateFresh(states: seq<State>, state: State)
    requires FindState(states, state.id).None?
    ensures AddState(states, state) == states + [state]
  {
    FilterKeepsAll(states, OtherId(state.id));
  }

  /** When one state has the id, add_state replaces it: the others keep their order. */
  lemma AddStateReplaces(before: seq<State>, prior: State, after: seq<State>, state: State)
    requires prior.id == state.id
    requires forall i :: 0 <= i < |before| ==> before[i].id != state.id
    requires forall i :: 0 <= i < |after| ==> after[i].id != state.id
    ensures AddState(before + [prior] + after, state) == before + after + [state]
  {
    var keep := OtherId(state.id);
    FilterAppend(before + [prior], after, keep);
    FilterAppend(before, [prior], keep);
    FilterKeepsAll(before, keep);
    FilterKeepsAll(after, keep);
    FilterDropsAll([prior], keep);
    calc {
      Filter(before + [prior] + after, keep);
      Filter(before, keep) + Filter([prior], keep) + Filter(after, keep);
      before + [] + after;
    }
  }

  // ---------------------------------------------------------------------------
  // Walking the automaton
  // ---------------------------------------------------------------------------

  /** δ*: the state reached from `q` by reading `w`, or None at the first missing transition. */
  function Run(transitions: seq<Transition>, q: int, w: seq<string>): Option<int>
    decreases |w|
  {
    if w == [] then Some(q)
    else match FindTransition(transitions, q, w[0])
      case None => None
      case Some(p) => Run(transitions, p, w[1..])
  }

  /** Reading one more symbol takes one more δ step from where the walk stood. */
  lemma {:induction false} RunSnoc(transitions: seq<Transition>, q: int, w: seq<string>, x: string)
    ensures Run(transitions, q, w + [x]) ==
            match Run(transitions, q, w)
            case None => None
            case Some(p) => FindTransition(transitions, p, x)
    decreases |w|
  {
    if w == [] {
      assert [] + [x] == [x];
      assert [x][1..] == [];
    } else {
      assert (w + [x])[0] == w[0];
      assert (w + [x])[1..] == w[1..] + [x];
      match FindTransition(transitions, q, w[0])
      case None =>
      case Some(p) => RunSnoc(transitions, p, w[1..], x);
    }
  }

  /** Every prefix of a live walk is live. */
  lemma {:induction false} RunPrefix(transitions: seq<Transition>, q: int, w: seq<string>, k: nat)
    requires k <= |w|
    requires Run(transitions, q, w).Some?
    ensures Run(transitions, q, w[..k]).Some?
    decreases |w|
  {
    if k > 0 {
      var p := FindTransition(transitions, q, w[0]).value;
      assert w[..k][0] == w[0];
      assert w[..k][1..] == w[1..][..k - 1];
      RunPrefix(transitions, p, w[1..], k - 1);
    }
  }

  /** A walk that is live in a table stays the same in a table that keeps its entries. */
  lemma {:induction false} RunPreserved(prior: seq<Transition>, later: seq<Transition>, q: int, w: seq<string>)
    requires forall p, x :: FindTransition(prior, p, x).Some? ==> FindTransition(later, p, x) == FindTransition(prior, p, x)
    requires Run(prior, q, w).Some?
    ensures Run(later, q, w) == Run(prior, q, w)
    decreases |w|
  {
    if w != [] {
      RunPreserved(prior, later, FindTransition(prior, q, w[0]).value, w[1..]);
    }
  }

  // ---------------------------------------------------------------------------
  // Building paths and adding moves
  // ---------------------------------------------------------------------------

  /** Follows `sequence` from `current`, reusing transitions where they exist and
      creating a fresh state with the next id and one transition into it for every
      symbol that has none. Returns (reached state, states, transitions, next id). */
  function BuildPath(sequence: seq<string>, current: int, states: seq<State>,
                     transitions: seq<Transition>, nextId: int): (r: (int, seq<State>, seq<Transition>, int))
    ensures r.3 >= nextId && |r.2| == |transitions| + (r.3 - nextId)
    decreases |sequence|
  {
    if sequence == [] then (current, states, transitions, nextId)
    else
      var symbol := sequence[0];
      var rest := sequence[1..];
      match FindTransition(transitions, current, symbol)
      case Some(existing) =>
        BuildPath(rest, existing, states, transitions, nextId)
      case None =>
        var newStates := AddState(states, State(nextId, false, []));
        var newTransitions := AddTransition(transitions, current, symbol, nextId);
        AddTransitionFresh(transitions, current, symbol, nextId);
        BuildPath(rest, nextId, newStates, newTransitions, nextId + 1)
  }

  /** When the whole sequence already is a path (the empty sequence included),
      build_path_recursive returns the state it reaches and its inputs untouched;
      otherwise it creates at least one state. */
  lemma {:induction false} BuildPathReuses(sequence: seq<string>, current: int, states: seq<State>,
                                           transitions: seq<Transition>, nextId: int)
    ensures var r := BuildPath(sequence, current, states, transitions, nextId);
      && (Run(transitions, current, sequence).Some? ==>
            r == (Run(transitions, current, sequence).value, states, transitions, nextId))
      && (Run(transitions, current, sequence).None? ==> r.3 > nextId)
    decreases |sequence|
  {
    if sequence != [] {
      match FindTransition(transitions, current, sequence[0])
      case Some(existing) =>
        BuildPathReuses(sequence[1..], existing, states, transitions, nextId);
      case None =>
    }
  }

  /** build_path_recursive only appends to the transition table, every new entry
      pointing at the next fresh id in turn. */
  lemma {:induction false} BuildPathAppends(sequence: seq<string>, current: int, states: seq<State>,
                                            transitions: seq<Transition>, nextId: int)
    ensures var r := BuildPath(sequence, current, states, transitions, nextId);
      && r.2[..|transitions|] == transitions
      && (forall k :: |transitions| <= k < |r.2| ==> r.2[k].target == nextId + (k - |transitions|))
    decreases |sequence|
  {
    if sequence != [] {
      var symbol := sequence[0];
      match FindTransition(transitions, current, symbol)
      case Some(existing) =>
        BuildPathAppends(sequence[1..], existing, states, transitions, nextId);
      case None =>
        var newStates := AddState(states, State(nextId, false, []));
        var newTransitions := AddTransition(transitions, current, symbol, nextId);
        AddTransitionFresh(transitions, current, symbol, nextId);
        BuildPathAppends(sequence[1..], nextId, newStates, newTransitions, nextId + 1);
        var r := BuildPath(sequence[1..], nextId, newStates, newTransitions, nextId + 1);
        assert r.2[..|transitions|] == r.2[..|newTransitions|][..|transitions|];
    }
  }

  /** build_path_recursive keeps every value δ already had. */
  lemma {:induction false} BuildPathKeeps(sequence: seq<string>, current: int, states: seq<State>,
                                          transitions: seq<Transition>, nextId: int)
    ensures var r := BuildPath(sequence, current, states, transitions, nextId);
            forall q, x :: FindTransition(transitions, q, x).Some? ==>
              FindTransition(r.2, q, x) == FindTransition(transitions, q, x)
    decreases |sequence|
  {
    if sequence != [] {
      var symbol := sequence[0];
      match FindTransition(transitions, current, symbol)
      case Some(existing) =>
        BuildPathKeeps(sequence[1..], existing, states, transitions, nextId);
      case None =>
        var newStates := AddState(states, State(nextId, false, []));
        var newTransitions := AddTransition(transitions, current, symbol, nextId);
        FindTransitionAfterAdd(transitions, current, symbol, nextId);
        BuildPathKeeps(sequence[1..], nextId, newStates, newTransitions, nextId + 1);
    }
  }

  /** After build_path_recursive the sequence leads from `current` to the state it returns. */
  lemma {:induction false} BuildPathReaches(sequence: seq<string>, current: int, states: seq<State>,
                                            transitions: seq<Transition>, nextId: int)
    ensures var r := BuildPath(sequence, current, states, transitions, nextId);
            Run(r.2, current, sequence) == Some(r.0)
    decreases |sequence|
  {
    if sequence != [] {
      var symbol := sequence[0];
      match FindTransition(transitions, current, symbol)
      case Some(existing) =>
        BuildPathReaches(sequence[1..], existing, states, transitions, nextId);
        BuildPathKeeps(sequence[1..], existing, states, transitions, nextId);
      case None =>
        var newStates := AddState(states, State(nextId, false, []));
        var newTransitions := AddTransition(transitions, current, symbol, nextId);
        FindTransitionAfterAdd(transitions, current, symbol, nextId);
        BuildPathReaches(sequence[1..], nextId, newStates, newTransitions, nextId + 1);
        BuildPathKeeps(sequence[1..], nextId, newStates, newTransitions, nextId + 1);
    }
  }

  /** Folds one move into (states, transitions, next id): walks or extends its
      path from state 0 and marks the end state final, appending the move to it. */
  function AddMove(data: (seq<State>, seq<Transition>, int), move: Move): (r: (seq<State>, seq<Transition>, int))
    ensures Run(r.1, 0, move.sequence).Some?
    ensures FindState(r.0, Run(r.1, 0, move.sequence).value).Some?
    ensures var s := FindState(r.0, Run(r.1, 0, move.sequence).value).value;
            s.isFinal && |s.moves| > 0 && s.moves[|s.moves| - 1] == move
    ensures r.2 >= data.2
    ensures forall q, x :: FindTransition(data.1, q, x).Some? ==>
              FindTransition(r.1, q, x) == FindTransition(data.1, q, x)
  {
    var (finalId, newStates, newTransitions, newNextId) := BuildPath(move.sequence, 0, data.0, data.1, data.2);
    BuildPathReaches(move.sequence, 0, data.0, data.1, data.2);
    BuildPathKeeps(move.sequence, 0, data.0, data.1, data.2);
    var finalState := FindState(newStates, finalId);
    var updated := State(finalId, true, if finalState.Some? then finalState.value.moves + [move] else [move]);
    FindStateAfterAdd(newStates, updated, finalId);
    (AddState(newStates, updated), newTransitions, newNextId)
  }

  /** functools.reduce of AddMove over the moves, left to right. */
  function AddMoves(data: (seq<State>, seq<Transition>, int), moves: seq<Move>): (r: (seq<State>, seq<Transition>, int))
    ensures r.2 >= data.2
    ensures forall q, x :: FindTransition(data.1, q, x).Some? ==> FindTransition(r.1, q, x) == FindTransition(data.1, q, x)
    decreases |moves|
  {
    if moves == [] then data else AddMoves(AddMove(data, moves[0]), moves[1..])
  }

  /** The automaton of a grammar: initial state 0 (non-final, no moves), next id 1,
      every move folded in; the alphabet is the set of symbols used by the moves. */
  function BuildAutomaton(grammar: Grammar): (a: Automaton)
    ensures a.initialState == 0
    ensures forall x :: x in a.alphabet <==> exists m :: m in grammar.moves && x in m.sequence
  {
    var alphabet := set m, x | m in grammar.moves && x in m.sequence :: x;
    var (states, transitions, _) := AddMoves(([State(0, false, [])], [], 1), grammar.moves);
    Automaton(states, transitions, 0, alphabet)
  }
}
