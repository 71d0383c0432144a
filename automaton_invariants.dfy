/** What the builder of src/automaton.py keeps true while it folds moves in:
    state ids are unique and gap-free from 0, δ is deterministic, every
    transition joins two existing states, every non-root state has exactly one
    incoming transition (the trie shape), and every state carries exactly the
    moves, in declaration order, whose sequence leads to it. */
module BuilderInvariants {
  import opened Types
  import opened Seqs
  import opened Builder

  /** No two states share an id. */
  ghost predicate UniqueIds(states: seq<State>) {
    forall i, j :: 0 <= i < j < |states| ==> states[i].id != states[j].id
  }

  /** The invariant of (states, transitions, next id) during construction. */
  ghost predicate Valid(states: seq<State>, transitions: seq<Transition>, nextId: int) {
    && 1 <= nextId
    && |states| == nextId
    && |transitions| == nextId - 1
    && UniqueIds(states)
    && (forall i :: 0 <= i < |states| ==> 0 <= states[i].id < nextId)
    && (forall k :: 0 <= k < nextId ==> FindState(states, k).Some?)
    && (forall i, j :: 0 <= i < j < |transitions| ==>
          !HasKey(transitions[j], transitions[i].source, transitions[i].symbol))
    && (forall i, j :: 0 <= i < j < |transitions| ==> transitions[i].target != transitions[j].target)
    && (forall i :: 0 <= i < |transitions| ==>
          0 <= transitions[i].source < transitions[i].target < nextId)
  }

  /** The states created by one call of build_path_recursive: ids from `from`
      on, consecutive, each non-final and without moves. */
  function FreshStates(from: int, count: nat): seq<State>
    decreases count
  {
    if count == 0 then [] else [State(from, false, [])] + FreshStates(from + 1, count - 1)
  }

  lemma {:induction false} FreshStatesMembers(from: int, count: nat, s: State)
    requires s in FreshStates(from, count)
    ensures s == State(s.id, false, []) && from <= s.id < from + count
    decreases count
  {
    if count > 0 && s != State(from, false, []) {
      FreshStatesMembers(from + 1, count - 1, s);
    }
  }

  lemma FreshStatesCons(states: seq<State>, from: int, count: nat)
    ensures states + [State(from, false, [])] + FreshStates(from + 1, count) == states + FreshStates(from, count + 1)
  {
  }

  /** The automaton before any move is added: state 0 alone, non-final. */
  lemma ValidInitial()
    ensures Valid([State(0, false, [])], [], 1)
  {
    assert FindState([State(0, false, [])], 0).Some?;
  }

  /** One fresh state with the next id, and one new transition into it, keep the invariant. */
  lemma ValidExtend(states: seq<State>, transitions: seq<Transition>, nextId: int, current: int, symbol: string)
    requires Valid(states, transitions, nextId)
    requires 0 <= current < nextId
    requires FindTransition(transitions, current, symbol).None?
    ensures Valid(states + [State(nextId, false, [])], transitions + [Transition(current, symbol, nextId)], nextId + 1)
  {
    var s' := states + [State(nextId, false, [])];
    var t' := transitions + [Transition(current, symbol, nextId)];
    forall k | 0 <= k < nextId + 1 ensures FindState(s', k).Some? {
      FindStateAppend(states, [State(nextId, false, [])], k);
    }
    assert UniqueIds(s') by {
      forall i, j | 0 <= i < j < |s'| ensures s'[i].id != s'[j].id {
        if j == |states| { assert s'[i] == states[i]; }
      }
    }
  }

  lemma UniqueDrop(a: seq<State>, m: State, b: seq<State>)
    requires UniqueIds(a + [m] + b)
    ensures UniqueIds(a + b)
  {
    var x, y := a + [m] + b, a + b;
    forall p, q | 0 <= p < q < |y| ensures y[p].id != y[q].id {
      assert y[p] == x[if p < |a| then p else p + 1];
      assert y[q] == x[if q < |a| then q else q + 1];
    }
  }

  lemma UniqueSnoc(states: seq<State>, s: State)
    requires UniqueIds(states)
    requires forall p :: 0 <= p < |states| ==> states[p].id != s.id
    ensures UniqueIds(states + [s])
  {
    var x := states + [s];
    forall p, q | 0 <= p < q < |x| ensures x[p].id != x[q].id {
      assert x[p] == states[p];
    }
  }

  /** A sequence is its part before index i, its element at i, and its part after. */
  lemma SplitAround<T>(s: seq<T>, i: nat)
    requires i < |s|
    ensures s == s[..i] + [s[i]] + s[i + 1..]
  {
  }

  /** Replacing one existing state (as add_move_to_automaton does with the end
      state of a path) keeps the invariant. */
  lemma ValidReplace(states: seq<State>, transitions: seq<Transition>, nextId: int, s: State)
    requires Valid(states, transitions, nextId)
    requires 0 <= s.id < nextId
    ensures Valid(AddState(states, s), transitions, nextId)
  {
    var i := FindStateFirst(states, s.id);
    var a, b := states[..i], states[i + 1..];
    SplitAround(states, i);
    forall p | 0 <= p < |a| ensures a[p].id != s.id { assert a[p] == states[p]; }
    forall p | 0 <= p < |b| ensures b[p].id != s.id { assert b[p] == states[i + 1 + p]; }
    AddStateReplaces(a, states[i], b, s);
    UniqueDrop(a, states[i], b);
    var ab := a + b;
    forall p | 0 <= p < |ab| ensures ab[p].id != s.id && 0 <= ab[p].id < nextId {
      assert ab[p] == states[if p < |a| then p else p + 1];
    }
    UniqueSnoc(ab, s);
    forall k | 0 <= k < nextId ensures FindState(ab + [s], k).Some? {
      FindStateAfterAdd(states, s, k);
    }
  }

  /** Every live walk from an existing state ends at an existing state. */
  lemma {:induction false} RunInRange(transitions: seq<Transition>, nextId: int, q: int, w: seq<string>)
    requires forall i :: 0 <= i < |transitions| ==> 0 <= transitions[i].target < nextId
    requires 0 <= q < nextId
    requires Run(transitions, q, w).Some?
    ensures 0 <= Run(transitions, q, w).value < nextId
    decreases |w|
  {
    if w != [] {
      var i := FindTransitionFirst(transitions, q, w[0]);
      RunInRange(transitions, nextId, FindTransition(transitions, q, w[0]).value, w[1..]);
    }
  }

  /** The part of the invariant that fixes the shape of what build_path_recursive
      appends: ids and transition ends below the next id. */
  ghost predicate Bounded(states: seq<State>, transitions: seq<Transition>, nextId: int) {
    && (forall i :: 0 <= i < |states| ==> states[i].id < nextId)
    && (forall i :: 0 <= i < |transitions| ==> transitions[i].source < nextId && 0 <= transitions[i].target < nextId)
  }

  /** What one call of build_path_recursive leaves behind, for the table
      (`states`, next id `nextId`) it was given and its result `r`: the
      fresh states nextId, nextId + 1, ... appended, and the returned state the
      last of them when any was created. */
  ghost predicate Shaped(states: seq<State>, nextId: int, r: (int, seq<State>, seq<Transition>, int)) {
    && Bounded(r.1, r.2, r.3)
    && nextId <= r.3
    && r.1 == states + FreshStates(nextId, r.3 - nextId)
    && 0 <= r.0 < r.3
    && (r.3 > nextId ==> r.0 == r.3 - 1)
  }

  /** Creating the state nextId first, then the rest of the path, has the shape of the whole path. */
  lemma ShapedStep(states: seq<State>, nextId: int, r: (int, seq<State>, seq<Transition>, int))
    requires Shaped(states + [State(nextId, false, [])], nextId + 1, r)
    requires r.3 > nextId + 1 || r.0 == nextId
    ensures Shaped(states, nextId, r)
  {
    FreshStatesCons(states, nextId, r.3 - nextId - 1);
  }

  /** A fresh state with the next id, and a transition into it from an
      existing state, keep the table bounded by the following id. */
  lemma BoundedExtend(states: seq<State>, transitions: seq<Transition>, nextId: int, current: int, symbol: string)
    requires Bounded(states, transitions, nextId)
    requires 0 <= current < nextId
    ensures Bounded(states + [State(nextId, false, [])], transitions + [Transition(current, symbol, nextId)], nextId + 1)
  {
  }

  /** Continuing a path from the state just created either creates more
      states or stops at that state: no transition leaves it yet. */
  lemma FreshPathStart(rest: seq<string>, current: int, symbol: string, states: seq<State>,
                       transitions: seq<Transition>, nextId: int)
    requires Bounded(states, transitions, nextId)
    requires current < nextId
    ensures var r := BuildPath(rest, nextId, states + [State(nextId, false, [])],
                               transitions + [Transition(current, symbol, nextId)], nextId + 1);
            r.3 > nextId + 1 || r.0 == nextId
  {
    var transitions' := transitions + [Transition(current, symbol, nextId)];
    if rest != [] {
      assert forall i :: 0 <= i < |transitions'| ==> !HasKey(transitions'[i], nextId, rest[0]);
    }
  }

  /** build_path_recursive appends exactly the fresh states nextId, nextId + 1, ...
      and returns the last of them when it created any. */
  lemma {:induction false} BuildPathShape(sequence: seq<string>, current: int, states: seq<State>,
                                          transitions: seq<Transition>, nextId: int)
    requires Bounded(states, transitions, nextId)
    requires 0 <= current < nextId
    ensures Shaped(states, nextId, BuildPath(sequence, current, states, transitions, nextId))
    decreases |sequence|
  {
    if sequence == [] {
      assert states + FreshStates(nextId, 0) == states;
    } else {
      var symbol, rest := sequence[0], sequence[1..];
      match FindTransition(transitions, current, symbol)
      case Some(existing) =>
        var i := FindTransitionFirst(transitions, current, symbol);
        BuildPathShape(rest, existing, states, transitions, nextId);
      case None =>
        var states' := states + [State(nextId, false, [])];
        var transitions' := transitions + [Transition(current, symbol, nextId)];
        BoundedExtend(states, transitions, nextId, current, symbol);
        BuildPathShape(rest, nextId, states', transitions', nextId + 1);
        var r := BuildPath(rest, nextId, states', transitions', nextId + 1);
        FreshPathStart(rest, current, symbol, states, transitions, nextId);
        ShapedStep(states, nextId, r);
        BuildPathFreshStep(sequence, current, states, transitions, nextId);
    }
  }

  /** build_path_recursive keeps the invariant. */
  lemma {:induction false} BuildPathValid(sequence: seq<string>, current: int, states: seq<State>,
                                          transitions: seq<Transition>, nextId: int)
    requires Valid(states, transitions, nextId)
    requires 0 <= current < nextId
    ensures var r := BuildPath(sequence, current, states, transitions, nextId);
            Valid(r.1, r.2, r.3)
    decreases |sequence|
  {
    if sequence != [] {
      var symbol, rest := sequence[0], sequence[1..];
      match FindTransition(transitions, current, symbol)
      case Some(existing) =>
        var i := FindTransitionFirst(transitions, current, symbol);
        BuildPathValid(rest, existing, states, transitions, nextId);
      case None =>
        BuildPathFreshStep(sequence, current, states, transitions, nextId);
        ValidExtend(states, transitions, nextId, current, symbol);
        BuildPathValid(rest, nextId, states + [State(nextId, false, [])],
                       transitions + [Transition(current, symbol, nextId)], nextId + 1);
    }
  }

  /** The step of build_path_recursive at a symbol without a transition: the
      fresh state and the transition into it are appended. */
  lemma BuildPathFreshStep(sequence: seq<string>, current: int, states: seq<State>,
                           transitions: seq<Transition>, nextId: int)
    requires forall i :: 0 <= i < |states| ==> states[i].id < nextId
    requires sequence != [] && FindTransition(transitions, current, sequence[0]).None?
    ensures BuildPath(sequence, current, states, transitions, nextId) ==
            BuildPath(sequence[1..], nextId, states + [State(nextId, false, [])],
                      transitions + [Transition(current, sequence[0], nextId)], nextId + 1)
  {
    AddStateFresh(states, State(nextId, false, []));
    AddTransitionFresh(transitions, current, sequence[0], nextId);
  }

  // ---------------------------------------------------------------------------
  // The moves carried by each state
  // ---------------------------------------------------------------------------

  /** Does move `m`'s sequence lead from state 0 to state `q`? */
  function Reaches(transitions: seq<Transition>, q: int): Move -> bool {
    (m: Move) => Run(transitions, 0, m.sequence) == Some(q)
  }

  /** The moves among `moves`, in order, whose sequence leads from state 0 to `q`. */
  function MovesReaching(moves: seq<Move>, transitions: seq<Transition>, q: int): seq<Move> {
    Filter(moves, Reaches(transitions, q))
  }

  lemma MovesReachingSnoc(moves: seq<Move>, m: Move, transitions: seq<Transition>, q: int)
    ensures MovesReaching(moves + [m], transitions, q) ==
            MovesReaching(moves, transitions, q) + (if Run(transitions, 0, m.sequence) == Some(q) then [m] else [])
  {
    FilterAppend(moves, [m], Reaches(transitions, q));
    assert [m][1..] == [];
  }

  /** Moves whose walks a later table preserves reach the same states there. */
  lemma MovesReachingStable(moves: seq<Move>, prior: seq<Transition>, later: seq<Transition>, q: int)
    requires forall p, x :: FindTransition(prior, p, x).Some? ==> FindTransition(later, p, x) == FindTransition(prior, p, x)
    requires forall m :: m in moves ==> Run(prior, 0, m.sequence).Some?
    ensures MovesReaching(moves, later, q) == MovesReaching(moves, prior, q)
  {
    forall i | 0 <= i < |moves| ensures Reaches(later, q)(moves[i]) == Reaches(prior, q)(moves[i]) {
      RunPreserved(prior, later, 0, moves[i].sequence);
    }
    FilterCongruent(moves, Reaches(later, q), Reaches(prior, q));
  }

  /** The invariant of the fold: (states, transitions, next id) is valid after
      adding the moves `done`, every state carries exactly the moves of `done`
      whose sequence leads to it, it is final exactly when it carries one, and
      every move of `done` has its path. */
  ghost predicate Built(data: (seq<State>, seq<Transition>, int), done: seq<Move>) {
    && Valid(data.0, data.1, data.2)
    && (forall s :: s in data.0 ==> s.moves == MovesReaching(done, data.1, s.id) && s.isFinal == (s.moves != []))
    && (forall m :: m in done ==> Run(data.1, 0, m.sequence).Some?)
  }

  lemma BuiltInitial()
    ensures Built(([State(0, false, [])], [], 1), [])
  {
    ValidInitial();
  }

  /** After build_path_recursive, before the end state is marked, the fold's
      invariant still holds for the moves already added. */
  lemma BuiltAfterPath(data: (seq<State>, seq<Transition>, int), done: seq<Move>, sequence: seq<string>)
    requires Built(data, done)
    ensures var r := BuildPath(sequence, 0, data.0, data.1, data.2);
            Built((r.1, r.2, r.3), done)
  {
    var (states, transitions, nextId) := data;
    var r := BuildPath(sequence, 0, states, transitions, nextId);
    BuildPathValid(sequence, 0, states, transitions, nextId);
    BuildPathShape(sequence, 0, states, transitions, nextId);
    BuildPathKeeps(sequence, 0, states, transitions, nextId);
    forall m | m in done ensures Run(r.2, 0, m.sequence) == Run(transitions, 0, m.sequence) {
      RunPreserved(transitions, r.2, 0, m.sequence);
    }
    forall s | s in r.1 ensures s.moves == MovesReaching(done, r.2, s.id) && s.isFinal == (s.moves != []) {
      MovesReachingStable(done, transitions, r.2, s.id);
      if s !in states {
        FreshStatesMembers(nextId, r.3 - nextId, s);
        forall i | 0 <= i < |done| ensures !Reaches(transitions, s.id)(done[i]) {
          assert done[i] in done;
          RunInRange(transitions, nextId, 0, done[i].sequence);
        }
        FilterDropsAll(done, Reaches(transitions, s.id));
      }
    }
  }

  /** Marking the end state `f` of a new move's walk final, with the move
      appended to what it carries, extends the fold's invariant to that move. */
  lemma MarkEndKeepsBuilt(data: (seq<State>, seq<Transition>, int), done: seq<Move>, move: Move, f: int)
    requires Built(data, done)
    requires Run(data.1, 0, move.sequence) == Some(f)
    requires 0 <= f < data.2
    ensures var updated := State(f, true, FindState(data.0, f).value.moves + [move]);
            Built((AddState(data.0, updated), data.1, data.2), done + [move])
  {
    var (states, transitions, nextId) := data;
    var prior := FindState(states, f).value;
    var at := FindStateFirst(states, f);
    var updated := State(f, true, prior.moves + [move]);
    var states' := AddState(states, updated);
    ValidReplace(states, transitions, nextId, updated);
    MovesReachingSnoc(done, move, transitions, f);
    forall s | s in states'
      ensures s.moves == MovesReaching(done + [move], transitions, s.id) && s.isFinal == (s.moves != [])
    {
      MovesReachingSnoc(done, move, transitions, s.id);
      if s != updated {
        assert s in Filter(states, OtherId(f));
        FilterMembers(states, OtherId(f), s);
      }
    }
  }

  /** add_move_to_automaton keeps the fold's invariant: the end state of the new
      move's path now carries its previous moves followed by the new move, every
      other state is unchanged in what it carries, and every walk that was live
      is unchanged. */
  lemma AddMoveKeepsBuilt(data: (seq<State>, seq<Transition>, int), done: seq<Move>, move: Move)
    requires Built(data, done)
    ensures Built(AddMove(data, move), done + [move])
    ensures forall w :: Run(data.1, 0, w).Some? ==> Run(AddMove(data, move).1, 0, w) == Run(data.1, 0, w)
  {
    var r := BuildPath(move.sequence, 0, data.0, data.1, data.2);
    BuiltAfterPath(data, done, move.sequence);
    BuildPathReaches(move.sequence, 0, data.0, data.1, data.2);
    BuildPathShape(move.sequence, 0, data.0, data.1, data.2);
    MarkEndKeepsBuilt((r.1, r.2, r.3), done, move, r.0);
    BuildPathKeeps(move.sequence, 0, data.0, data.1, data.2);
    forall w | Run(data.1, 0, w).Some? ensures Run(r.2, 0, w) == Run(data.1, 0, w) {
      RunPreserved(data.1, r.2, 0, w);
    }
  }

  /** The whole fold keeps the invariant. */
  lemma {:induction false} AddMovesKeepsBuilt(data: (seq<State>, seq<Transition>, int), done: seq<Move>, rest: seq<Move>)
    requires Built(data, done)
    ensures Built(AddMoves(data, rest), done + rest)
    decreases |rest|
  {
    if rest == [] {
      assert done + rest == done;
    } else {
      var next := AddMove(data, rest[0]);
      AddMoveKeepsBuilt(data, done, rest[0]);
      AddMovesKeepsBuilt(next, done + [rest[0]], rest[1..]);
      assert AddMoves(data, rest) == AddMoves(next, rest[1..]);
      SnocThenRest(done, rest);
    }
  }

  lemma SnocThenRest(done: seq<Move>, rest: seq<Move>)
    requires rest != []
    ensures done + [rest[0]] + rest[1..] == done + rest
  {
    assert rest == [rest[0]] + rest[1..];
  }

  /** An automaton the builder can produce: initial state 0 and the invariant with next id |states|. */
  ghost predicate WellFormed(a: Automaton) {
    a.initialState == 0 && Valid(a.states, a.transitions, |a.states|)
  }

  /** build_automaton yields a well-formed trie whose states carry exactly the
      moves, in grammar order, whose sequences lead to them. */
  lemma BuildAutomatonBuilt(grammar: Grammar)
    ensures var a := BuildAutomaton(grammar);
      && WellFormed(a)
      && (forall s :: s in a.states ==>
            s.moves == MovesReaching(grammar.moves, a.transitions, s.id) && s.isFinal == (s.moves != []))
      && (forall m :: m in grammar.moves ==> Run(a.transitions, 0, m.sequence).Some?)
  {
    BuiltInitial();
    AddMovesKeepsBuilt(([State(0, false, [])], [], 1), [], grammar.moves);
    assert [] + grammar.moves == grammar.moves;
  }
}
