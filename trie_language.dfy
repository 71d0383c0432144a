/** What the automaton built by src/automaton.py recognises, stated in the
    grammar's own terms: a walk from state 0 is live exactly on the prefixes of
    the moves' sequences, different live words reach different states, and the
    state a word reaches carries exactly the moves spelled by that word, in the
    order of the grammar. */
module TrieLanguage {
  import opened Types
  import opened Seqs
  import opened Builder
  import opened BuilderInvariants

  /** The trie shape of a transition table: every entry goes from a lower
      id to a higher one, and no two entries enter the same state. */
  ghost predicate TrieShaped(transitions: seq<Transition>) {
    && (forall i :: 0 <= i < |transitions| ==> 0 <= transitions[i].source < transitions[i].target)
    && (forall i, j :: 0 <= i < j < |transitions| ==> transitions[i].target != transitions[j].target)
  }

  /** A non-empty walk from state 0 never ends in state 0. */
  lemma RunLeavesRoot(transitions: seq<Transition>, w: seq<string>)
    requires TrieShaped(transitions)
    requires w != [] && Run(transitions, 0, w).Some?
    ensures Run(transitions, 0, w).value >= 1
  {
    var v, x := w[..|w| - 1], w[|w| - 1];
    assert v + [x] == w;
    RunSnoc(transitions, 0, v, x);
    var p := Run(transitions, 0, v).value;
    var i := FindTransitionFirst(transitions, p, x);
  }

  /** In a trie, two words that lead from state 0 to the same state are equal. */
  lemma {:induction false} RunInjective(transitions: seq<Transition>, w: seq<string>, v: seq<string>)
    requires TrieShaped(transitions)
    requires Run(transitions, 0, w).Some? && Run(transitions, 0, w) == Run(transitions, 0, v)
    ensures w == v
    decreases |w| + |v|
  {
    if w == [] && v != [] {
      RunLeavesRoot(transitions, v);
    } else if w != [] && v == [] {
      RunLeavesRoot(transitions, w);
    } else if w != [] {
      var w', x := w[..|w| - 1], w[|w| - 1];
      var v', y := v[..|v| - 1], v[|v| - 1];
      assert w' + [x] == w && v' + [y] == v;
      RunSnoc(transitions, 0, w', x);
      RunSnoc(transitions, 0, v', y);
      var p, p' := Run(transitions, 0, w').value, Run(transitions, 0, v').value;
      var i := FindTransitionFirst(transitions, p, x);
      var j := FindTransitionFirst(transitions, p', y);
      assert i == j;
      RunInjective(transitions, w', v');
    }
  }

  /** Valid tables are tries. */
  lemma ValidIsTrie(states: seq<State>, transitions: seq<Transition>, nextId: int)
    requires Valid(states, transitions, nextId)
    ensures TrieShaped(transitions)
  {
  }

  /** Appending an entry with a new key keeps every value δ had. */
  lemma AppendKeeps(transitions: seq<Transition>, t: Transition)
    requires FindTransition(transitions, t.source, t.symbol).None?
    ensures forall p, x :: FindTransition(transitions, p, x).Some? ==>
              FindTransition(transitions + [t], p, x) == FindTransition(transitions, p, x)
  {
    FindTransitionAfterAdd(transitions, t.source, t.symbol, t.target);
    AddTransitionFresh(transitions, t.source, t.symbol, t.target);
  }

  /** Appending one entry from `current` into the fresh state nextId, which
      nothing leaves, makes exactly one more word live: u + [x], where u is the
      word that reaches `current`. */
  lemma {:induction false} FreshWalk(transitions: seq<Transition>, nextId: int, u: seq<string>, current: int,
                                     x: string, w: seq<string>)
    requires TrieShaped(transitions)
    requires forall i :: 0 <= i < |transitions| ==> transitions[i].source < nextId
    requires Run(transitions, 0, u) == Some(current) && current < nextId
    requires FindTransition(transitions, current, x).None?
    requires Run(transitions + [Transition(current, x, nextId)], 0, w).Some?
    ensures Run(transitions, 0, w).Some? || w == u + [x]
    decreases |w|
  {
    var later := transitions + [Transition(current, x, nextId)];
    if w != [] {
      var v, y := w[..|w| - 1], w[|w| - 1];
      assert v + [y] == w;
      RunSnoc(later, 0, v, y);
      RunPrefix(later, 0, w, |w| - 1);
      assert w[..|w| - 1] == v;
      FreshWalk(transitions, nextId, u, current, x, v);
      var p := Run(later, 0, v).value;
      FindTransitionAppend(transitions, [Transition(current, x, nextId)], p, y);
      AppendKeeps(transitions, Transition(current, x, nextId));
      if v == u + [x] {
        RunSnoc(later, 0, u, x);
        FindTransitionAppend(transitions, [Transition(current, x, nextId)], current, x);
        RunPreserved(transitions, later, 0, u);
        assert false;
      } else {
        FindTransitionAfterAdd(transitions, current, x, nextId);
        AddTransitionFresh(transitions, current, x, nextId);
        RunPreserved(transitions, later, 0, v);
        RunSnoc(transitions, 0, v, y);
        if p == current && y == x {
          RunInjective(transitions, v, u);
        }
      }
    }
  }

  /** Every word live after build_path_recursive walked `sequence` from the
      state that `u` reaches was live before, or is a prefix of u + sequence. */
  lemma {:induction false} BuildPathWalk(sequence: seq<string>, current: int, states: seq<State>,
                                         transitions: seq<Transition>, nextId: int, u: seq<string>, w: seq<string>)
    requires Valid(states, transitions, nextId)
    requires Run(transitions, 0, u) == Some(current) && 0 <= current < nextId
    requires Run(BuildPath(sequence, current, states, transitions, nextId).2, 0, w).Some?
    ensures Run(transitions, 0, w).Some? || w <= u + sequence
    decreases |sequence|, 1
  {
    if sequence != [] {
      var x, rest := sequence[0], sequence[1..];
      FirstStepPrefix(u, sequence);
      RunSnoc(transitions, 0, u, x);
      match FindTransition(transitions, current, x)
      case Some(existing) =>
        RunInRange(transitions, nextId, 0, u + [x]);
        BuildPathWalk(rest, existing, states, transitions, nextId, u + [x], w);
      case None =>
        BuildPathWalkFresh(sequence, current, states, transitions, nextId, u, w);
    }
  }

  /** The first step of build_path_recursive when the symbol has no
      transition yet: it yields states and transitions that keep the
      invariant, where u + [x] reaches the fresh state, from which the rest of
      the path is built, and where the only new live word is u + [x]. */
  lemma FreshStep(sequence: seq<string>, current: int, states: seq<State>,
                  transitions: seq<Transition>, nextId: int, u: seq<string>)
    returns (states': seq<State>, transitions': seq<Transition>)
    requires Valid(states, transitions, nextId)
    requires Run(transitions, 0, u) == Some(current) && 0 <= current < nextId
    requires sequence != [] && FindTransition(transitions, current, sequence[0]).None?
    ensures Valid(states', transitions', nextId + 1)
    ensures Run(transitions', 0, u + [sequence[0]]) == Some(nextId)
    ensures BuildPath(sequence, current, states, transitions, nextId) ==
            BuildPath(sequence[1..], nextId, states', transitions', nextId + 1)
    ensures forall w :: Run(transitions', 0, w).Some? ==> Run(transitions, 0, w).Some? || w == u + [sequence[0]]
  {
    var x := sequence[0];
    states' := states + [State(nextId, false, [])];
    transitions' := transitions + [Transition(current, x, nextId)];
    ValidExtend(states, transitions, nextId, current, x);
    AppendKeeps(transitions, Transition(current, x, nextId));
    RunPreserved(transitions, transitions', 0, u);
    RunSnoc(transitions', 0, u, x);
    FindTransitionAppend(transitions, [Transition(current, x, nextId)], current, x);
    BuildPathFreshStep(sequence, current, states, transitions, nextId);
    forall w | Run(transitions', 0, w).Some? ensures Run(transitions, 0, w).Some? || w == u + [x] {
      FreshWalk(transitions, nextId, u, current, x, w);
    }
  }

  /** BuildPathWalk where the first symbol creates a fresh state. */
  lemma {:induction false} BuildPathWalkFresh(sequence: seq<string>, current: int, states: seq<State>,
                                              transitions: seq<Transition>, nextId: int, u: seq<string>, w: seq<string>)
    requires Valid(states, transitions, nextId)
    requires Run(transitions, 0, u) == Some(current) && 0 <= current < nextId
    requires sequence != [] && FindTransition(transitions, current, sequence[0]).None?
    requires Run(BuildPath(sequence, current, states, transitions, nextId).2, 0, w).Some?
    ensures Run(transitions, 0, w).Some? || w <= u + sequence
    decreases |sequence|, 0
  {
    var x, rest := sequence[0], sequence[1..];
    var states', transitions' := FreshStep(sequence, current, states, transitions, nextId, u);
    BuildPathWalk(rest, nextId, states', transitions', nextId + 1, u + [x], w);
    FirstStepPrefix(u, sequence);
  }

  /** u extended by the first symbol of a sequence, and by the rest of it. */
  lemma FirstStepPrefix(u: seq<string>, sequence: seq<string>)
    requires sequence != []
    ensures u + [sequence[0]] + sequence[1..] == u + sequence
    ensures u + [sequence[0]] <= u + sequence
  {
    assert u + [sequence[0]] + sequence[1..] == u + sequence;
  }

  /** Every live word is empty or a prefix of the sequence of a move in `done`. */
  ghost predicate LiveArePrefixes(transitions: seq<Transition>, done: seq<Move>) {
    forall w :: Run(transitions, 0, w).Some? ==> w == [] || exists m :: m in done && w <= m.sequence
  }

  /** add_move_to_automaton makes live only prefixes of the new move's sequence. */
  lemma AddMoveLive(data: (seq<State>, seq<Transition>, int), done: seq<Move>, move: Move)
    requires Built(data, done) && LiveArePrefixes(data.1, done)
    ensures LiveArePrefixes(AddMove(data, move).1, done + [move])
  {
    var r := BuildPath(move.sequence, 0, data.0, data.1, data.2);
    assert AddMove(data, move).1 == r.2;
    forall w | Run(r.2, 0, w).Some? ensures w == [] || exists m :: m in done + [move] && w <= m.sequence {
      BuildPathWalk(move.sequence, 0, data.0, data.1, data.2, [], w);
      assert [] + move.sequence == move.sequence;
      if Run(data.1, 0, w).Some? && w != [] {
        var m :| m in done && w <= m.sequence;
        assert m in done + [move];
      } else {
        assert move in done + [move];
      }
    }
  }

  /** The whole fold keeps both invariants. */
  lemma {:induction false} AddMovesLive(data: (seq<State>, seq<Transition>, int), done: seq<Move>, rest: seq<Move>)
    requires Built(data, done) && LiveArePrefixes(data.1, done)
    ensures LiveArePrefixes(AddMoves(data, rest).1, done + rest)
    decreases |rest|
  {
    if rest == [] {
      assert done + rest == done;
    } else {
      var next := AddMove(data, rest[0]);
      AddMoveKeepsBuilt(data, done, rest[0]);
      AddMoveLive(data, done, rest[0]);
      AddMovesLive(next, done + [rest[0]], rest[1..]);
      assert AddMoves(data, rest) == AddMoves(next, rest[1..]);
      SnocThenRest(done, rest);
    }
  }

  /** A word is live in the automaton of a grammar exactly when it is empty or
      a prefix of the sequence of one of the grammar's moves. */
  lemma BuildAutomatonLive(grammar: Grammar, w: seq<string>)
    ensures Run(BuildAutomaton(grammar).transitions, 0, w).Some? <==>
            w == [] || exists m :: m in grammar.moves && w <= m.sequence
  {
    if Run(BuildAutomaton(grammar).transitions, 0, w).Some? {
      BuildAutomatonLiveOnlyPrefixes(grammar);
    }
    if exists m :: m in grammar.moves && w <= m.sequence {
      var m :| m in grammar.moves && w <= m.sequence;
      BuildAutomatonPrefixLive(grammar, m, w);
    }
  }

  lemma BuildAutomatonLiveOnlyPrefixes(grammar: Grammar)
    ensures LiveArePrefixes(BuildAutomaton(grammar).transitions, grammar.moves)
  {
    BuiltInitial();
    AddMovesLive(([State(0, false, [])], [], 1), [], grammar.moves);
    assert [] + grammar.moves == grammar.moves;
  }

  lemma BuildAutomatonPrefixLive(grammar: Grammar, m: Move, w: seq<string>)
    requires m in grammar.moves && w <= m.sequence
    ensures Run(BuildAutomaton(grammar).transitions, 0, w).Some?
  {
    BuildAutomatonBuilt(grammar);
    RunPrefix(BuildAutomaton(grammar).transitions, 0, m.sequence, |w|);
    assert m.sequence[..|w|] == w;
  }

  /** Does the move spell exactly the word `w`? */
  function Spells(w: seq<string>): Move -> bool {
    (m: Move) => m.sequence == w
  }

  /** The grammar's moves whose sequence is `w`, in grammar order. */
  function MovesSpelling(moves: seq<Move>, w: seq<string>): seq<Move> {
    Filter(moves, Spells(w))
  }

  /** A move is among the moves spelling `w` exactly when it is a move of the
      grammar with sequence `w`. */
  lemma MovesSpellingMembers(moves: seq<Move>, w: seq<string>, m: Move)
    ensures m in MovesSpelling(moves, w) <==> m in moves && m.sequence == w
  {
    FilterMembers(moves, Spells(w), m);
  }

  /** The state that a live word reaches in the automaton of a grammar exists,
      carries exactly the moves spelling the word, in grammar order, and is final
      exactly when there is one; a word that is not live is spelled by no move. */
  lemma BuildAutomatonMoves(grammar: Grammar, w: seq<string>)
    ensures var a := BuildAutomaton(grammar);
      match Run(a.transitions, 0, w)
      case None => MovesSpelling(grammar.moves, w) == []
      case Some(q) =>
        && 0 <= q < |a.states|
        && FindState(a.states, q).Some?
        && FindState(a.states, q).value.moves == MovesSpelling(grammar.moves, w)
        && FindState(a.states, q).value.isFinal == (MovesSpelling(grammar.moves, w) != [])
  {
    var a := BuildAutomaton(grammar);
    BuildAutomatonBuilt(grammar);
    ValidIsTrie(a.states, a.transitions, |a.states|);
    match Run(a.transitions, 0, w)
    case None =>
      forall i | 0 <= i < |grammar.moves| ensures !Spells(w)(grammar.moves[i]) {
        assert grammar.moves[i] in grammar.moves;
      }
      FilterDropsAll(grammar.moves, Spells(w));
    case Some(q) =>
      RunInRange(a.transitions, |a.states|, 0, w);
      var at := FindStateFirst(a.states, q);
      assert a.states[at] in a.states;
      forall i | 0 <= i < |grammar.moves|
        ensures Reaches(a.transitions, q)(grammar.moves[i]) == Spells(w)(grammar.moves[i])
      {
        if Run(a.transitions, 0, grammar.moves[i].sequence) == Some(q) {
          RunInjective(a.transitions, grammar.moves[i].sequence, w);
        }
      }
      FilterCongruent(grammar.moves, Reaches(a.transitions, q), Spells(w));
  }

  /** The initial state of the automaton of a grammar is final exactly when
      some move has the empty sequence. */
  lemma BuildAutomatonInitialFinal(grammar: Grammar)
    ensures var a := BuildAutomaton(grammar);
      FindState(a.states, a.initialState).Some? &&
      (FindState(a.states, a.initialState).value.isFinal <==> exists m :: m in grammar.moves && m.sequence == [])
  {
    BuildAutomatonMoves(grammar, []);
    var F := MovesSpelling(grammar.moves, []);
    if F != [] {
      MovesSpellingMembers(grammar.moves, [], F[0]);
    }
    if exists m :: m in grammar.moves && m.sequence == [] {
      var m :| m in grammar.moves && m.sequence == [];
      MovesSpellingMembers(grammar.moves, [], m);
    }
  }
}
