/** Small grammars on which the two key drivers are followed key by key (each
    step from the buffer the previous one left): the policy of
    src/recognition.py (shared prefixes, the dead-end restart, a move whose
    sequence extends another move's) and the growing buffer of
    src/interactive.py. Any grammar whose keys "a", "b" and "c" map to the
    symbols of the same name will do; its moves are described by their
    sequences, whatever their names and order. */
module Scenarios {
  import opened Types
  import opened Seqs
  import opened Builder
  import opened TrieLanguage
  import opened Utils
  import Recognition
  import Interactive

  /** The keys "a", "b" and "c" are mapped to the symbols of the same name. */
  predicate Buttons(grammar: Grammar) {
    && LookupKey(grammar.keyMappings, "a") == Some("a")
    && LookupKey(grammar.keyMappings, "b") == Some("b")
    && LookupKey(grammar.keyMappings, "c") == Some("c")
  }

  /** The moves of `grammar` are `x` and `y`, each present, and no other. */
  predicate MovesAre(grammar: Grammar, x: Move, y: Move) {
    x in grammar.moves && y in grammar.moves && forall m :: m in grammar.moves ==> m == x || m == y
  }

  /** The step recognised and last printed `symbols` with exactly the move `y`. */
  ghost predicate AnnouncedOnly(r: KeyStep, symbols: seq<string>, y: Move) {
    && r.recognized
    && r.printed != []
    && r.printed[|r.printed| - 1].Announce?
    && r.printed[|r.printed| - 1].symbols == symbols
    && OnlyMove(r.printed[|r.printed| - 1].moves, y)
  }

  /** `y` occurs in `moves`, and nothing else does. */
  predicate OnlyMove(moves: seq<Move>, y: Move) {
    y in moves && forall m :: m in moves ==> m == y
  }

  /** The three button names are distinct. */
  lemma ButtonsDistinct()
    ensures "a" != "b" && "a" != "c" && "b" != "c"
  {
    assert "a"[0] != "b"[0] && "a"[0] != "c"[0] && "b"[0] != "c"[0];
  }

  /** No move spells a word that no move's sequence equals. */
  lemma NoneSpell(moves: seq<Move>, w: seq<string>)
    requires forall m :: m in moves ==> m.sequence != w
    ensures MovesSpelling(moves, w) == []
  {
    assert forall i :: 0 <= i < |moves| ==> !Spells(w)(moves[i]);
    FilterDropsAll(moves, Spells(w));
  }

  /** When `y` is the only move with sequence `w`, the moves spelling `w` are `y`. */
  lemma OnlySpeller(moves: seq<Move>, w: seq<string>, y: Move)
    requires y in moves && y.sequence == w
    requires forall m :: m in moves && m.sequence == w ==> m == y
    ensures OnlyMove(MovesSpelling(moves, w), y)
  {
    MovesSpellingMembers(moves, w, y);
    forall m | m in MovesSpelling(moves, w) ensures m == y {
      MovesSpellingMembers(moves, w, m);
    }
  }

  // The branches of the key policy on the automaton of a grammar, one lemma each.

  /** The extended buffer `candidate` is spelled by `y` alone: `y` is
      announced and the buffer reset. */
  lemma Announces(key: string, symbol: string, g: Grammar, buffer: seq<string>, candidate: seq<string>, y: Move, debug: bool)
    requires LookupKey(g.keyMappings, key) == Some(symbol) && candidate == buffer + [symbol]
    requires OnlyMove(MovesSpelling(g.moves, candidate), y)
    ensures var r := Recognition.ProcessKeyInput(key, g, BuildAutomaton(g), buffer, debug);
            AnnouncedOnly(r, candidate, y) && r.buffer == []
  {
    Recognition.ProcessKeyBuilt(key, g, buffer, debug);
  }

  /** The extended buffer is a proper beginning of a move: it is kept. */
  lemma Waits(key: string, symbol: string, g: Grammar, buffer: seq<string>, m: Move, debug: bool)
    requires LookupKey(g.keyMappings, key) == Some(symbol)
    requires MovesSpelling(g.moves, buffer + [symbol]) == [] && m in g.moves && buffer + [symbol] <= m.sequence
    ensures var r := Recognition.ProcessKeyInput(key, g, BuildAutomaton(g), buffer, debug);
            !r.recognized && r.buffer == buffer + [symbol]
  {
    Recognition.ProcessKeyBuilt(key, g, buffer, debug);
  }

  /** The extended buffer leaves the trie and `y` alone spells the symbol:
      `y` is announced and the buffer reset. */
  lemma RestartAnnounces(key: string, symbol: string, g: Grammar, buffer: seq<string>, y: Move, debug: bool)
    requires LookupKey(g.keyMappings, key) == Some(symbol)
    requires MovesSpelling(g.moves, buffer + [symbol]) == []
    requires forall m :: m in g.moves ==> !(buffer + [symbol] <= m.sequence)
    requires OnlyMove(MovesSpelling(g.moves, [symbol]), y)
    ensures var r := Recognition.ProcessKeyInput(key, g, BuildAutomaton(g), buffer, debug);
            AnnouncedOnly(r, [symbol], y) && r.buffer == []
  {
    Recognition.ProcessKeyBuilt(key, g, buffer, debug);
  }

  /** From the empty buffer, a symbol that begins no move resets the driver. */
  lemma Resets(key: string, symbol: string, g: Grammar, debug: bool)
    requires LookupKey(g.keyMappings, key) == Some(symbol)
    requires forall m :: m in g.moves ==> m.sequence == [] || m.sequence[0] != symbol
    ensures var r := Recognition.ProcessKeyInput(key, g, BuildAutomaton(g), [], debug);
            !r.recognized && r.buffer == []
  {
    assert [] + [symbol] == [symbol];
    forall m | m in g.moves ensures m.sequence != [symbol] && !([symbol] <= m.sequence) {
      if m.sequence != [] {
        assert m.sequence[0] != [symbol][0];
      }
    }
    NoneSpell(g.moves, [symbol]);
    Recognition.ProcessKeyBuilt(key, g, [], debug);
  }

  /** Moves on ["a", "b"] and ["a", "c"] share the state after "a": "a" is
      kept waiting, then "c" completes the second move alone. */
  lemma SharedPrefix(g: Grammar, x: Move, y: Move, debug: bool)
    requires Buttons(g) && MovesAre(g, x, y)
    requires x.sequence == ["a", "b"] && y.sequence == ["a", "c"]
    ensures var s1 := Recognition.ProcessKeyInput("a", g, BuildAutomaton(g), [], debug);
            !s1.recognized && s1.buffer == ["a"]
    ensures var s2 := Recognition.ProcessKeyInput("c", g, BuildAutomaton(g), ["a"], debug);
            AnnouncedOnly(s2, ["a", "c"], y) && s2.buffer == []
  {
    assert [] + ["a"] == ["a"] && ["a"] + ["c"] == ["a", "c"];
    SharedPrefixSpelling(g, x, y);
    Waits("a", "a", g, [], x, debug);
    Announces("c", "c", g, ["a"], ["a", "c"], y, debug);
  }

  /** What the moves of SharedPrefix spell and begin with. */
  lemma SharedPrefixSpelling(g: Grammar, x: Move, y: Move)
    requires MovesAre(g, x, y)
    requires x.sequence == ["a", "b"] && y.sequence == ["a", "c"]
    ensures MovesSpelling(g.moves, ["a"]) == [] && ["a"] <= x.sequence
    ensures OnlyMove(MovesSpelling(g.moves, ["a", "c"]), y)
  {
    ButtonsDistinct();
    assert ["a", "b"][1] != ["a", "c"][1];
    NoneSpell(g.moves, ["a"]);
    OnlySpeller(g.moves, ["a", "c"], y);
  }

  /** Moves on ["a", "c"] and ["b"]: after "a" the key "b" leaves the trie,
      and the driver restarts from "b" alone, which is the second move. */
  lemma DeadEndRestart(g: Grammar, m1: Move, m2: Move, debug: bool)
    requires Buttons(g) && MovesAre(g, m1, m2)
    requires m1.sequence == ["a", "c"] && m2.sequence == ["b"]
    ensures var s1 := Recognition.ProcessKeyInput("a", g, BuildAutomaton(g), [], debug);
            !s1.recognized && s1.buffer == ["a"]
    ensures var s2 := Recognition.ProcessKeyInput("b", g, BuildAutomaton(g), ["a"], debug);
            AnnouncedOnly(s2, ["b"], m2) && s2.buffer == []
  {
    assert [] + ["a"] == ["a"] && ["a"] + ["b"] == ["a", "b"];
    DeadEndSpelling(g, m1, m2);
    Waits("a", "a", g, [], m1, debug);
    RestartAnnounces("b", "b", g, ["a"], m2, debug);
  }

  /** What the moves of DeadEndRestart spell and begin with. */
  lemma DeadEndSpelling(g: Grammar, m1: Move, m2: Move)
    requires MovesAre(g, m1, m2)
    requires m1.sequence == ["a", "c"] && m2.sequence == ["b"]
    ensures MovesSpelling(g.moves, ["a"]) == [] && ["a"] <= m1.sequence
    ensures MovesSpelling(g.moves, ["a", "b"]) == []
    ensures forall m :: m in g.moves ==> !(["a", "b"] <= m.sequence)
    ensures OnlyMove(MovesSpelling(g.moves, ["b"]), m2)
  {
    NoneSpell(g.moves, ["a"]);
    ButtonsDistinct();
    assert ["a", "b"][1] != m1.sequence[1];
    NoneSpell(g.moves, ["a", "b"]);
    OnlySpeller(g.moves, ["b"], m2);
  }

  /** Moves on ["a", "b", "c"] and ["b"]: after "a", "b" the buffer is still
      a prefix of the first move, so the driver keeps waiting and the second
      move, which "b" alone would complete, is not announced. */
  lemma LivePrefixNoRestart(g: Grammar, m1: Move, m2: Move, debug: bool)
    requires Buttons(g) && MovesAre(g, m1, m2)
    requires m1.sequence == ["a", "b", "c"] && m2.sequence == ["b"]
    ensures var s1 := Recognition.ProcessKeyInput("a", g, BuildAutomaton(g), [], debug);
            !s1.recognized && s1.buffer == ["a"]
    ensures var s2 := Recognition.ProcessKeyInput("b", g, BuildAutomaton(g), ["a"], debug);
            !s2.recognized && s2.buffer == ["a", "b"]
  {
    assert [] + ["a"] == ["a"] && ["a"] + ["b"] == ["a", "b"];
    LivePrefixSpelling(g, m1, m2);
    Waits("a", "a", g, [], m1, debug);
    Waits("b", "b", g, ["a"], m1, debug);
  }

  /** What the moves of LivePrefixNoRestart spell and begin with. */
  lemma LivePrefixSpelling(g: Grammar, m1: Move, m2: Move)
    requires MovesAre(g, m1, m2)
    requires m1.sequence == ["a", "b", "c"] && m2.sequence == ["b"]
    ensures MovesSpelling(g.moves, ["a"]) == [] && ["a"] <= m1.sequence
    ensures MovesSpelling(g.moves, ["a", "b"]) == [] && ["a", "b"] <= m1.sequence
  {
    NoneSpell(g.moves, ["a"]);
    NoneSpell(g.moves, ["a", "b"]);
  }

  /** Moves on ["a"] and ["a", "b"]: "a" is announced and the buffer reset,
      so the following "b" starts from nothing and the longer move is never
      announced by these keys. */
  lemma PrefixMoveShadows(g: Grammar, jab: Move, combo: Move, debug: bool)
    requires Buttons(g) && MovesAre(g, jab, combo)
    requires jab.sequence == ["a"] && combo.sequence == ["a", "b"]
    ensures var s1 := Recognition.ProcessKeyInput("a", g, BuildAutomaton(g), [], debug);
            AnnouncedOnly(s1, ["a"], jab) && s1.buffer == []
    ensures var s2 := Recognition.ProcessKeyInput("b", g, BuildAutomaton(g), [], debug);
            !s2.recognized && s2.buffer == []
  {
    assert [] + ["a"] == ["a"];
    PrefixMoveSpelling(g, jab, combo);
    Announces("a", "a", g, [], ["a"], jab, debug);
    Resets("b", "b", g, debug);
  }

  /** What the moves of PrefixMoveShadows spell and begin with. */
  lemma PrefixMoveSpelling(g: Grammar, jab: Move, combo: Move)
    requires MovesAre(g, jab, combo)
    requires jab.sequence == ["a"] && combo.sequence == ["a", "b"]
    ensures OnlyMove(MovesSpelling(g.moves, ["a"]), jab)
    ensures forall m :: m in g.moves ==> m.sequence == [] || m.sequence[0] != "b"
  {
    ButtonsDistinct();
    OnlySpeller(g.moves, ["a"], jab);
  }

  /** The symbols and announcements of the line "a", "a" when every move
      spells "a". */
  lemma DoubleTap(g: Grammar)
    requires Buttons(g) && g.moves != []
    requires forall m :: m in g.moves ==> m.sequence == ["a"]
    ensures Interactive.MappedSymbols(g.keyMappings, ["a", "a"]) == ["a", "a"]
    ensures Interactive.Announcements(g.moves, [], ["a", "a"]) == [Announce(["a"], g.moves)]
  {
    assert ["a", "a"][1..] == ["a"] && ["a"][1..] == [];
    assert [] + ["a"] == ["a"] && ["a"] + ["a"] == ["a", "a"];
    assert forall i :: 0 <= i < |g.moves| ==> Spells(["a"])(g.moves[i]);
    FilterKeepsAll(g.moves, Spells(["a"]));
    assert ["a", "a"] != ["a"];
    NoneSpell(g.moves, ["a", "a"]);
    assert Interactive.Announcements(g.moves, ["a"], ["a"]) == [] + [];
    assert [Announce(["a"], g.moves)] + [] == [Announce(["a"], g.moves)];
  }

  /** Moves all on ["a"] and the keys "a", "a": the driver of
      src/recognition.py announces them and returns to the empty buffer, so it
      announces them again at every "a"; the driver of src/interactive.py,
      given the same two keys as one line, announces them once and ends
      holding the dead buffer ["a", "a"]. */
  lemma RepeatedKey(g: Grammar, jab: Move, debug: bool)
    requires Buttons(g) && jab in g.moves
    requires forall m :: m in g.moves ==> m == jab
    requires jab.sequence == ["a"]
    ensures var s := Recognition.ProcessKeyInput("a", g, BuildAutomaton(g), [], debug);
            AnnouncedOnly(s, ["a"], jab) && s.buffer == []
    ensures Interactive.ProcessLine(g, BuildAutomaton(g), ["a", "a"]) == (["a", "a"], [Announce(["a"], g.moves)])
  {
    assert [] + ["a"] == ["a"];
    OnlySpeller(g.moves, ["a"], jab);
    Announces("a", "a", g, [], ["a"], jab, debug);
    DoubleTap(g);
    Interactive.ProcessLineBuilt(g, ["a", "a"]);
  }
}
