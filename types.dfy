/** The records of the recogniser (src/types.py): symbols, moves, grammars,
    automaton states, transitions and automata, all immutable values.
    Also the values the key driver prints, which this model returns
    instead of writing them to the console. */
module Types {

  datatype Option<+T> = None | Some(value: T)

  /** An alphabet entry: a token, its category and a human-readable description. */
  datatype Symbol = Symbol(token: string, symType: string, description: string)

  /** A move: the symbol tokens to type, the move's name and the character it belongs to. */
  datatype Move = Move(sequence: seq<string>, name: string, character: string)

  /** A parsed grammar: alphabet entries keyed by token, (key, symbol) mappings and moves. */
  datatype Grammar = Grammar(
    alphabet: seq<(string, Symbol)>,
    keyMappings: seq<(string, string)>,
    moves: seq<Move>)

  /** An automaton state: its integer id, whether it accepts, and the moves ending there. */
  datatype State = State(id: int, isFinal: bool, moves: seq<Move>)

  /** One entry ((source, symbol), target) of the transition table. */
  datatype Transition = Transition(source: int, symbol: string, target: int)

  /** The automaton: state table, transition table, initial state id and alphabet. */
  datatype Automaton = Automaton(
    states: seq<State>,
    transitions: seq<Transition>,
    initialState: int,
    alphabet: set<string>)

  /** What the key drivers print, in order. */
  datatype Printed =
      /** the symbols typed, joined by ", ", then one "name (character) !!" line per move */
    | Announce(symbols: seq<string>, moves: seq<Move>)
      /** debug trace: State from, "symbol" -> State to */
    | StepTrace(from: int, symbol: string, to: int)
      /** debug trace: Found end state for "name (character)" at: stateId */
    | EndStateTrace(move: Move, stateId: int)

  /** What a key driver returns for one key: the new match buffer and
      whether a move was recognised, plus what it printed on the way. */
  datatype KeyStep = KeyStep(buffer: seq<string>, recognized: bool, printed: seq<Printed>)
}
