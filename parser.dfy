/** The grammar-file parser of src/parser.py: lines are cleaned of comments and
    sorted into the alphabet, keymapping and moves sections by `@name` headers,
    then each section's lines are parsed by its line parser; the key mappings
    of the grammar are the identity on the alphabet's tokens. */
module Parser {
  import opened Types
  import opened Seqs
  import opened Utils

  // ---------------------------------------------------------------------------
  // Line parsers
  // ---------------------------------------------------------------------------

  /** parse_alphabet_line: `token: type (description)`, None without ':'. */
  function ParseAlphabetLine(line: string): (r: Option<(string, Symbol)>)
    ensures r.None? <==> ':' !in line
    ensures r.Some? ==> r.value.0 == r.value.1.token && ':' !in r.value.0
  {
    FindChar(line, ':');
    if ':' !in line then None
    else
      FindCharIndex(line, ':');
      TrimKeepsOut(line[..IndexOf(line, ':').value], IsSpace, ':');
      var (token, rest) := SplitOnce(line, ":");
      var (symType, description) := ExtractParentheses(rest);
      Some((token, Symbol(token, symType, description)))
  }

  /** The token of an alphabet line is the stripped text before its first ':'. */
  lemma ParseAlphabetLineToken(line: string)
    requires ':' in line
    ensures ParseAlphabetLine(line).value.0 == Strip(line[..IndexOf(line, ':').value])
  {
    FindCharIndex(line, ':');
  }

  /** A well-formed alphabet line parses back into its parts. */
  lemma ParseAlphabetLineRoundTrip(token: string, symType: string, description: string)
    requires ':' !in token && Stripped(token)
    requires '(' !in symType && Stripped(symType)
    requires '(' !in description && ')' !in description && Stripped(description)
    ensures ParseAlphabetLine(token + ":" + symType + "(" + description + ")") ==
            Some((token, Symbol(token, symType, description)))
  {
    var rest := symType + "(" + description + ")";
    assert token + ":" + symType + "(" + description + ")" == token + ":" + rest;
    SplitOnceAt(token, ":", rest);
    ParenthesisedStripped(symType, description);
    StrippedIff(token);
    StrippedIff(rest);
    ExtractParenthesesSpec(symType, description);
    StrippedIff(symType);
    StrippedIff(description);
  }

  /** `before(inside)` with `before` stripped is itself stripped. */
  lemma ParenthesisedStripped(before: string, inside: string)
    requires Stripped(before)
    ensures Stripped(before + "(" + inside + ")")
  {
    var s := before + "(" + inside + ")";
    assert s[|s| - 1] == ')';
    if before == [] {
      assert s[0] == '(';
    } else {
      assert s[0] == before[0];
    }
  }

  /** parse_keymapping_line: `key=symbol`, both stripped; None without '='. */
  function ParseKeymappingLine(line: string): (r: Option<(string, string)>)
    ensures r.None? <==> '=' !in line
    ensures r.Some? ==> '=' !in r.value.0
    ensures r.Some? ==> var i := IndexOf(line, '=').value;
                        r.value == (Strip(line[..i]), Strip(line[i + 1..]))
  {
    FindChar(line, '=');
    if '=' !in line then None
    else
      SplitOnceChar(line, '=');
      TrimKeepsOut(line[..IndexOf(line, '=').value], IsSpace, '=');
      var (key, symbol) := SplitOnce(line, "=");
      Some((key, symbol))
  }

  /** A keymapping line `key = symbol` parses back into its key and symbol,
      stripped; already stripped ones come back as they are. */
  lemma ParseKeymappingLineRoundTrip(key: string, symbol: string)
    requires '=' !in key
    ensures ParseKeymappingLine(key + "=" + symbol) == Some((Strip(key), Strip(symbol)))
    ensures Stripped(key) && Stripped(symbol) ==> ParseKeymappingLine(key + "=" + symbol) == Some((key, symbol))
  {
    assert (key + "=" + symbol)[|key|] == '=';
    SplitOnceAt(key, "=", symbol);
    StrippedIff(key);
    StrippedIff(symbol);
  }

  /** The tokens of the sequence part: every comma-separated piece stripped,
      the empty ones dropped, in order. */
  function Tokens(pieces: seq<string>): (r: seq<string>)
    ensures |r| <= |pieces|
    ensures forall k :: 0 <= k < |r| ==> r[k] != [] && Stripped(r[k])
    decreases |pieces|
  {
    if pieces == [] then []
    else
      var t := Strip(pieces[0]);
      StrippedIff(pieces[0]);
      var head := if !IsEmpty(t) then [t] else [];
      var rest := Tokens(pieces[1..]);
      assert forall k :: 0 <= k < |head| ==> head[k] != [] && Stripped(head[k]);
      head + rest
  }

  /** Pieces that are already non-empty and stripped are all kept as they are. */
  lemma {:induction false} TokensOfTokens(pieces: seq<string>)
    requires forall k :: 0 <= k < |pieces| ==> pieces[k] != [] && Stripped(pieces[k])
    ensures Tokens(pieces) == pieces
    decreases |pieces|
  {
    if pieces != [] {
      StrippedIff(pieces[0]);
      TokensOfTokens(pieces[1..]);
    }
  }

  /** A token keeps out every character its piece did not have. */
  lemma {:induction false} TokensKeepOut(pieces: seq<string>, c: char)
    requires forall k :: 0 <= k < |pieces| ==> c !in pieces[k]
    ensures forall k :: 0 <= k < |Tokens(pieces)| ==> c !in Tokens(pieces)[k]
    decreases |pieces|
  {
    if pieces != [] {
      TrimKeepsOut(pieces[0], IsSpace, c);
      TokensKeepOut(pieces[1..], c);
    }
  }

  /** A token is a stripped piece with something left in it. */
  predicate NonBlank(t: string) {
    t != []
  }

  /** The tokens are exactly the stripped pieces that are not empty, in the
      order of their pieces. */
  lemma {:induction false} TokensFilter(pieces: seq<string>)
    ensures Tokens(pieces) == Filter(StripAll(pieces), NonBlank)
    ensures forall t :: t in Tokens(pieces) <==> t in StripAll(pieces) && t != []
    decreases |pieces|
  {
    if pieces != [] {
      assert StripAll(pieces)[1..] == StripAll(pieces[1..]);
      TokensFilter(pieces[1..]);
    }
    forall t ensures t in Tokens(pieces) <==> t in StripAll(pieces) && t != [] {
      FilterMembers(StripAll(pieces), NonBlank, t);
    }
  }

  /** parse_move_line: `s1, s2, ... -> name (character)`, None without "->".
      The character is "Unknown" when the name part has none. */
  function ParseMoveLine(line: string): (r: Option<Move>)
    ensures r.None? <==> Find(line, "->").None?
    ensures r.Some? ==> r.value.character != []
    ensures r.Some? ==> forall k :: 0 <= k < |r.value.sequence| ==>
              r.value.sequence[k] != [] && Stripped(r.value.sequence[k]) && ',' !in r.value.sequence[k]
  {
    if Find(line, "->").None? then None
    else
      var (sequencePart, namePart) := SplitOnce(line, "->");
      var pieces := SplitOn(sequencePart, ',');
      TokensKeepOut(pieces, ',');
      var sequence := Tokens(pieces);
      var nameClean := Trim(namePart, Is('"'));
      var (name0, character0) := ExtractParentheses(nameClean);
      var name := Trim(name0, Is('"'));
      var character := if character0 != [] then character0 else "Unknown";
      Some(Move(sequence, name, character))
  }

  /** Without '(' after the arrow the move's character is "Unknown". */
  lemma ParseMoveLineUnknown(line: string)
    requires Find(line, "->").Some?
    requires '(' !in line[Find(line, "->").value + 2..]
    ensures ParseMoveLine(line).value.character == "Unknown"
  {
    var i := Find(line, "->").value;
    var namePart := Strip(line[i + 2..]);
    TrimKeepsOut(line[i + 2..], IsSpace, '(');
    TrimKeepsOut(namePart, Is('"'), '(');
  }

  /** Whatever the spacing, the move's sequence is every comma-separated piece
      before the first "->", stripped, with the empty ones dropped, in order. */
  lemma ParseMoveLineSequence(line: string)
    requires Find(line, "->").Some?
    ensures var i := Find(line, "->").value;
            ParseMoveLine(line).value.sequence == Filter(StripAll(SplitOn(line[..i], ',')), NonBlank)
  {
    var i := Find(line, "->").value;
    SplitStripped(line[..i], ',');
    TokensFilter(SplitOn(Strip(line[..i]), ','));
  }

  /** The sequence part of a well-formed move line gives its tokens back. */
  lemma MoveTokensRoundTrip(tokens: seq<string>)
    requires tokens != []
    requires forall k :: 0 <= k < |tokens| ==> tokens[k] != [] && Stripped(tokens[k]) && ',' !in tokens[k]
    ensures Tokens(SplitOn(Strip(Join(tokens, ',')), ',')) == tokens
  {
    var j := Join(tokens, ',');
    JoinEnds(tokens, ',');
    assert Stripped(tokens[0]) && Stripped(tokens[|tokens| - 1]);
    TrimNothing(j, IsSpace);
    SplitJoin(tokens, ',');
    TokensOfTokens(tokens);
  }

  /** The name part of a well-formed move line gives its name and character back. */
  lemma MoveNameRoundTrip(name: string, character: string)
    requires name != [] && Stripped(name) && '(' !in name && name[0] != '"' && name[|name| - 1] != '"'
    requires '(' !in character && ')' !in character && Stripped(character)
    ensures var right := name + "(" + character + ")";
            Strip(right) == right && Trim(right, Is('"')) == right &&
            ExtractParentheses(right) == (name, character) && Trim(name, Is('"')) == name
  {
    var right := name + "(" + character + ")";
    ParenthesisedStripped(name, character);
    StrippedIff(right);
    QuoteFree(name, character);
    ExtractParenthesesSpec(name, character);
    StrippedIff(name);
    StrippedIff(character);
  }

  /** `name(character)` neither begins nor ends with a double quote. */
  lemma QuoteFree(name: string, character: string)
    requires name != [] && name[0] != '"'
    requires name[|name| - 1] != '"'
    ensures Trim(name + "(" + character + ")", Is('"')) == name + "(" + character + ")"
    ensures Trim(name, Is('"')) == name
  {
    TrimNothing(name, Is('"'));
    var right := name + "(" + character + ")";
    assert right[0] == name[0] && right[|right| - 1] == ')';
    TrimNothing(right, Is('"'));
  }

  /** A well-formed move line parses back into its move: the tokens joined by
      ',', then "->", the name and the parenthesised character. */
  lemma ParseMoveLineRoundTrip(tokens: seq<string>, name: string, character: string)
    requires tokens != []
    requires forall k :: 0 <= k < |tokens| ==>
               tokens[k] != [] && Stripped(tokens[k]) && ',' !in tokens[k] && NoArrow(tokens[k])
    requires name != [] && Stripped(name) && '(' !in name && name[0] != '"' && name[|name| - 1] != '"'
    requires character != [] && Stripped(character) && '(' !in character && ')' !in character
    ensures ParseMoveLine(Join(tokens, ',') + "->" + (name + "(" + character + ")")) ==
            Some(Move(tokens, name, character))
  {
    var left := Join(tokens, ',');
    var right := name + "(" + character + ")";
    JoinNoArrow(tokens);
    MoveLineSplit(left, right);
    MoveTokensRoundTrip(tokens);
    MoveNameRoundTrip(name, character);
  }

  /** `s` contains no "->". */
  predicate NoArrow(s: string) {
    forall i :: 0 <= i < |s| - 1 ==> !(s[i] == '-' && s[i + 1] == '>')
  }

  /** Tokens without "->" joined by ',' give a text without "->". */
  lemma {:induction false} JoinNoArrow(tokens: seq<string>)
    requires forall k :: 0 <= k < |tokens| ==> NoArrow(tokens[k])
    ensures NoArrow(Join(tokens, ','))
    decreases |tokens|
  {
    if |tokens| > 1 {
      JoinNoArrow(tokens[1..]);
      NoArrowAround(tokens[0], Join(tokens[1..], ','));
    }
  }

  /** Two texts without "->" around a ',' give a text without "->". */
  lemma NoArrowAround(a: string, b: string)
    requires NoArrow(a) && NoArrow(b)
    ensures NoArrow(a + [','] + b)
  {
    var s := a + [','] + b;
    forall i | 0 <= i < |s| - 1 ensures !(s[i] == '-' && s[i + 1] == '>') {
      if i + 1 < |a| {
        assert s[i] == a[i] && s[i + 1] == a[i + 1];
      } else if i > |a| {
        assert s[i] == b[i - |a| - 1] && s[i + 1] == b[i - |a|];
      }
    }
  }

  /** The arrow splits a line at the end of a sequence part without "->". */
  lemma MoveLineSplit(left: string, right: string)
    requires NoArrow(left)
    ensures Find(left + "->" + right, "->") == Some(|left|)
    ensures SplitOnce(left + "->" + right, "->") == (Strip(left), Strip(right))
  {
    var s := left + "->" + right;
    assert s[|left|..|left| + 2] == "->";
    assert OccursAt(s, "->", |left|);
    forall i: nat | i < |left| ensures !OccursAt(s, "->", i) {
      if i + 1 < |left| {
        assert s[i] == left[i] && s[i + 1] == left[i + 1];
      } else {
        assert s[i + 1] == '-';
      }
    }
    assert s[..|left|] == left;
    assert s[|left| + 2..] == right;
  }

  // ---------------------------------------------------------------------------
  // Sections
  // ---------------------------------------------------------------------------

  /** The accumulator of partition_sections: alphabet lines, keymapping lines,
      move lines, and the section in force. */
  type Sections = (seq<string>, seq<string>, seq<string>, string)

  /** The `helper` of partition_sections: one line read. */
  function PartitionStep(acc: Sections, line: string): Sections {
    var (alpha, keys, mvs, section) := acc;
    var cleaned := StripComment(line);
    if IsEmpty(cleaned) then acc
    else if cleaned[0] == '@' then (alpha, keys, mvs, cleaned[1..])
    else if section == "alphabet" then (alpha + [cleaned], keys, mvs, section)
    else if section == "keymapping" then (alpha, keys + [cleaned], mvs, section)
    else if section == "moves" then (alpha, keys, mvs + [cleaned], section)
    else acc
  }

  /** functools.reduce of PartitionStep over the lines. */
  function PartitionFold(acc: Sections, lines: seq<string>): Sections
    decreases |lines|
  {
    if lines == [] then acc else PartitionFold(PartitionStep(acc, lines[0]), lines[1..])
  }

  /** partition_sections: the lines of the three sections, from no section in force. */
  function PartitionSections(lines: seq<string>): (seq<string>, seq<string>, seq<string>) {
    var r := PartitionFold(([], [], [], ""), lines);
    (r.0, r.1, r.2)
  }

  /** Reading one more line is one more step of the fold. */
  lemma {:induction false} PartitionFoldSnoc(acc: Sections, lines: seq<string>, line: string)
    ensures PartitionFold(acc, lines + [line]) == PartitionStep(PartitionFold(acc, lines), line)
    decreases |lines|
  {
    if lines == [] {
      assert lines + [line] == [line];
      assert [line][1..] == [];
    } else {
      assert (lines + [line])[0] == lines[0] && (lines + [line])[1..] == lines[1..] + [line];
      PartitionFoldSnoc(PartitionStep(acc, lines[0]), lines[1..], line);
    }
  }

  /** Is the cleaned line a section header? */
  predicate IsHeader(cleaned: string) {
    cleaned != [] && cleaned[0] == '@'
  }

  /** The section in force after reading `lines`: the name of the last header, "" before any. */
  function SectionAfter(lines: seq<string>): string
    decreases |lines|
  {
    if lines == [] then ""
    else
      var cleaned := StripComment(lines[|lines| - 1]);
      if IsHeader(cleaned) then cleaned[1..] else SectionAfter(lines[..|lines| - 1])
  }

  /** The lines of section `name`, independently of the fold: each line that is
      neither blank after comment removal nor a header, cleaned, when the last
      header before it names `name`; in input order. */
  function SectionLines(lines: seq<string>, name: string): seq<string>
    decreases |lines|
  {
    if lines == [] then []
    else
      var prefix := lines[..|lines| - 1];
      var cleaned := StripComment(lines[|lines| - 1]);
      SectionLines(prefix, name) +
      (if cleaned != [] && !IsHeader(cleaned) && SectionAfter(prefix) == name then [cleaned] else [])
  }

  /** The accumulator the fold should hold after `lines`, by the reference definition. */
  function SectionsOf(lines: seq<string>): Sections {
    (SectionLines(lines, "alphabet"), SectionLines(lines, "keymapping"), SectionLines(lines, "moves"),
     SectionAfter(lines))
  }

  /** One step of the fold extends the reference accumulator by one line. */
  lemma PartitionStepSpec(prefix: seq<string>, line: string)
    ensures PartitionStep(SectionsOf(prefix), line) == SectionsOf(prefix + [line])
  {
    var lines := prefix + [line];
    assert lines[..|lines| - 1] == prefix && lines[|lines| - 1] == line;
    var cleaned := StripComment(line);
    var section := SectionAfter(prefix);
    var (a, k, m) := (SectionLines(prefix, "alphabet"), SectionLines(prefix, "keymapping"), SectionLines(prefix, "moves"));
    var added := cleaned != [] && !IsHeader(cleaned);
    assert SectionsOf(lines) ==
      (a + (if added && section == "alphabet" then [cleaned] else []),
       k + (if added && section == "keymapping" then [cleaned] else []),
       m + (if added && section == "moves" then [cleaned] else []),
       if IsHeader(cleaned) then cleaned[1..] else section);
    if !added {
      assert a + [] == a && k + [] == k && m + [] == m;
    } else if section != "alphabet" && section != "keymapping" && section != "moves" {
      assert a + [] == a && k + [] == k && m + [] == m;
    } else {
      assert !IsEmpty(cleaned) && cleaned[0] != '@';
      assert a + [] == a && k + [] == k && m + [] == m;
      assert PartitionStep(SectionsOf(prefix), line) ==
        (a + (if section == "alphabet" then [cleaned] else []),
         k + (if section == "keymapping" then [cleaned] else []),
         m + (if section == "moves" then [cleaned] else []), section);
    }
  }

  /** partition_sections puts each line in the section named by the last header
      before it: blank and comment lines, headers, and lines outside the three
      sections are dropped, and each section keeps the input order. */
  lemma {:induction false} PartitionSectionsSpec(lines: seq<string>)
    ensures PartitionFold(([], [], [], ""), lines) == SectionsOf(lines)
    ensures PartitionSections(lines) ==
            (SectionLines(lines, "alphabet"), SectionLines(lines, "keymapping"), SectionLines(lines, "moves"))
    decreases |lines|
  {
    if lines != [] {
      var prefix, line := lines[..|lines| - 1], lines[|lines| - 1];
      assert prefix + [line] == lines;
      PartitionSectionsSpec(prefix);
      PartitionFoldSnoc(([], [], [], ""), prefix, line);
      PartitionStepSpec(prefix, line);
    }
  }

  /** Every line kept in a section is non-empty, free of comments and not a header. */
  lemma {:induction false} SectionLinesClean(lines: seq<string>, name: string)
    ensures forall k :: 0 <= k < |SectionLines(lines, name)| ==>
              var l := SectionLines(lines, name)[k]; l != [] && '#' !in l && !IsHeader(l)
    decreases |lines|
  {
    if lines != [] {
      SectionLinesClean(lines[..|lines| - 1], name);
    }
  }

  // ---------------------------------------------------------------------------
  // Sections and the whole grammar
  // ---------------------------------------------------------------------------

  /** parse_section: the parser's results that are not None, in order. */
  function ParseSection<T>(lines: seq<string>, parser: string -> Option<T>): (r: seq<T>)
    ensures |r| <= |lines|
    decreases |lines|
  {
    if lines == [] then []
    else (match parser(lines[0]) case None => [] case Some(x) => [x]) + ParseSection(lines[1..], parser)
  }

  /** A value is parsed exactly when some line parses to it. */
  lemma {:induction false} ParseSectionMembers<T>(lines: seq<string>, parser: string -> Option<T>, x: T)
    ensures x in ParseSection(lines, parser) <==> exists k :: 0 <= k < |lines| && parser(lines[k]) == Some(x)
    decreases |lines|
  {
    if lines != [] {
      ParseSectionMembers(lines[1..], parser, x);
      if exists k :: 0 <= k < |lines| && parser(lines[k]) == Some(x) {
        var k :| 0 <= k < |lines| && parser(lines[k]) == Some(x);
        if k > 0 {
          assert lines[1..][k - 1] == lines[k];
        }
      }
      if exists k :: 0 <= k < |lines[1..]| && parser(lines[1..][k]) == Some(x) {
        var k :| 0 <= k < |lines[1..]| && parser(lines[1..][k]) == Some(x);
        assert lines[k + 1] == lines[1..][k];
      }
    }
  }

  /** Parsing is done line by line: the results of a concatenation are the
      concatenated results. */
  lemma {:induction false} ParseSectionAppend<T>(a: seq<string>, b: seq<string>, parser: string -> Option<T>)
    ensures ParseSection(a + b, parser) == ParseSection(a, parser) + ParseSection(b, parser)
    decreases |a|
  {
    if a == [] {
      assert a + b == b;
    } else {
      assert (a + b)[0] == a[0] && (a + b)[1..] == a[1..] + b;
      ParseSectionAppend(a[1..], b, parser);
    }
  }

  /** When every line parses, nothing is dropped. */
  lemma {:induction false} ParseSectionAll<T>(lines: seq<string>, parser: string -> Option<T>)
    requires forall k :: 0 <= k < |lines| ==> parser(lines[k]).Some?
    ensures |ParseSection(lines, parser)| == |lines|
    decreases |lines|
  {
    if lines != [] {
      ParseSectionAll(lines[1..], parser);
    }
  }

  /** The identity key mapping (token, token) of every alphabet entry. */
  function IdentityMappings(alphabet: seq<(string, Symbol)>): (r: seq<(string, string)>)
    ensures |r| == |alphabet|
    ensures forall k :: 0 <= k < |r| ==> r[k] == (alphabet[k].0, alphabet[k].0)
  {
    seq(|alphabet|, k requires 0 <= k < |alphabet| => (alphabet[k].0, alphabet[k].0))
  }

  /** parse_grammar: the content split on newlines, sorted into sections; the
      alphabet and move sections parsed, the keymapping section unused, and
      every alphabet token mapped to itself. */
  function ParseGrammar(content: string): (g: Grammar)
    ensures forall k :: 0 <= k < |g.alphabet| ==> g.alphabet[k].0 == g.alphabet[k].1.token
    ensures |g.keyMappings| == |g.alphabet|
    ensures forall k :: 0 <= k < |g.keyMappings| ==> g.keyMappings[k] == (g.alphabet[k].0, g.alphabet[k].0)
  {
    var lines := SplitOn(content, '\n');
    var (alphaLines, keyLines, moveLines) := PartitionSections(lines);
    var alphabet := ParseSection(alphaLines, ParseAlphabetLine);
    ParseSectionKeeps(alphaLines, ParseAlphabetLine, TokenNamed);
    Grammar(alphabet, IdentityMappings(alphabet), ParseSection(moveLines, ParseMoveLine))
  }

  /** Every value parse_section keeps satisfies what the parser promises of its results. */
  lemma {:induction false} ParseSectionKeeps<T>(lines: seq<string>, parser: string -> Option<T>, p: T -> bool)
    requires forall line :: parser(line).Some? ==> p(parser(line).value)
    ensures forall k :: 0 <= k < |ParseSection(lines, parser)| ==> p(ParseSection(lines, parser)[k])
    decreases |lines|
  {
    if lines != [] {
      ParseSectionKeeps(lines[1..], parser, p);
    }
  }

  /** An alphabet entry names its symbol's token. */
  predicate TokenNamed(entry: (string, Symbol)) {
    entry.0 == entry.1.token
  }

  /** Looking a key up in identity mappings of an alphabet finds the key
      itself exactly when some entry has it as its token. */
  lemma IdentityLookup(alphabet: seq<(string, Symbol)>, mappings: seq<(string, string)>, key: string)
    requires |mappings| == |alphabet|
    requires forall k :: 0 <= k < |mappings| ==> mappings[k] == (alphabet[k].0, alphabet[k].0)
    ensures LookupKey(mappings, key) ==
            if exists k :: 0 <= k < |alphabet| && alphabet[k].0 == key then Some(key) else None
  {
    LookupKeySpec(mappings, key);
    if exists k :: 0 <= k < |alphabet| && alphabet[k].0 == key {
      var k :| 0 <= k < |alphabet| && alphabet[k].0 == key;
      assert mappings[k].0 == key;
    }
  }

  /** In a parsed grammar a key is mapped exactly when it is an alphabet token,
      and then to itself. */
  lemma ParseGrammarKeys(content: string, key: string)
    ensures var g := ParseGrammar(content);
            LookupKey(g.keyMappings, key) ==
            if exists k :: 0 <= k < |g.alphabet| && g.alphabet[k].0 == key then Some(key) else None
  {
    var g := ParseGrammar(content);
    IdentityLookup(g.alphabet, g.keyMappings, key);
  }

  /** The grammar depends only on the alphabet and moves sections: two contents
      whose alphabet lines and move lines agree parse alike, whatever their
      keymapping sections hold. */
  lemma ParseGrammarIgnoresKeymapping(content1: string, content2: string)
    requires var lines1, lines2 := SplitOn(content1, '\n'), SplitOn(content2, '\n');
      && SectionLines(lines1, "alphabet") == SectionLines(lines2, "alphabet")
      && SectionLines(lines1, "moves") == SectionLines(lines2, "moves")
    ensures ParseGrammar(content1) == ParseGrammar(content2)
  {
    PartitionSectionsSpec(SplitOn(content1, '\n'));
    PartitionSectionsSpec(SplitOn(content2, '\n'));
  }
}
