/** The profile table that `Dock::parseConfig` (aidl/src/Dock.cpp:88-126) builds
    from the lines of `/vendor/etc/dock.<hardware>.<sku>.txt`, stated as a
    function of the lines and of the table it starts from. The class in
    DockService runs the same steps imperatively and is proved equal to
    ParseLines. */
module ProfileTable {
  import opened CText

  /** The AIDL enumeration `PowerMode`, held as the `int` that `stoi` produced. */
  type PowerMode = Int32

  /** `std::map<PowerMode, std::vector<int32_t>> supportedModes`. */
  type ModeTable = map<PowerMode, seq<Int32>>

  /** The ways a line stops parseConfig. */
  datatype Failure =
    | Rejected                     // `return 1`: a line with fewer than 3 or more than 4 tokens
    | StoiThrew(error: StoiError)  // `std::stoi` threw; nothing in parseConfig catches it
    | TokenIndexOutOfBounds        // a 4-token line reads `tokens[4]`: undefined behaviour

  /** How parseConfig ends: `return 0` after the last line, or a failure. */
  datatype ParseStatus = Parsed | Failed(failure: Failure)

  /** What one line does: parsing goes on with the new table, or stops. */
  datatype LineOutcome = Next(modes: ModeTable) | Halt(failure: Failure, modes: ModeTable)

  /** How parsing ended and the table as it was at that point. */
  datatype ParseResult = ParseResult(status: ParseStatus, modes: ModeTable)

  /** The vector for `k`, or the empty one that `insert` would add. */
  function Entry(modes: ModeTable, k: PowerMode): seq<Int32> {
    if k in modes then modes[k] else []
  }

  /** Every key is mapped to at least the two values that getAvailableCpuFreqs
      and getAvailableGpuFreqs index. */
  predicate WellFormed(modes: ModeTable) {
    forall k :: k in modes ==> |modes[k]| >= 2
  }

  /** Every entry of `modes` is still there in `modes'`, with its old values
      as a prefix: the table never loses a key or a value. */
  predicate Grows(modes: ModeTable, modes': ModeTable) {
    forall k :: k in modes ==> k in modes' && modes[k] <= modes'[k]
  }

  // ---------------------------------------------------------------------------
  // Tokenizing a line: each space-delimited term of the line stream becomes a token
  // ---------------------------------------------------------------------------

  /** The terms `getline(..., ' ')` extracts from `line`: the pieces between
      single spaces, where a doubled space gives an empty term and a final
      space (or an empty line) gives no further term. */
  function Tokens(line: string): (tokens: seq<string>)
    ensures forall i :: 0 <= i < |tokens| ==> ' ' !in tokens[i]
    ensures tokens == [] <==> line == []
  {
    JoinSplit(line, ' ');
    var pieces := Split(line, ' ');
    if pieces[|pieces| - 1] == [] then pieces[..|pieces| - 1] else pieces
  }

  /** The tokens, with the empty piece a final space leaves behind, join
      back into the line. */
  lemma TokensJoin(line: string)
    ensures var tokens := Tokens(line);
            Join(if line == [] || line[|line| - 1] == ' ' then tokens + [[]] else tokens, ' ') == line
  {
    JoinSplit(line, ' ');
    LastPieceEmpty(line, ' ');
    JoinTokens(line, Split(line, ' '), Tokens(line));
  }

  /** Tokens drops the last piece exactly when it is empty, so putting an
      empty piece back gives the pieces, which join into the line. */
  lemma JoinTokens(line: string, pieces: seq<string>, tokens: seq<string>)
    requires |pieces| >= 1 && Join(pieces, ' ') == line
    requires pieces[|pieces| - 1] == [] <==> line == [] || line[|line| - 1] == ' '
    requires tokens == if pieces[|pieces| - 1] == [] then pieces[..|pieces| - 1] else pieces
    ensures Join(if line == [] || line[|line| - 1] == ' ' then tokens + [[]] else tokens, ' ') == line
  {
    if pieces[|pieces| - 1] == [] {
      assert tokens + [[]] == pieces;
    }
  }

  /** The tokenizing loop of parseConfig (aidl/src/Dock.cpp:101-107), one
      character at a time as getline consumes the stream. */
  method SplitTokens(line: string) returns (tokens: seq<string>)
    ensures tokens == Tokens(line)
  {
    tokens := [];
    var term := "";
    var i := 0;
    while i < |line|
      invariant 0 <= i <= |line|
      invariant tokens + [term] == Split(line[..i], ' ')
    {
      assert line[..i + 1] == line[..i] + [line[i]];
      SplitSnoc(line[..i], line[i], ' ');
      if line[i] == ' ' {
        tokens := tokens + [term];
        term := "";
      } else {
        term := term + [line[i]];
      }
      i := i + 1;
    }
    assert line[..i] == line;
    if term != [] {
      tokens := tokens + [term];
    } else {
      assert tokens == Split(line, ' ')[..|tokens|];
    }
  }

  /** Words that hold no space, the last of them not empty, joined by single
      spaces are tokenized back into the same words. */
  lemma TokensOfJoin(words: seq<string>)
    requires |words| >= 1 && words[|words| - 1] != []
    requires forall i :: 0 <= i < |words| ==> ' ' !in words[i]
    ensures Tokens(Join(words, ' ')) == words
  {
    SplitJoin(words, ' ');
    TokensOfPieces(Join(words, ' '), words);
  }

  lemma TokensOfPieces(line: string, pieces: seq<string>)
    requires Split(line, ' ') == pieces && pieces[|pieces| - 1] != []
    ensures Tokens(line) == pieces
  {
  }

  // ---------------------------------------------------------------------------
  // Parsing
  // ---------------------------------------------------------------------------

  /** A comment line (first character `#`) or an empty line. */
  predicate IsSkipped(line: string) {
    (line != [] && line[0] == '#') || line == []
  }

  /** The skipped lines are exactly those with no term at all or whose first
      term starts with `#`. */
  lemma SkippedByTerms(line: string)
    ensures IsSkipped(line) <==> Tokens(line) == [] || HasPrefix(Tokens(line)[0], "#")
  {
  }

  /** `supportedModes.insert(pair(index, vector()))`: adds an empty vector
      for a new key and leaves an existing entry alone. */
  function Insert(modes: ModeTable, index: PowerMode): (r: ModeTable)
    ensures index in r && Grows(modes, r) && r.Keys == modes.Keys + {index}
    ensures forall k :: k in modes ==> r[k] == modes[k]
    ensures index !in modes ==> r[index] == []
  {
    if index in modes then modes else modes[index := []]
  }

  /** `supportedModes[index].push_back(stoi(token))`: appends the number, or
      stops with the exception `stoi` threw and the table unchanged. */
  function PushToken(modes: ModeTable, index: PowerMode, token: string): (r: LineOutcome)
    requires index in modes
    ensures r.modes.Keys == modes.Keys && Grows(modes, r.modes)
    ensures forall k :: k in modes && k != index ==> r.modes[k] == modes[k]
    ensures r.Halt? ==> Stoi(token).Threw? && r.failure == StoiThrew(Stoi(token).error) && r.modes == modes
    ensures r.Next? <==> Stoi(token).Value?
    ensures r.Next? ==> r.modes[index] == modes[index] + [Stoi(token).value]
  {
    match Stoi(token)
    case Threw(e) => Halt(StoiThrew(e), modes)
    case Value(v) => Next(modes[index := modes[index] + [v]])
  }

  /** Lines 113-122 of aidl/src/Dock.cpp for a line of 3 or 4 tokens: the
      id is parsed, `insert` runs, tokens 1 and 2 are pushed, and a fourth
      token leads to the read of `tokens[4]`. */
  function ParseTokens(modes: ModeTable, tokens: seq<string>): (r: LineOutcome)
    requires 3 <= |tokens| <= 4
    ensures Grows(modes, r.modes)
    ensures forall k :: k in r.modes && k !in modes ==> (r.Halt? && r.failure.StoiThrew?) || |r.modes[k]| == 2
    ensures r.Next? ==> |tokens| == 3 && Stoi(tokens[0]).Value? && r.modes.Keys == modes.Keys + {Stoi(tokens[0]).value}
  {
    match Stoi(tokens[0])
    case Threw(e) => Halt(StoiThrew(e), modes)
    case Value(index) =>
      var inserted := Insert(modes, index);
      match PushToken(inserted, index, tokens[1])
      case Halt(failure, m1) => Halt(failure, m1)
      case Next(m1) =>
        match PushToken(m1, index, tokens[2])
        case Halt(failure, m2) => Halt(failure, m2)
        case Next(m2) =>
          if |tokens| == 4 then Halt(TokenIndexOutOfBounds, m2) else Next(m2)
  }

  /** One pass of the line loop of parseConfig (aidl/src/Dock.cpp:94-123).
      `insert` adds an empty vector only for a new key and never overwrites,
      and each value is pushed as soon as its `stoi` returns, so a throw or the
      read of `tokens[4]` leaves the table as it was at that moment. */
  function ParseLine(modes: ModeTable, line: string): (r: LineOutcome)
    ensures Grows(modes, r.modes)
    ensures forall k :: k in r.modes && k !in modes ==> (r.Halt? && r.failure.StoiThrew?) || |r.modes[k]| == 2
    ensures IsSkipped(line) ==> r == Next(modes)
  {
    if line != [] && line[0] == '#' then Next(modes)
    else if line == [] then Next(modes)
    else
      var tokens := Tokens(line);
      if |tokens| > 4 || |tokens| < 3 then Halt(Rejected, modes)
      else ParseTokens(modes, tokens)
  }

  /** The loop of parseConfig over the lines of the file (aidl/src/Dock.cpp:94-125):
      `step` says what one line does to the table, and the first line that
      halts ends the loop with its status; otherwise the loop returns 0. */
  function RunLines(step: (ModeTable, string) -> LineOutcome, modes: ModeTable, lines: seq<string>): ParseResult
    decreases |lines|
  {
    if lines == [] then ParseResult(Parsed, modes)
    else match step(modes, lines[0])
      case Halt(failure, m) => ParseResult(Failed(failure), m)
      case Next(m) => RunLines(step, m, lines[1..])
  }

  /** parseConfig over all lines of the file, starting from `modes`. It never
      removes a key or a value of the table, whichever way it ends. */
  function ParseLines(modes: ModeTable, lines: seq<string>): (r: ParseResult)
    ensures Grows(modes, r.modes)
  {
    RunLinesGrows(ParseLine, modes, lines);
    RunLines(ParseLine, modes, lines)
  }

  /** One turn of the loop: the first line either stops parsing or hands
      its table on to the rest of the file. */
  lemma ParseLinesCons(modes: ModeTable, lines: seq<string>)
    requires lines != []
    ensures ParseLines(modes, lines) ==
            match ParseLine(modes, lines[0])
            case Halt(failure, m) => ParseResult(Failed(failure), m)
            case Next(m) => ParseLines(m, lines[1..])
  {
  }

  /** Running the loop over a file in two parts: the second part starts from
      the table the first one left, and runs only if the first one got to its
      end. */
  lemma {:induction false} RunLinesAppend(step: (ModeTable, string) -> LineOutcome, modes: ModeTable,
                                          a: seq<string>, b: seq<string>)
    ensures RunLines(step, modes, a + b) ==
            var r := RunLines(step, modes, a);
            if r.status == Parsed then RunLines(step, r.modes, b) else r
    decreases |a|
  {
    if a == [] {
      assert a + b == b;
    } else {
      assert (a + b)[0] == a[0];
      assert (a + b)[1..] == a[1..] + b;
      match step(modes, a[0])
      case Halt(_, _) =>
      case Next(m) => RunLinesAppend(step, m, a[1..], b);
    }
  }

  /** When no line removes a key or a value, neither does the loop: an early
      stop keeps everything the earlier lines added. */
  lemma {:induction false} RunLinesGrows(step: (ModeTable, string) -> LineOutcome, modes: ModeTable, lines: seq<string>)
    requires forall m, line :: Grows(m, step(m, line).modes)
    ensures Grows(modes, RunLines(step, modes, lines).modes)
    decreases |lines|
  {
    if lines != [] {
      match step(modes, lines[0])
      case Halt(_, _) =>
      case Next(m) =>
        RunLinesGrows(step, m, lines[1..]);
        GrowsTransitive(modes, m, RunLines(step, m, lines[1..]).modes);
    }
  }

  lemma GrowsTransitive(m1: ModeTable, m2: ModeTable, m3: ModeTable)
    requires Grows(m1, m2) && Grows(m2, m3)
    ensures Grows(m1, m3)
  {
  }

  /** A comment or empty line, wherever it stands, changes nothing. */
  lemma SkippedLineIsInvisible(modes: ModeTable, a: seq<string>, line: string, b: seq<string>)
    requires IsSkipped(line)
    ensures ParseLines(modes, a + [line] + b) == ParseLines(modes, a + b)
  {
    RunLinesAppend(ParseLine, modes, a, [line] + b);
    RunLinesAppend(ParseLine, modes, a, b);
    assert a + [line] + b == a + ([line] + b);
    var r := ParseLines(modes, a);
    assert ([line] + b)[1..] == b;
    assert ParseLines(r.modes, [line] + b) == ParseLines(r.modes, b);
  }

  /** A line with fewer than 3 or more than 4 tokens makes parsing return 1
      at once; the lines after it are not read, and what the lines before it
      added stays in the table. */
  lemma MalformedLineStops(modes: ModeTable, a: seq<string>, line: string, b: seq<string>)
    requires !IsSkipped(line) && (|Tokens(line)| < 3 || |Tokens(line)| > 4)
    requires ParseLines(modes, a).status == Parsed
    ensures ParseLines(modes, a + [line] + b) == ParseResult(Failed(Rejected), ParseLines(modes, a).modes)
  {
    RunLinesAppend(ParseLine, modes, a, [line] + b);
    assert a + [line] + b == a + ([line] + b);
  }

  /** The id and both values of a 3- or 4-token line parse: the two values
      are appended to the id's vector, and a fourth token ends in the read of
      `tokens[4]`. */
  lemma ParseTokensValues(modes: ModeTable, tokens: seq<string>, id: PowerMode, v1: Int32, v2: Int32)
    requires 3 <= |tokens| <= 4
    requires Stoi(tokens[0]) == Value(id) && Stoi(tokens[1]) == Value(v1) && Stoi(tokens[2]) == Value(v2)
    ensures var m := modes[id := Entry(modes, id) + [v1, v2]];
            ParseTokens(modes, tokens) == if |tokens| == 3 then Next(m) else Halt(TokenIndexOutOfBounds, m)
  {
    var inserted := Insert(modes, id);
    var m1 := inserted[id := Entry(modes, id) + [v1]];
    assert PushToken(inserted, id, tokens[1]) == Next(m1);
    assert (Entry(modes, id) + [v1]) + [v2] == Entry(modes, id) + [v1, v2];
    assert m1[id := m1[id] + [v2]] == modes[id := Entry(modes, id) + [v1, v2]];
    assert PushToken(m1, id, tokens[2]) == Next(modes[id := Entry(modes, id) + [v1, v2]]);
  }

  /** A line that is not skipped is tokenized, and its tokens are parsed when
      there are 3 or 4 of them. */
  lemma ParseLineOfWords(modes: ModeTable, words: seq<string>)
    requires 3 <= |words| <= 4 && words[|words| - 1] != [] && words[0] != []
    requires words[0][0] != '#'
    requires forall i :: 0 <= i < |words| ==> ' ' !in words[i]
    ensures ParseLine(modes, Join(words, ' ')) == ParseTokens(modes, words)
  {
    var line := Join(words, ' ');
    TokensOfJoin(words);
    assert line == words[0] + [' '] + Join(words[1..], ' ');
    assert line[0] == words[0][0];
  }

  /** A line written `<id> <v1> <v2>` appends `v1` and `v2`, in that order and
      unconverted, to the vector of `id`: a new id gets exactly `[v1, v2]`, a
      repeated id keeps its old values in front. No other key changes. */
  lemma ThreeTokenLine(modes: ModeTable, id: PowerMode, v1: Int32, v2: Int32)
    ensures ParseLine(modes, Join([Show(id), Show(v1), Show(v2)], ' ')) ==
            Next(modes[id := Entry(modes, id) + [v1, v2]])
  {
    var words := [Show(id), Show(v1), Show(v2)];
    ShowShape(id); ShowShape(v1); ShowShape(v2);
    ParseLineOfWords(modes, words);
    StoiShow(id); StoiShow(v1); StoiShow(v2);
    ParseTokensValues(modes, words, id, v1, v2);
  }

  /** A line written `<id> <v1> <v2> <v3>` pushes `v1` and `v2` and then reads
      `tokens[4]` of a four-element vector: parsing ends in undefined
      behaviour rather than storing `v3`. */
  lemma FourTokenLine(modes: ModeTable, id: PowerMode, v1: Int32, v2: Int32, v3: Int32)
    ensures ParseLine(modes, Join([Show(id), Show(v1), Show(v2), Show(v3)], ' ')) ==
            Halt(TokenIndexOutOfBounds, modes[id := Entry(modes, id) + [v1, v2]])
  {
    var words := [Show(id), Show(v1), Show(v2), Show(v3)];
    ShowShape(id); ShowShape(v1); ShowShape(v2); ShowShape(v3);
    ParseLineOfWords(modes, words);
    StoiShow(id); StoiShow(v1); StoiShow(v2);
    ParseTokensValues(modes, words, id, v1, v2);
  }

  /** A doubled space after the id gives an empty second token; `stoi("")`
      throws after `insert` has run, so a new id is left with an empty vector. */
  lemma DoubledSpaceLine(modes: ModeTable, id: PowerMode, v1: Int32, v2: Int32)
    ensures ParseLine(modes, Join([Show(id), "", Show(v1), Show(v2)], ' ')) ==
            Halt(StoiThrew(InvalidArgument), modes[id := Entry(modes, id)])
  {
    var words := [Show(id), "", Show(v1), Show(v2)];
    ShowShape(id); ShowShape(v1); ShowShape(v2);
    ParseLineOfWords(modes, words);
    StoiShow(id);
    assert Insert(modes, id) == modes[id := Entry(modes, id)];
  }

  /** One space at the end of a line adds no token. */
  lemma TrailingSpaceIgnored(line: string)
    requires line != [] && line[|line| - 1] != ' '
    ensures Tokens(line + " ") == Tokens(line)
  {
    SplitSnoc(line, ' ', ' ');
    LastPieceEmpty(line, ' ');
  }

  // ---------------------------------------------------------------------------
  // The finished table, described key by key
  // ---------------------------------------------------------------------------

  /** The values a line adds for key `k` when it is a three-token line for `k`
      whose numbers all parse. */
  function LineValues(line: string, k: PowerMode): (r: seq<Int32>)
    ensures |r| == 0 || |r| == 2
  {
    if IsSkipped(line) then []
    else
      var t := Tokens(line);
      if |t| == 3 && Stoi(t[0]) == Value(k) && Stoi(t[1]).Value? && Stoi(t[2]).Value?
      then [Stoi(t[1]).value, Stoi(t[2]).value]
      else []
  }

  /** The values all lines add for key `k`, in file order. */
  function Contribution(lines: seq<string>, k: PowerMode): seq<Int32>
    decreases |lines|
  {
    if lines == [] then [] else LineValues(lines[0], k) + Contribution(lines[1..], k)
  }

  /** A line that lets parsing go on adds, for each key, exactly its
      LineValues. */
  lemma ParseLineValues(modes: ModeTable, line: string, k: PowerMode)
    requires ParseLine(modes, line).Next?
    ensures var m := ParseLine(modes, line).modes;
            (k in m <==> k in modes || LineValues(line, k) != []) &&
            Entry(m, k) == Entry(modes, k) + LineValues(line, k)
  {
    if !IsSkipped(line) {
      var t := Tokens(line);
      assert ParseLine(modes, line) == ParseTokens(modes, t);
      ParseTokensNext(modes, t);
      var id := Stoi(t[0]).value;
      var v1 := Stoi(t[1]).value;
      var v2 := Stoi(t[2]).value;
      ParseTokensValues(modes, t, id, v1, v2);
      assert LineValues(line, k) == if k == id then [v1, v2] else [];
    }
  }

  /** Parsing goes on after a line only when it has three tokens that all
      parse as numbers. */
  lemma ParseTokensNext(modes: ModeTable, tokens: seq<string>)
    requires 3 <= |tokens| <= 4 && ParseTokens(modes, tokens).Next?
    ensures |tokens| == 3 && Stoi(tokens[0]).Value? && Stoi(tokens[1]).Value? && Stoi(tokens[2]).Value?
  {
    var index := Stoi(tokens[0]).value;
    var inserted := Insert(modes, index);
    assert PushToken(inserted, index, tokens[1]).Next?;
    var m1 := PushToken(inserted, index, tokens[1]).modes;
    assert PushToken(m1, index, tokens[2]).Next?;
  }

  /** When parsing gets to the end of the file, the vector of every key is
      its old vector followed by the values of each line for that key, in
      file order, and the keys are the old keys plus the ids of those lines:
      repeated ids append rather than overwrite. */
  lemma {:induction false} ParsedTable(modes: ModeTable, lines: seq<string>, k: PowerMode)
    requires ParseLines(modes, lines).status == Parsed
    ensures var m := ParseLines(modes, lines).modes;
            (k in m <==> k in modes || Contribution(lines, k) != []) &&
            Entry(m, k) == Entry(modes, k) + Contribution(lines, k)
    decreases |lines|
  {
    if lines != [] {
      var line := lines[0];
      match ParseLine(modes, line)
      case Next(m1) =>
        assert ParseLines(modes, lines) == ParseLines(m1, lines[1..]);
        ParsedTable(m1, lines[1..], k);
        ParseLineValues(modes, line, k);
        EntryChain(modes, m1, ParseLines(m1, lines[1..]).modes, k, LineValues(line, k), Contribution(lines[1..], k));
    }
  }

  /** Two steps that each append values for `k` append their concatenation. */
  lemma EntryChain(m0: ModeTable, m1: ModeTable, m2: ModeTable, k: PowerMode, here: seq<Int32>, later: seq<Int32>)
    requires (k in m1 <==> k in m0 || here != []) && Entry(m1, k) == Entry(m0, k) + here
    requires (k in m2 <==> k in m1 || later != []) && Entry(m2, k) == Entry(m1, k) + later
    ensures (k in m2 <==> k in m0 || here + later != []) && Entry(m2, k) == Entry(m0, k) + (here + later)
  {
  }

  /** The number of lines that add values for key `k`. */
  function NamingLines(lines: seq<string>, k: PowerMode): nat
    decreases |lines|
  {
    if lines == [] then 0
    else (if LineValues(lines[0], k) == [] then 0 else 1) + NamingLines(lines[1..], k)
  }

  /** Parsed from an empty table, every key holds exactly two values per line
      that names it, and at least one line names it. */
  lemma ParsedEntriesPaired(lines: seq<string>)
    requires ParseLines(map[], lines).status == Parsed
    ensures var m := ParseLines(map[], lines).modes;
            forall k :: k in m ==> |m[k]| == 2 * NamingLines(lines, k) && NamingLines(lines, k) >= 1
  {
    forall k | k in ParseLines(map[], lines).modes
      ensures var m := ParseLines(map[], lines).modes;
              |m[k]| == 2 * NamingLines(lines, k) && NamingLines(lines, k) >= 1
    {
      ParsedTable(map[], lines, k);
      ContributionPaired(lines, k);
    }
  }

  /** Each line adds no value or two values for a key. */
  lemma {:induction false} ContributionPaired(lines: seq<string>, k: PowerMode)
    ensures |Contribution(lines, k)| == 2 * NamingLines(lines, k)
    decreases |lines|
  {
    if lines != [] {
      var v := LineValues(lines[0], k);
      assert |v| == 0 || |v| == 2;
      assert Contribution(lines, k) == v + Contribution(lines[1..], k);
      ContributionPaired(lines[1..], k);
    }
  }

  /** Unless a `stoi` threw, every vector in the table still holds at least
      two values when parsing ends: the getters may index `[0]` and `[1]`. */
  lemma {:induction false} ParseKeepsWellFormed(modes: ModeTable, lines: seq<string>)
    requires WellFormed(modes)
    requires !ParseLines(modes, lines).status.Failed? || !ParseLines(modes, lines).status.failure.StoiThrew?
    ensures WellFormed(ParseLines(modes, lines).modes)
    decreases |lines|
  {
    if lines != [] {
      match ParseLine(modes, lines[0])
      case Halt(_, m) =>
      case Next(m) => ParseKeepsWellFormed(m, lines[1..]);
    }
  }
}
