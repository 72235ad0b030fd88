/**
 go/solcover/solcover.go: from a program counter to the source location of its instruction, through an index of
 the byte code and a compressed source map.
 */
module SolCover {
  import opened Strings
  import opened Results

  // ---- Byte code.

  type Byte = x: nat | x < 256

  const PUSH0: nat := 0x5f
  const PUSH32: nat := 0x7f

  predicate IsPush(op: Byte) {
    PUSH0 <= op <= PUSH32
  }

  /** The bytes of data that follow an op code. */
  function DataSize(op: Byte): nat {
    if IsPush(op) then op - PUSH0 else 0
  }

  /** PUSH1 to PUSH32, the op codes from 0x60 on, are followed by 1 to 32 bytes, and no others by any. */
  lemma DataFollowsPushes(op: Byte)
    ensures 0x60 <= op < 0x80 ==> DataSize(op) == op - 0x60 + 1
    ensures op < 0x60 || op >= 0x80 ==> DataSize(op) == 0
  {
  }

  /** PUSH1 0x80 MSTORE: two instructions. */
  lemma PushedByteIsNoInstruction(code: seq<Byte>)
    requires code == [0x60, 0x80, 0x52]
    ensures Starts(code, 0) == [0, 2]
  {
    assert Starts(code, 3) == [];
    assert Starts(code, 2) == [2];
  }

  /** Where the instructions start, from pc on. */
  function Starts(code: seq<Byte>, pc: nat): (starts: seq<nat>)
    ensures forall i :: 0 <= i < |starts| ==> pc <= starts[i] < |code|
    decreases |code| - pc
  {
    if pc >= |code| then [] else [pc] + Starts(code, pc + 1 + DataSize(code[pc]))
  }

  /** The index maps each of these program counters, in order, to its ordinal, and nothing else. */
  ghost predicate Indexes(instructions: map<nat, nat>, starts: seq<nat>) {
    && (forall pc: nat :: pc in instructions <==> pc in starts)
    && (forall i :: 0 <= i < |starts| ==> instructions[starts[i]] == i)
  }

  lemma IndexGrows(instructions: map<nat, nat>, starts: seq<nat>, pc: nat)
    requires Indexes(instructions, starts) && forall i :: 0 <= i < |starts| ==> starts[i] < pc
    ensures Indexes(instructions[pc := |starts|], starts + [pc])
  {
    var more := starts + [pc];
    assert forall x: nat :: x in more <==> x in starts || x == pc;
  }

  lemma FirstStart(code: seq<Byte>, pc: nat)
    ensures pc < |code| ==> Starts(code, pc) == [pc] + Starts(code, pc + 1 + DataSize(code[pc]))
    ensures pc >= |code| ==> Starts(code, pc) == []
  {
  }

  lemma NothingIndexed()
    ensures Indexes(map[], [])
  {
  }

  /** parseCode: the ordinal of the instruction at each program counter, and the op codes by ordinal. */
  method ParseCode(code: seq<Byte>) returns (instructions: map<nat, nat>, opCodes: seq<Byte>)
    ensures |opCodes| == |Starts(code, 0)|
    ensures forall i :: 0 <= i < |opCodes| ==> opCodes[i] == code[Starts(code, 0)[i]]
    ensures Indexes(instructions, Starts(code, 0))
  {
    hide Indexes, Starts;
    instructions, opCodes := map[], [];
    var pc := 0;
    ghost var starts: seq<nat> := Starts(code, 0);
    NothingIndexed();
    while pc < |code|
      invariant |opCodes| <= |starts| && starts[|opCodes|..] == Starts(code, pc)
      invariant forall i :: 0 <= i < |opCodes| ==> starts[i] < pc
      invariant forall i :: 0 <= i < |opCodes| ==> opCodes[i] == code[starts[i]]
      invariant Indexes(instructions, starts[..|opCodes|])
      decreases |code| - pc
    {
      var k := |opCodes|;
      FirstStart(code, pc);
      assert starts[k..][0] == pc && starts[k..][1..] == starts[k + 1..];
      assert starts[..k + 1] == starts[..k] + [pc];
      IndexGrows(instructions, starts[..k], pc);
      instructions := instructions[pc := k];
      var c := code[pc];
      opCodes := opCodes + [c];
      if IsPush(c) {
        pc := pc + (c - PUSH0);
      }
      pc := pc + 1;
    }
    FirstStart(code, pc);
    assert starts[..|opCodes|] == starts;
  }

  /** An instruction, with the data it pushes. */
  datatype Instruction = Instruction(op: Byte, data: seq<Byte>) {
    predicate Valid() {
      |data| == DataSize(op)
    }
  }

  function Assemble(program: seq<Instruction>): seq<Byte> {
    if program == [] then [] else [program[0].op] + program[0].data + Assemble(program[1..])
  }

  /** The offset of instruction i of a program. */
  function Offset(program: seq<Instruction>, i: nat): nat
    requires i <= |program|
  {
    if i == 0 then 0 else 1 + |program[0].data| + Offset(program[1..], i - 1)
  }

  /** The index recovers a program from its bytes: instruction i starts at its offset, and nothing else starts. */
  lemma {:induction false} StartsOfProgram(program: seq<Instruction>, before: seq<Byte>)
    requires forall i :: 0 <= i < |program| ==> program[i].Valid()
    ensures var starts := Starts(before + Assemble(program), |before|);
            |starts| == |program| &&
            forall i :: 0 <= i < |program| ==>
              starts[i] == |before| + Offset(program, i) && (before + Assemble(program))[starts[i]] == program[i].op
    decreases |program|
  {
    var code := before + Assemble(program);
    if program != [] {
      var first, rest := program[0], program[1..];
      var head := before + [first.op] + first.data;
      assert program[0].Valid();
      assert code == head + Assemble(rest);
      StartsOfProgram(rest, head);
      assert code[|before|] == first.op;
      var starts := Starts(code, |before|);
      assert starts == [|before|] + Starts(code, |head|);
      forall i | 0 <= i < |program|
        ensures starts[i] == |before| + Offset(program, i) && code[starts[i]] == program[i].op
      {
        if i > 0 {
          assert rest[i - 1] == program[i];
        }
      }
    }
  }

  // ---- Source maps.

  const FIELDS: nat := 5

  /** A node s:l:f:j:m, in full. */
  type Node = n: seq<string> | |n| == FIELDS witness ["", "", "", "", ""]

  const BLANK: Node := ["", "", "", "", ""]

  /** The node that some fields stand for after a given one: blank and missing fields are repeated. */
  function Expand(last: Node, fields: seq<string>): Node {
    seq(FIELDS, j requires 0 <= j < FIELDS => if j < |fields| && fields[j] != "" then fields[j] else last[j])
  }

  function ExpandAll(texts: seq<string>): (nodes: seq<Node>)
    ensures |nodes| == |texts|
    decreases |texts|
  {
    if texts == [] then []
    else
      var before := ExpandAll(texts[..|texts| - 1]);
      before + [Expand(LastNode(before), Split(texts[|texts| - 1], ':'))]
  }

  function LastNode(nodes: seq<Node>): Node {
    if nodes == [] then BLANK else nodes[|nodes| - 1]
  }

  /** Lines and columns, from 1; 0 when unknown. */
  datatype Span = Span(line: int, col: int, endLine: int, endCol: int)

  const NO_SPAN := Span(0, 0, 0, 0)

  /** The op code is filled in when the contract is registered. */
  datatype Location = Location(number: nat, opCode: Byte, start: int, length: int, fileIdx: int, source: Option<string>,
                               jump: string, modifierDepth: int, span: Span)

  /** What is registered of a source file: its length, and its line and column by offset, from 0. */
  datatype Mapper = Mapper(len: nat, lineAndColumn: int -> Option<(int, int)>)
  type SourceCode = map<string, Mapper>

  const MAX_INT: int := 0x7FFF_FFFF_FFFF_FFFF
  const MIN_INT: int := -0x8000_0000_0000_0000

  function Digits(s: string): Option<nat> {
    if s == "" then Some(0)
    else
      var last := s[|s| - 1];
      match Digits(s[..|s| - 1])
      case None => None
      case Some(n) => if '0' <= last <= '9' then Some(10 * n + (last - '0') as nat) else None
  }

  /** strconv.Atoi: an optional sign and at least one digit, in the range of int. */
  function Atoi(s: string): Option<int> {
    var signed := s != "" && (s[0] == '-' || s[0] == '+');
    var digits := if signed then s[1..] else s;
    if digits == "" then None
    else
      match Digits(digits)
      case None => None
      case Some(n) =>
        var v: int := if signed && s[0] == '-' then 0 - n else n;
        if MIN_INT <= v <= MAX_INT then Some(v) else None
  }

  /** An int sum, wrapped around. */
  function Wrap(x: int): int {
    (x - MIN_INT) % (MAX_INT - MIN_INT + 1) + MIN_INT
  }

  /** A file that is not registered is a nil pointer, and dereferenced. */
  datatype Outcome = Done(loc: Location) | Fails | Panics

  /** locationFromNode. */
  function LocationFromNode(number: nat, node: Node, sources: seq<string>, files: SourceCode): Outcome {
    var (start, length, fileIdx, depth) := (Atoi(node[0]), Atoi(node[1]), Atoi(node[2]), Atoi(node[4]));
    if start.None? || length.None? || fileIdx.None? || depth.None? then Fails
    else
      var idx := if start.value < 0 || length.value < 0 || fileIdx.value < 0 then MAX_INT else fileIdx.value;
      var loc := Location(number, 0, start.value, length.value, idx, None, node[3], depth.value, NO_SPAN);
      if idx >= |sources| then Done(loc) else Placed(loc.(source := Some(sources[idx])), sources[idx], files)
  }

  /** The location with lines and columns; of equal offsets only the end is filled in. */
  function Placed(loc: Location, source: string, files: SourceCode): Outcome {
    if source !in files then Panics
    else if files[source].len == 0 then Done(loc)
    else
      var end := Wrap(loc.start + loc.length);
      match (files[source].lineAndColumn(loc.start), files[source].lineAndColumn(end))
      case (Some((l, c)), Some((m, d))) =>
        Done(loc.(span := if end == loc.start then Span(0, 0, m + 1, d + 1) else Span(l + 1, c + 1, m + 1, d + 1)))
      case _ => Fails
  }

  /** Negative numbers stand for no file: an index beyond any list. */
  function FileIndex(start: int, length: int, written: int): int {
    if start < 0 || length < 0 || written < 0 then MAX_INT else written
  }

  /** What a location says is what its node says, with the lines and columns of a registered file. */
  ghost predicate Describes(number: nat, node: Node, sources: seq<string>, files: SourceCode, loc: Location) {
    && loc.number == number
    && Atoi(node[0]) == Some(loc.start) && Atoi(node[1]) == Some(loc.length)
    && Atoi(node[4]) == Some(loc.modifierDepth) && loc.jump == node[3]
    && Atoi(node[2]).Some?
    && loc.fileIdx == FileIndex(loc.start, loc.length, Atoi(node[2]).value)
    && loc.source == (if loc.fileIdx < |sources| then Some(sources[loc.fileIdx]) else None)
    && if loc.source.None? || (loc.source.value in files && files[loc.source.value].len == 0) then loc.span == NO_SPAN
       else loc.source.value in files && IsSpanOf(loc, files[loc.source.value])
  }

  /** Lines and columns count from 1: those of the end, and if the location is not empty, of the start. */
  ghost predicate IsSpanOf(loc: Location, file: Mapper) {
    && file.lineAndColumn(Wrap(loc.start + loc.length)) == Some((loc.span.endLine - 1, loc.span.endCol - 1))
    && if loc.length == 0 then loc.span.line == loc.span.col == 0
       else file.lineAndColumn(loc.start) == Some((loc.span.line - 1, loc.span.col - 1))
  }

  lemma EndsApart(start: int, length: int)
    requires 0 <= start <= MAX_INT && 0 <= length <= MAX_INT
    ensures Wrap(start + length) == start <==> length == 0
  {
  }

  lemma AtoiInRange(s: string)
    ensures Atoi(s).Some? ==> MIN_INT <= Atoi(s).value <= MAX_INT
  {
  }

  /** Every location there is describes its node. */
  lemma LocationDescribes(number: nat, node: Node, sources: seq<string>, files: SourceCode)
    requires LocationFromNode(number, node, sources, files).Done? && |sources| <= MAX_INT
    ensures Describes(number, node, sources, files, LocationFromNode(number, node, sources, files).loc)
  {
    AtoiInRange(node[0]);
    AtoiInRange(node[1]);
    hide Atoi, Wrap;
    var loc := LocationFromNode(number, node, sources, files).loc;
    if loc.fileIdx < |sources| {
      EndsApart(loc.start, loc.length);
    }
  }

  // ---- Numbers.

  function Decimal(n: nat): string {
    var last := ['0' + (n % 10) as char];
    if n < 10 then last else Decimal(n / 10) + last
  }

  lemma {:induction false} DigitsOfDecimal(n: nat)
    ensures Decimal(n) != "" && '0' <= Decimal(n)[0] <= '9' && Digits(Decimal(n)) == Some(n)
  {
    var s := Decimal(n);
    var last := ['0' + (n % 10) as char];
    if n < 10 {
      assert s == last && s[..0] == "" && Digits("") == Some(0);
    } else {
      DigitsOfDecimal(n / 10);
      assert s[..|s| - 1] == Decimal(n / 10);
    }
  }

  /** Every int is read from its decimal digits, with a sign if it is negative. */
  lemma AtoiReadsDecimals(v: int)
    requires MIN_INT <= v <= MAX_INT
    ensures v >= 0 ==> Atoi(Decimal(v)) == Some(v)
    ensures v < 0 ==> Atoi("-" + Decimal(0 - v)) == Some(v)
  {
    hide Decimal, Digits;
    if v >= 0 {
      DigitsOfDecimal(v);
    } else {
      DigitsOfDecimal(0 - v);
      assert ("-" + Decimal(0 - v))[1..] == Decimal(0 - v);
    }
  }

  /** What is read as digits is digits, all of it. */
  lemma {:induction false} DigitsExactly(s: string)
    ensures Digits(s).Some? <==> forall i :: 0 <= i < |s| ==> '0' <= s[i] <= '9'
    decreases |s|
  {
    if s != "" {
      var n := |s| - 1;
      DigitsExactly(s[..n]);
      if forall i :: 0 <= i < |s| ==> '0' <= s[i] <= '9' {
        assert forall i :: 0 <= i < n ==> '0' <= s[..n][i] <= '9';
      } else {
        var i :| 0 <= i < |s| && !('0' <= s[i] <= '9');
        assert i < n ==> s[..n][i] == s[i];
      }
    }
  }

  /** Some node does not give a location, and it is the first such. */
  ghost predicate Stops(nodes: seq<Node>, sources: seq<string>, files: SourceCode, outcome: Outcome) {
    exists i :: IsFirstStop(nodes, sources, files, outcome, i)
  }

  ghost predicate IsFirstStop(nodes: seq<Node>, sources: seq<string>, files: SourceCode, outcome: Outcome, i: int) {
    && 0 <= i < |nodes| && !outcome.Done? && LocationFromNode(i, nodes[i], sources, files) == outcome
    && forall k :: 0 <= k < i ==> LocationFromNode(k, nodes[k], sources, files).Done?
  }

  /** The node names, by its index, a file of the source list that is not registered. */
  ghost predicate NamesUnregistered(node: Node, sources: seq<string>, files: SourceCode) {
    match (Atoi(node[0]), Atoi(node[1]), Atoi(node[2]), Atoi(node[4]))
    case (Some(start), Some(length), Some(idx), Some(_)) =>
      start >= 0 && length >= 0 && 0 <= idx < |sources| && sources[idx] !in files
    case _ => false
  }

  /**
   What a node must be for a location: four numbers, and either an index outside of the source list (as is a negative
   one, or that of a negative range) or that of a registered file, empty or with both ends of the range inside.
   */
  ghost predicate Locatable(node: Node, sources: seq<string>, files: SourceCode) {
    match (Atoi(node[0]), Atoi(node[1]), Atoi(node[2]), Atoi(node[4]))
    case (Some(start), Some(length), Some(idx), Some(_)) =>
      start < 0 || length < 0 || !(0 <= idx < |sources|) || IsMapped(sources[idx], start, length, files)
    case _ => false
  }

  ghost predicate IsMapped(source: string, start: int, length: int, files: SourceCode) {
    source in files &&
    (files[source].len == 0 ||
     (files[source].lineAndColumn(start).Some? && files[source].lineAndColumn(Wrap(start + length)).Some?))
  }

  /** A node gives a location exactly when it is locatable; if not, an unregistered file panics and all else fails. */
  lemma LocatedExactly(number: nat, node: Node, sources: seq<string>, files: SourceCode)
    requires |sources| <= MAX_INT
    ensures var outcome := LocationFromNode(number, node, sources, files);
            && (outcome.Done? <==> Locatable(node, sources, files))
            && (outcome.Panics? <==> NamesUnregistered(node, sources, files))
  {
    hide Atoi, Wrap;
  }

  /**
   RegisterSourceCode says that locations in files that are not registered have no line and column numbers. In fact
   the first node that names such a file ends the registration of its contract, unless an earlier node does.
   */
  lemma PanicsExactly(nodes: seq<Node>, sources: seq<string>, files: SourceCode)
    requires |sources| <= MAX_INT
    ensures Stops(nodes, sources, files, Panics) <==> exists i :: IsFirstUnregistered(nodes, sources, files, i)
    ensures Stops(nodes, sources, files, Fails) || Stops(nodes, sources, files, Panics) <==>
            exists i :: 0 <= i < |nodes| && !Locatable(nodes[i], sources, files)
  {
    hide LocationFromNode, Locatable, NamesUnregistered;
    forall i | 0 <= i < |nodes|
      ensures var outcome := LocationFromNode(i, nodes[i], sources, files);
              && (outcome.Done? <==> Locatable(nodes[i], sources, files))
              && (outcome.Panics? <==> NamesUnregistered(nodes[i], sources, files))
    {
      LocatedExactly(i, nodes[i], sources, files);
    }
    if i :| IsFirstUnregistered(nodes, sources, files, i) {
      assert IsFirstStop(nodes, sources, files, Panics, i);
    }
    if i :| IsFirstStop(nodes, sources, files, Panics, i) {
      assert IsFirstUnregistered(nodes, sources, files, i);
    }
    if i :| 0 <= i < |nodes| && !Locatable(nodes[i], sources, files) {
      FirstStopIsThere(nodes, sources, files, i);
    }
  }

  ghost predicate IsFirstUnregistered(nodes: seq<Node>, sources: seq<string>, files: SourceCode, i: int) {
    && 0 <= i < |nodes| && NamesUnregistered(nodes[i], sources, files)
    && forall k :: 0 <= k < i ==> Locatable(nodes[k], sources, files)
  }

  lemma {:induction false} FirstStopIsThere(nodes: seq<Node>, sources: seq<string>, files: SourceCode, i: nat)
    requires i < |nodes| && !LocationFromNode(i, nodes[i], sources, files).Done?
    ensures Stops(nodes, sources, files, Fails) || Stops(nodes, sources, files, Panics)
    decreases i
  {
    hide LocationFromNode;
    if k :| 0 <= k < i && !LocationFromNode(k, nodes[k], sources, files).Done? {
      FirstStopIsThere(nodes, sources, files, k);
    } else {
      assert IsFirstStop(nodes, sources, files, LocationFromNode(i, nodes[i], sources, files), i);
    }
  }

  /** What parseSrcMap comes to. */
  datatype Parse = Parsed(locations: seq<Location>) | ParseFails | ParsePanics

  /** parseSrcMap: the locations of the expanded nodes, unless one of them fails or panics; then the first decides. */
  method ParseSrcMap(srcMap: string, sources: seq<string>, files: SourceCode) returns (r: Parse)
    ensures var nodes := ExpandAll(Split(srcMap, ';'));
            match r
            case Parsed(locations) =>
              |locations| == |nodes| &&
              (forall i :: 0 <= i < |nodes| ==> LocationFromNode(i, nodes[i], sources, files) == Done(locations[i])) &&
              (|sources| <= MAX_INT ==>
                 forall i :: 0 <= i < |nodes| ==> Describes(i, nodes[i], sources, files, locations[i]))
            case ParseFails => Stops(nodes, sources, files, Fails)
            case ParsePanics => Stops(nodes, sources, files, Panics)
  {
    hide LocationFromNode, Expand, ExpandAll, Split, Describes;
    var instructions := Split(srcMap, ';');
    ghost var nodes := ExpandAll(instructions);
    var last: Node, curr: Node := BLANK, BLANK;
    var locations: seq<Location> := [];
    for i := 0 to |instructions|
      invariant last == curr == LastNode(nodes[..i]) && |locations| == i
      invariant forall k :: 0 <= k < i ==> LocationFromNode(k, nodes[k], sources, files) == Done(locations[k])
      invariant |sources| <= MAX_INT ==>
                  forall k :: 0 <= k < i ==> Describes(k, nodes[k], sources, files, locations[k])
    {
      ExpandedNode(instructions, i);
      var fields := Split(instructions[i], ':');
      last, curr := FillIn(last, fields);
      assert curr == nodes[i] && nodes[..i + 1][i] == nodes[i];
      var outcome := LocationFromNode(i, curr, sources, files);
      if !outcome.Done? {
        assert IsFirstStop(nodes, sources, files, outcome, i);
        return if outcome.Fails? then ParseFails else ParsePanics;
      }
      if |sources| <= MAX_INT {
        LocationDescribes(i, curr, sources, files);
      }
      locations := locations + [outcome.loc];
    }
    return Parsed(locations);
  }

  // The inner loop of parseSrcMap: curr starts as the previous node, overwritten by the fields there are.
  method FillIn(previous: Node, fields: seq<string>) returns (last: Node, curr: Node)
    ensures last == curr == Expand(previous, fields)
  {
    last := previous;
    curr := seq(FIELDS, j requires 0 <= j < FIELDS => if j < |fields| then fields[j] else previous[j]);
    for j := 0 to FIELDS
      invariant forall k :: 0 <= k < j ==> last[k] == curr[k] == Expand(previous, fields)[k]
      invariant forall k :: j <= k < FIELDS ==> last[k] == previous[k]
      invariant forall k :: j <= k < FIELDS ==> curr[k] == if k < |fields| then fields[k] else previous[k]
    {
      if curr[j] != "" {
        last := last[j := curr[j]];
      } else {
        curr := curr[j := last[j]];
      }
    }
  }

  lemma {:induction false} ExpandedPrefix(texts: seq<string>, i: nat)
    requires i <= |texts|
    ensures ExpandAll(texts)[..i] == ExpandAll(texts[..i])
    decreases |texts|
  {
    if i == |texts| {
      assert texts[..i] == texts;
    } else {
      var most := texts[..|texts| - 1];
      ExpandedPrefix(most, i);
      assert most[..i] == texts[..i];
      assert ExpandAll(texts)[..i] == ExpandAll(most)[..i];
    }
  }

  lemma ExpandedLast(texts: seq<string>)
    requires texts != []
    ensures var n := |texts| - 1;
            ExpandAll(texts)[n] == Expand(LastNode(ExpandAll(texts[..n])), Split(texts[n], ':'))
  {
  }

  /** Node i of the expansion is the fields of text i, completed from the node before. */
  lemma ExpandedNode(texts: seq<string>, i: nat)
    requires i < |texts|
    ensures ExpandAll(texts)[i] == Expand(LastNode(ExpandAll(texts)[..i]), Split(texts[i], ':'))
  {
    hide *;
    var all, upTo := ExpandAll(texts), texts[..i + 1];
    ExpandedPrefix(texts, i);
    ExpandedPrefix(texts, i + 1);
    ExpandedLast(upTo);
    assert upTo[..i] == texts[..i] && upTo[i] == texts[i];
    var node := Expand(LastNode(ExpandAll(upTo[..i])), Split(upTo[i], ':'));
    assert all[..i + 1][i] == node;
  }

  // ---- Compression.

  /** The fields are a legal way to write a node after another: each is written out, or blank or missing if repeated. */
  ghost predicate Writes(last: Node, node: Node, fields: seq<string>) {
    && 1 <= |fields| <= FIELDS
    && Free(fields, ':') && Free(fields, ';')
    && forall j :: 0 <= j < FIELDS ==>
         if j < |fields| && fields[j] != "" then fields[j] == node[j] else last[j] == node[j]
  }

  /** A legal compression of a sequence of nodes. */
  ghost predicate Compresses(nodes: seq<Node>, written: seq<seq<string>>) {
    |written| == |nodes| && forall i :: 0 <= i < |nodes| ==> Writes(LastNode(nodes[..i]), nodes[i], written[i])
  }

  function Text(written: seq<seq<string>>): (texts: seq<string>)
    ensures |texts| == |written|
  {
    seq(|written|, i requires 0 <= i < |written| => Join(written[i], ':'))
  }

  /** One text expands to its node. */
  lemma TextExpands(last: Node, node: Node, fields: seq<string>)
    requires Writes(last, node, fields)
    ensures Expand(last, Split(Join(fields, ':'), ':')) == node
  {
    SplitUndoesJoin(fields, ':');
  }

  lemma CompressesPrefix(nodes: seq<Node>, written: seq<seq<string>>, n: nat)
    requires Compresses(nodes, written) && n <= |nodes|
    ensures Compresses(nodes[..n], written[..n])
  {
    forall i | 0 <= i < n
      ensures Writes(LastNode(nodes[..n][..i]), nodes[..n][i], written[..n][i])
    {
      assert nodes[..n][..i] == nodes[..i];
      assert Writes(LastNode(nodes[..i]), nodes[i], written[i]);
    }
  }

  lemma SameLength(nodes: seq<Node>, written: seq<seq<string>>)
    requires Compresses(nodes, written)
    ensures |written| == |nodes|
  {
  }

  lemma LastWrites(nodes: seq<Node>, written: seq<seq<string>>)
    requires Compresses(nodes, written) && nodes != []
    ensures Writes(LastNode(nodes[..|nodes| - 1]), nodes[|nodes| - 1], written[|nodes| - 1])
    ensures |written| == |nodes|
  {
  }

  lemma {:induction false} TextsExpand(nodes: seq<Node>, written: seq<seq<string>>)
    requires Compresses(nodes, written)
    ensures ExpandAll(Text(written)) == nodes
    decreases |nodes|
  {
    hide *;
    SameLength(nodes, written);
    if nodes == [] {
      NothingExpands(written);
    } else {
      var n := |nodes| - 1;
      CompressesPrefix(nodes, written, n);
      TextsExpand(nodes[..n], written[..n]);
      LastWrites(nodes, written);
      TextExpands(LastNode(nodes[..n]), nodes[n], written[n]);
      LastText(written);
      assert nodes == nodes[..n] + [nodes[n]];
    }
  }

  lemma NothingExpands(written: seq<seq<string>>)
    requires written == []
    ensures ExpandAll(Text(written)) == []
  {
  }

  lemma LastText(written: seq<seq<string>>)
    requires written != []
    ensures var before := ExpandAll(Text(written[..|written| - 1]));
            ExpandAll(Text(written)) ==
            before + [Expand(LastNode(before), Split(Join(written[|written| - 1], ':'), ':'))]
  {
    hide Expand, LastNode, Split, Join;
    var n := |written| - 1;
    assert Text(written)[..n] == Text(written[..n]);
  }

  lemma FieldsHaveNoSemicolon(fields: seq<string>)
    requires Free(fields, ';')
    ensures ';' !in Join(fields, ':')
  {
    JoinContains(fields, ':', ';');
  }

  /** Decompression undoes every legal compression of every sequence of nodes. */
  lemma DecompressionUndoesCompression(nodes: seq<Node>, written: seq<seq<string>>)
    requires |nodes| > 0 && Compresses(nodes, written)
    ensures ExpandAll(Split(Join(Text(written), ';'), ';')) == nodes
  {
    var texts := Text(written);
    forall i | 0 <= i < |texts|
      ensures ';' !in texts[i]
    {
      assert Writes(LastNode(nodes[..i]), nodes[i], written[i]);
      FieldsHaveNoSemicolon(written[i]);
    }
    SplitUndoesJoin(texts, ';');
    TextsExpand(nodes, written);
  }

  /** The compressor's way: repeated fields blank, trailing blanks dropped. */
  function Shortest(last: Node, node: Node): seq<string> {
    DropBlanks(seq(FIELDS, j requires 0 <= j < FIELDS => if node[j] == last[j] then "" else node[j]))
  }

  function DropBlanks(fields: seq<string>): (r: seq<string>)
    requires |fields| > 0
    ensures 1 <= |r| <= |fields| && r == fields[..|r|]
    ensures forall j :: |r| <= j < |fields| ==> fields[j] == ""
  {
    if |fields| > 1 && fields[|fields| - 1] == "" then DropBlanks(fields[..|fields| - 1]) else fields
  }

  /** The shortest form is legal, for nodes of non-empty fields without separators. */
  lemma ShortestIsLegal(last: Node, node: Node)
    requires forall j :: 0 <= j < FIELDS ==> node[j] != "" && ':' !in node[j] && ';' !in node[j]
    ensures Writes(last, node, Shortest(last, node))
  {
    var full := seq(FIELDS, j requires 0 <= j < FIELDS => if node[j] == last[j] then "" else node[j]);
    var fields := Shortest(last, node);
    assert fields == full[..|fields|];
    forall j | 0 <= j < |fields|
      ensures ':' !in fields[j] && ';' !in fields[j]
    {
      assert fields[j] == full[j];
    }
    forall j | 0 <= j < FIELDS
      ensures if j < |fields| && fields[j] != "" then fields[j] == node[j] else last[j] == node[j]
    {
      assert j < |fields| ==> fields[j] == full[j];
      assert j >= |fields| ==> full[j] == "";
    }
  }

  // ---- One source map.

  /** A node for the first byte of the first source file. */
  const FIRST_BYTE: Node := ["0", "1", "0", "-", "0"]

  /** A node written out in full is a source map of its own. */
  lemma OneNode(node: Node)
    requires forall j :: 0 <= j < FIELDS ==> node[j] != "" && ':' !in node[j] && ';' !in node[j]
    ensures ExpandAll(Split(Join(node, ':'), ';')) == [node]
  {
    hide ExpandAll, Split, Join;
    assert Writes(BLANK, node, node);
    var nodes, written := [node], [node];
    forall i | 0 <= i < 1
      ensures Writes(LastNode(nodes[..i]), nodes[i], written[i])
    {
    }
    DecompressionUndoesCompression(nodes, written);
    assert Text(written) == [Join(node, ':')];
    JoinOne(Join(node, ':'), ';');
  }

  lemma FirstByteText()
    ensures Join(FIRST_BYTE, ':') == "0:1:0:-:0"
  {
  }

  lemma FirstByteFields()
    ensures Atoi("0") == Some(0) && Atoi("1") == Some(1)
  {
    assert Digits("") == Some(0);
  }

  /** The source map 0:1:0:-:0 panics if its file is not registered, and does not if that is registered and empty. */
  lemma UnregisteredFilePanics(m: Mapper)
    requires m.len == 0
    ensures ExpandAll(Split("0:1:0:-:0", ';')) == [FIRST_BYTE]
    ensures Stops([FIRST_BYTE], ["a"], map[], Panics) && !Stops([FIRST_BYTE], ["a"], map["a" := m], Panics)
  {
    hide ExpandAll, Split, Join, LocationFromNode, Atoi, Stops;
    FirstByteText();
    OneNode(FIRST_BYTE);
    FirstByteFields();
    var nodes := [FIRST_BYTE];
    PanicsExactly(nodes, ["a"], map[]);
    assert IsFirstUnregistered(nodes, ["a"], map[], 0);
    PanicsExactly(nodes, ["a"], map["a" := m]);
  }

  lemma TwoStarts(code: seq<Byte>)
    requires code == [0, 0]
    ensures Starts(code, 0) == [0, 1]
  {
    assert Starts(code, 2) == [];
    assert Starts(code, 1) == [1];
  }

  lemma OutsideIndexIsLocated()
    ensures !Stops([FIRST_BYTE], [], map[], Fails) && !Stops([FIRST_BYTE], [], map[], Panics)
  {
    hide LocationFromNode, Atoi, Stops;
    FirstByteFields();
    PanicsExactly([FIRST_BYTE], [], map[]);
  }

  /**
   Two instructions of one byte and that source map of one node: the contract is registered with one location, and the
   program counter 1 is the start of an instruction that has none, so that looking it up is out of range.
   */
  lemma SecondInstructionHasNoLocation(code: seq<Byte>)
    requires code == [0, 0]
    ensures Starts(code, 0) == [0, 1]
    ensures var nodes := ExpandAll(Split("0:1:0:-:0", ';'));
            |nodes| == 1 && !Stops(nodes, [], map[], Fails) && !Stops(nodes, [], map[], Panics)
  {
    TwoStarts(code);
    hide *;
    FirstByteText();
    OneNode(FIRST_BYTE);
    OutsideIndexIsLocated();
  }

  // ---- Lookup.

  datatype Lookup = Found(found: Location) | NotFound | OutOfRange

  class CompiledContract {
    var instructions: map<nat, nat>
    var locations: seq<Location>
    ghost var code: seq<Byte>

    /** The index is that of the code, and no location lacks an instruction. */
    ghost predicate Valid()
      reads this
    {
      var starts: seq<nat> := Starts(code, 0);
      && |locations| <= |starts|
      && (forall pc: nat :: pc in instructions <==> pc in starts)
      && (forall i :: 0 <= i < |starts| ==> starts[i] in instructions && instructions[starts[i]] == i)
    }

    // What RegisterContract builds once the source map has no more entries than the code has instructions.
    constructor (code: seq<Byte>, locations: seq<Location>)
      requires |locations| <= |Starts(code, 0)|
      ensures Valid() && this.code == code && this.locations == locations
    {
      var index, opCodes := ParseCode(code);
      this.code := code;
      this.locations := locations;
      this.instructions := index;
    }

    /** location: a start with an entry is found; a start without one indexes past the end of a slice. */
    method LocationOf(pc: nat) returns (r: Lookup)
      requires Valid()
      ensures r == NotFound <==> pc !in Starts(code, 0)
      ensures r == OutOfRange <==> exists i :: |locations| <= i < |Starts(code, 0)| && Starts(code, 0)[i] == pc
      ensures forall i :: 0 <= i < |locations| && Starts(code, 0)[i] == pc ==> r == Found(locations[i])
    {
      if pc !in instructions {
        return NotFound;
      }
      var i := instructions[pc];
      ghost var k :| 0 <= k < |Starts(code, 0)| && Starts(code, 0)[k] == pc;
      assert i == k;
      if i >= |locations| {
        return OutOfRange;
      }
      return Found(locations[i]);
    }
  }

  /**
   RegisterContract: it panics exactly when a node of the source map gives no location, or there are more nodes than
   instructions.
   */
  method Register(code: seq<Byte>, srcMap: string, sources: seq<string>, files: SourceCode)
    returns (r: Option<CompiledContract>)
    ensures var nodes := ExpandAll(Split(srcMap, ';'));
            && (r.None? <==> |nodes| > |Starts(code, 0)| ||
                             Stops(nodes, sources, files, Fails) || Stops(nodes, sources, files, Panics))
            && (r.Some? ==> fresh(r.value) && r.value.Valid() && r.value.code == code &&
                            |r.value.locations| == |nodes| &&
                            forall i :: 0 <= i < |nodes| ==>
                              IsLocationOf(i, nodes[i], sources, files, code[Starts(code, 0)[i]], r.value.locations[i]))
  {
    hide LocationFromNode, ExpandAll, Split, Starts, IsLocationOf, Describes;
    var index, opCodes := ParseCode(code);
    var parsed := ParseSrcMap(srcMap, sources, files);
    if !parsed.Parsed? {
      return None;
    }
    var locations := parsed.locations;
    if |locations| > |opCodes| {
      return None;
    }
    for i := 0 to |locations|
      invariant |locations| == |parsed.locations|
      invariant forall k :: 0 <= k < i ==> locations[k] == parsed.locations[k].(opCode := opCodes[k])
      invariant forall k :: i <= k < |locations| ==> locations[k] == parsed.locations[k]
    {
      locations := locations[i := locations[i].(opCode := opCodes[i])];
    }
    ghost var nodes := ExpandAll(Split(srcMap, ';'));
    forall i | 0 <= i < |nodes|
      ensures IsLocationOf(i, nodes[i], sources, files, code[Starts(code, 0)[i]], locations[i])
    {
      OpCodeFilledIn(i, nodes[i], sources, files, opCodes[i], parsed.locations[i]);
    }
    var cc := new CompiledContract(code, locations);
    return Some(cc);
  }

  lemma OpCodeFilledIn(number: nat, node: Node, sources: seq<string>, files: SourceCode, op: Byte, loc: Location)
    requires LocationFromNode(number, node, sources, files) == Done(loc)
    requires |sources| <= MAX_INT ==> Describes(number, node, sources, files, loc)
    ensures IsLocationOf(number, node, sources, files, op, loc.(opCode := op))
  {
    hide LocationFromNode, Atoi, Wrap;
  }

  /** The location of a node, with the op code of its instruction. */
  ghost predicate IsLocationOf(number: nat, node: Node, sources: seq<string>, files: SourceCode, op: Byte,
                               loc: Location) {
    var parsed := LocationFromNode(number, node, sources, files);
    && parsed.Done? && loc == parsed.loc.(opCode := op)
    && (|sources| <= MAX_INT ==> Describes(number, node, sources, files, loc))
  }
}
