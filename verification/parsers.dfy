/**
 * The readers `make_consensus` (exec/miRNAconsTargets_plants.py) applies to
 * psRNATarget's table and to psRobot's alignment report, each turning the
 * tool's raw text into the common records.
 */
module Parsers {
  import opened Wrappers
  import opened Text
  import opened Records

  // ---------------------------------------------------------------------------
  // psRNATarget
  // ---------------------------------------------------------------------------

  /** One line of psRNATarget's table, stripped and cut at tabs: columns 0, 1,
      3, 6, 7 and 2 are the microRNA, the target, the energy (written with a
      leading `-`), the start, the end and the score. */
  function PsrtRow(line: string): (r: Result<Record, ParseError>)
    ensures r.Ok? <==> |SplitOn(Strip(line), "\t")| >= 8
    ensures r.Err? ==> r.error == MissingField
  {
    var cols := SplitOn(Strip(line), "\t");
    if |cols| < 8 then Err(MissingField)
    else Ok(Record(cols[0], cols[1], "-" + cols[3], cols[6], cols[7], cols[2]))
  }

  function PsrtRows(ls: seq<string>): (r: Result<seq<Record>, ParseError>)
    ensures r.Ok? ==> |r.value| == |ls|
  {
    if ls == [] then Ok([])
    else
      match PsrtRow(ls[0])
      case Err(e) => Err(e)
      case Ok(x) =>
        match PsrtRows(ls[1..])
        case Err(e) => Err(e)
        case Ok(xs) => Ok([x] + xs)
  }

  /** The rows fail exactly when one line has fewer than eight columns;
      otherwise line `i` gives record `i`. */
  lemma {:induction false} PsrtRowsPointwise(ls: seq<string>)
    ensures PsrtRows(ls).Ok? <==> forall i :: 0 <= i < |ls| ==> PsrtRow(ls[i]).Ok?
    ensures PsrtRows(ls).Ok? ==> forall i :: 0 <= i < |ls| ==> PsrtRows(ls).value[i] == PsrtRow(ls[i]).value
    decreases |ls|
  {
    if ls != [] {
      var rest := ls[1..];
      PsrtRowsPointwise(rest);
      forall i | 1 <= i < |ls| ensures rest[i - 1] == ls[i] { }
      if PsrtRow(ls[0]).Ok? && PsrtRows(rest).Ok? {
        var xs := PsrtRows(rest).value;
        assert PsrtRows(ls).value == [PsrtRow(ls[0]).value] + xs;
      }
    }
  }

  /** psRNATarget's output: two header lines read and dropped, then a record
      per line. */
  function ParsePsrt(text: string): Result<seq<Record>, ParseError> {
    var ls := Lines(text);
    PsrtRows(if |ls| <= 2 then [] else ls[2..])
  }

  /** The columns of a table row that reads back: at least eight, no tab or
      newline inside a column, and no whitespace at either end of the line. */
  predicate PsrtColumns(cols: seq<string>) {
    && |cols| >= 8
    && (forall i :: 0 <= i < |cols| ==> '\t' !in cols[i] && '\n' !in cols[i])
    && cols[0] != [] && !IsWs(cols[0][0])
    && Last(cols) != [] && !IsWs(Last(cols)[|Last(cols)| - 1])
  }

  function PsrtLine(cols: seq<string>): string {
    JoinWith(cols, "\t") + "\n"
  }

  function PsrtRecord(cols: seq<string>): Record
    requires PsrtColumns(cols)
  {
    Record(cols[0], cols[1], "-" + cols[3], cols[6], cols[7], cols[2])
  }

  lemma PsrtRowOfColumns(cols: seq<string>)
    requires PsrtColumns(cols)
    ensures PsrtRow(PsrtLine(cols)) == Ok(Record(cols[0], cols[1], "-" + cols[3], cols[6], cols[7], cols[2]))
    ensures ClosedLine(PsrtLine(cols))
  {
    var s := JoinWith(cols, "\t");
    JoinWithLast(cols, "\t");
    PrefixHead(s, cols[0]);
    assert s[|s| - 1] == Last(cols)[|Last(cols)| - 1];
    StripNewline(s);
    SplitOnJoin(cols, '\t');
    CharNotInJoin(cols, '\t', '\n');
    CloseLine(s);
  }

  function PsrtLines(rows: seq<seq<string>>): (ls: seq<string>)
    ensures |ls| == |rows| && forall i :: 0 <= i < |rows| ==> ls[i] == PsrtLine(rows[i])
  {
    seq(|rows|, i requires 0 <= i < |rows| => PsrtLine(rows[i]))
  }

  function PsrtRecords(rows: seq<seq<string>>): (rs: seq<Record>)
    requires forall i :: 0 <= i < |rows| ==> PsrtColumns(rows[i])
    ensures |rs| == |rows| && forall i :: 0 <= i < |rows| ==> rs[i] == PsrtRecord(rows[i])
  {
    seq(|rows|, i requires 0 <= i < |rows| => PsrtRecord(rows[i]))
  }

  /** Reading a table of two header lines and well-formed rows gives one
      record per row, in order, with the columns mapped as the pipeline maps
      them. */
  lemma PsrtRoundTrip(h1: string, h2: string, rows: seq<seq<string>>)
    requires ClosedLine(h1) && ClosedLine(h2)
    requires forall i :: 0 <= i < |rows| ==> PsrtColumns(rows[i])
    ensures ParsePsrt(h1 + h2 + Concat(PsrtLines(rows))) == Ok(PsrtRecords(rows))
  {
    var body := PsrtLines(rows);
    PsrtBodyLines(rows);
    HeaderThenLines(h1, h2, body);
    PsrtBodyRows(rows);
  }

  lemma PsrtBodyLines(rows: seq<seq<string>>)
    requires forall i :: 0 <= i < |rows| ==> PsrtColumns(rows[i])
    ensures forall i :: 0 <= i < |rows| ==> ClosedLine(PsrtLines(rows)[i])
  {
    forall i | 0 <= i < |rows| ensures ClosedLine(PsrtLines(rows)[i]) {
      PsrtRowOfColumns(rows[i]);
    }
  }

  lemma PsrtBodyRows(rows: seq<seq<string>>)
    requires forall i :: 0 <= i < |rows| ==> PsrtColumns(rows[i])
    ensures PsrtRows(PsrtLines(rows)) == Ok(PsrtRecords(rows))
  {
    var body := PsrtLines(rows);
    forall i | 0 <= i < |rows| ensures PsrtRow(body[i]) == Ok(PsrtRecord(rows[i])) {
      PsrtRowOfColumns(rows[i]);
    }
    PsrtRowsPointwise(body);
    assert PsrtRows(body).value == PsrtRecords(rows);
  }

  /** Two closed header lines before closed lines: the file iteration after
      two `readline` calls sees exactly the body. */
  lemma HeaderThenLines(h1: string, h2: string, body: seq<string>)
    requires ClosedLine(h1) && ClosedLine(h2)
    requires forall i :: 0 <= i < |body| ==> ClosedLine(body[i])
    ensures Lines(h1 + h2 + Concat(body)) == [h1, h2] + body
  {
    var ls := [h1, h2] + body;
    ClosedPrefix(h1, h2, body);
    ClosedLinesAreLines(ls);
    LinesOfConcat(ls);
    ConcatTwoFirst(h1, h2, body);
  }

  lemma ClosedPrefix(h1: string, h2: string, body: seq<string>)
    requires ClosedLine(h1) && ClosedLine(h2)
    requires forall i :: 0 <= i < |body| ==> ClosedLine(body[i])
    ensures forall i :: 0 <= i < |[h1, h2] + body| ==> ClosedLine(([h1, h2] + body)[i])
  {
    var ls := [h1, h2] + body;
    forall i | 0 <= i < |ls| ensures ClosedLine(ls[i]) {
      if i >= 2 { assert ls[i] == body[i - 2]; }
    }
  }

  lemma ConcatTwoFirst(h1: string, h2: string, body: seq<string>)
    ensures Concat([h1, h2] + body) == h1 + h2 + Concat(body)
  {
    var ls := [h1, h2] + body;
    assert ls[1..] == [h2] + body;
    assert ls[1..][1..] == body;
  }

  // ---------------------------------------------------------------------------
  // psRobot
  // ---------------------------------------------------------------------------

  /** One psRobot block, cut at newlines. The first line's whitespace tokens
      give `>microRNA`, `Score:<score>` and, last, the target; the fifth line's
      second and fourth tokens give the start and the end. psRobot reports no
      energy. */
  function PsRobotBlock(block: string): (r: Result<Record, ParseError>)
    ensures r.Ok? <==> var ls := SplitOn(block, "\n");
      |ls| >= 5 && |SplitWs(ls[0])| >= 2 && |SplitWs(ls[4])| >= 4
    ensures r.Err? ==> r.error == MissingField
  {
    var ls := SplitOn(block, "\n");
    var head := SplitWs(ls[0]);
    if |ls| < 5 then Err(MissingField)
    else
      var pos := SplitWs(ls[4]);
      if |pos| < 4 || |head| < 2 then Err(MissingField)
      else Ok(Record(ReplaceAll(head[0], ">", ""), Last(head), "n/a", pos[1], pos[3],
                     Strip(ReplaceAll(head[1], "Score:", ""))))
  }

  /** What every psRobot record carries: no energy, a microRNA without `>`,
      a target without whitespace and a score without surrounding whitespace. */
  predicate PsRobotShaped(r: Record) {
    && r.energy == "n/a"
    && '>' !in r.mirna
    && WsFree(r.target)
    && (r.score == [] || (!IsWs(r.score[0]) && !IsWs(r.score[|r.score| - 1])))
  }

  lemma PsRobotBlockShaped(block: string)
    ensures PsRobotBlock(block).Ok? ==> PsRobotShaped(PsRobotBlock(block).value)
  {
    var ls := SplitOn(block, "\n");
    SplitWsTokens(ls[0]);
    DeleteChar(SplitWs(ls[0])[0], '>');
  }

  /** `block.split("\n") == ['']` holds exactly for the empty block. */
  lemma EmptyBlock(block: string)
    ensures SplitOn(block, "\n") == [""] <==> block == []
  {
    if SplitOn(block, "\n") == [""] {
      assert JoinWith([""], "\n") == "";
    }
  }

  /** The blocks in order, an empty one skipped. */
  function PsRobotBlocks(bs: seq<string>): (r: Result<seq<Record>, ParseError>)
    ensures r.Ok? ==> |r.value| == NonEmptyBlocks(bs)
  {
    if bs == [] then Ok([])
    else
      EmptyBlock(bs[0]);
      if SplitOn(bs[0], "\n") == [""] then PsRobotBlocks(bs[1..])
      else
        match PsRobotBlock(bs[0])
        case Err(e) => Err(e)
        case Ok(x) =>
          match PsRobotBlocks(bs[1..])
          case Err(e) => Err(e)
          case Ok(xs) => Ok([x] + xs)
  }

  function NonEmptyBlocks(bs: seq<string>): nat {
    if bs == [] then 0 else (if bs[0] == [] then 0 else 1) + NonEmptyBlocks(bs[1..])
  }

  /** The non-empty blocks, in order. */
  function Filled(bs: seq<string>): (r: seq<string>)
    ensures |r| == NonEmptyBlocks(bs)
    ensures forall j :: 0 <= j < |r| ==> r[j] != []
  {
    if bs == [] then [] else (if bs[0] == [] then [] else [bs[0]]) + Filled(bs[1..])
  }

  /** Every item of a sequence read in order, none skipped; the first
      failure ends the read. */
  function ReadEach<T, E>(read: string -> Result<T, E>, f: seq<string>): Result<seq<T>, E> {
    if f == [] then Ok([])
    else
      match read(f[0])
      case Err(e) => Err(e)
      case Ok(x) =>
        match ReadEach(read, f[1..])
        case Err(e) => Err(e)
        case Ok(xs) => Ok([x] + xs)
  }

  lemma {:induction false} ReadEachPointwise<T, E>(read: string -> Result<T, E>, f: seq<string>)
    ensures ReadEach(read, f).Ok? <==> forall j :: 0 <= j < |f| ==> read(f[j]).Ok?
    ensures ReadEach(read, f).Ok? ==> |ReadEach(read, f).value| == |f|
    ensures ReadEach(read, f).Ok? ==> forall j :: 0 <= j < |f| ==> ReadEach(read, f).value[j] == read(f[j]).value
    decreases |f|
  {
    if f != [] {
      var rest := f[1..];
      ReadEachPointwise(read, rest);
      forall j | 1 <= j < |f| ensures rest[j - 1] == f[j] { }
      if read(f[0]).Ok? && ReadEach(read, rest).Ok? {
        var xs := ReadEach(read, rest).value;
        assert ReadEach(read, f).value == [read(f[0]).value] + xs;
      }
    }
  }

  lemma ReadEachCons<T, E>(read: string -> Result<T, E>, b: string, f: seq<string>)
    ensures ReadEach(read, [b] + f) ==
      match read(b)
      case Err(e) => Err(e)
      case Ok(x) =>
        match ReadEach(read, f)
        case Err(e) => Err(e)
        case Ok(xs) => Ok([x] + xs)
  {
    assert ([b] + f)[1..] == f;
  }

  /** The blocks fail exactly when a non-empty one lacks a field; otherwise
      record `j` comes from the `j`-th non-empty block. */
  lemma PsRobotBlocksPointwise(bs: seq<string>)
    ensures PsRobotBlocks(bs).Ok? <==> forall j :: 0 <= j < |Filled(bs)| ==> PsRobotBlock(Filled(bs)[j]).Ok?
    ensures PsRobotBlocks(bs).Ok? ==> |PsRobotBlocks(bs).value| == |Filled(bs)|
    ensures PsRobotBlocks(bs).Ok? ==> forall j :: 0 <= j < |Filled(bs)| ==>
      PsRobotBlocks(bs).value[j] == PsRobotBlock(Filled(bs)[j]).value
  {
    SkipsEmptyBlocks(bs);
    ReadEachPointwise(PsRobotBlock, Filled(bs));
  }

  /** Skipping the empty blocks is reading the non-empty ones. */
  lemma {:induction false} SkipsEmptyBlocks(bs: seq<string>)
    ensures PsRobotBlocks(bs) == ReadEach(PsRobotBlock, Filled(bs))
    decreases |bs|
  {
    if bs != [] {
      var rest := bs[1..];
      SkipsEmptyBlocks(rest);
      if bs[0] == [] {
        SkipEmptyBlock(bs);
      } else {
        ReadFilledCons(bs[0], rest);
        ReadEachCons(PsRobotBlock, bs[0], Filled(rest));
        assert Filled(bs) == [bs[0]] + Filled(rest);
      }
    }
  }

  lemma SkipEmptyBlock(bs: seq<string>)
    requires bs != [] && bs[0] == []
    ensures PsRobotBlocks(bs) == PsRobotBlocks(bs[1..]) && Filled(bs) == Filled(bs[1..])
  {
    EmptyBlock(bs[0]);
  }

  /** A non-empty first block is read, then the rest. */
  lemma ReadFilledCons(b: string, rest: seq<string>)
    requires b != []
    ensures PsRobotBlocks([b] + rest) ==
      match PsRobotBlock(b)
      case Err(e) => Err(e)
      case Ok(x) =>
        match PsRobotBlocks(rest)
        case Err(e) => Err(e)
        case Ok(xs) => Ok([x] + xs)
  {
    EmptyBlock(b);
    assert ([b] + rest)[1..] == rest;
  }

  /** psRobot's report: the whole text cut at every `\n\n\n`. */
  function ParsePsRobot(text: string): Result<seq<Record>, ParseError> {
    PsRobotBlocks(SplitOn(text, "\n\n\n"))
  }

  lemma {:induction false} PsRobotBlocksShaped(bs: seq<string>)
    ensures PsRobotBlocks(bs).Ok? ==> forall i :: 0 <= i < |PsRobotBlocks(bs).value| ==>
      PsRobotShaped(PsRobotBlocks(bs).value[i])
    decreases |bs|
  {
    if bs != [] {
      PsRobotBlocksShaped(bs[1..]);
      PsRobotBlockShaped(bs[0]);
    }
  }

  /** Every record read from a psRobot report has the psRobot shape, and there
      is one per non-empty block. */
  lemma ParsePsRobotRecords(text: string)
    ensures ParsePsRobot(text).Ok? ==>
      |ParsePsRobot(text).value| == NonEmptyBlocks(SplitOn(text, "\n\n\n"))
    ensures ParsePsRobot(text).Ok? ==> forall i :: 0 <= i < |ParsePsRobot(text).value| ==>
      PsRobotShaped(ParsePsRobot(text).value[i])
  {
    PsRobotBlocksShaped(SplitOn(text, "\n\n\n"));
  }

  // ---------------------------------------------------------------------------
  // Reading back well-formed psRobot reports
  // ---------------------------------------------------------------------------

  /** One psRobot hit, reduced to what the reader looks at: the header
      fields, the three alignment lines, and the four tokens of the fifth
      line. */
  datatype PsRobotHit = PsRobotHit(
    mirna: string, score: string, target: string,
    alignment: seq<string>,
    tag: string, start: string, site: string, end: string)

  predicate Word(w: string) {
    w != [] && WsFree(w)
  }

  predicate PlainPsRobotHit(h: PsRobotHit) {
    && Word(h.mirna) && '>' !in h.mirna
    && Word(h.score) && NoOccurrence(h.score, "Score:")
    && Word(h.target)
    && |h.alignment| == 3
    && (forall i :: 0 <= i < |h.alignment| ==> h.alignment[i] != [] && '\n' !in h.alignment[i])
    && Word(h.tag) && Word(h.start) && Word(h.site) && Word(h.end)
  }

  function HeaderTokens(h: PsRobotHit): seq<string> {
    [">" + h.mirna, "Score:" + h.score, h.target]
  }

  function PositionTokens(h: PsRobotHit): seq<string> {
    [h.tag, h.start, h.site, h.end]
  }

  function BlockLines(h: PsRobotHit): seq<string> {
    [JoinWith(HeaderTokens(h), " ")] + h.alignment + [JoinWith(PositionTokens(h), " ")]
  }

  function BlockText(h: PsRobotHit): string {
    JoinWith(BlockLines(h), "\n")
  }

  function PsRobotHitRecord(h: PsRobotHit): Record {
    Record(h.mirna, h.target, "n/a", h.start, h.end, h.score)
  }

  /** A hit's block reads back as its record. */
  lemma PsRobotBlockRoundTrip(h: PsRobotHit)
    requires PlainPsRobotHit(h)
    ensures PsRobotBlock(BlockText(h)) == Ok(PsRobotHitRecord(h))
  {
    HeaderWords(h);
    BlockLinesSplit(h);
    LineWords(h);
    HeaderValues(h);
    BlockOfParts(BlockText(h), BlockLines(h), HeaderTokens(h), PositionTokens(h));
  }

  /** The first line of a block splits into the header tokens, the fifth into
      the position tokens. */
  lemma LineWords(h: PsRobotHit)
    requires PlainPsRobotHit(h)
    requires forall i :: 0 <= i < |HeaderTokens(h)| ==> Word(HeaderTokens(h)[i])
    ensures |BlockLines(h)| == 5
    ensures SplitWs(BlockLines(h)[0]) == HeaderTokens(h)
    ensures SplitWs(BlockLines(h)[4]) == PositionTokens(h)
  {
    var ls := BlockLines(h);
    assert ls[0] == JoinWith(HeaderTokens(h), " ");
    assert ls[4] == JoinWith(PositionTokens(h), " ");
    JoinedWords(HeaderTokens(h));
    JoinedWords(PositionTokens(h));
  }

  lemma JoinedWords(ts: seq<string>)
    requires |ts| >= 1 && forall i :: 0 <= i < |ts| ==> Word(ts[i])
    ensures SplitWs(JoinWith(ts, " ")) == ts
  {
    SplitWsOfJoin(ts);
  }

  /** Deleting `>` and `Score:` from the header tokens, then stripping,
      leaves the microRNA and the score. */
  lemma HeaderValues(h: PsRobotHit)
    requires PlainPsRobotHit(h)
    ensures ReplaceAll(">" + h.mirna, ">", "") == h.mirna
    ensures Strip(ReplaceAll("Score:" + h.score, "Score:", "")) == h.score
  {
    NoOccurrenceChar(h.mirna, '>');
    RemoveLeading(">", h.mirna);
    RemoveLeading("Score:", h.score);
  }

  lemma BlockOfParts(block: string, ls: seq<string>, head: seq<string>, pos: seq<string>)
    requires SplitOn(block, "\n") == ls && |ls| == 5
    requires SplitWs(ls[0]) == head && |head| == 3 && SplitWs(ls[4]) == pos && |pos| == 4
    ensures PsRobotBlock(block) == Ok(Record(ReplaceAll(head[0], ">", ""), head[2], "n/a", pos[1], pos[3],
                                             Strip(ReplaceAll(head[1], "Score:", ""))))
  {
  }

  lemma HeaderWords(h: PsRobotHit)
    requires PlainPsRobotHit(h)
    ensures forall i :: 0 <= i < |HeaderTokens(h)| ==> Word(HeaderTokens(h)[i])
  {
    PrefixedWord(">", h.mirna);
    PrefixedWord("Score:", h.score);
  }

  lemma PrefixedWord(p: string, w: string)
    requires WsFree(p) && Word(w)
    ensures Word(p + w)
  {
    forall i | 0 <= i < |p + w| ensures !IsWs((p + w)[i]) {
      if i < |p| { assert (p + w)[i] == p[i]; } else { assert (p + w)[i] == w[i - |p|]; }
    }
  }

  lemma NoNewlineInWords(ts: seq<string>)
    requires forall i :: 0 <= i < |ts| ==> Word(ts[i])
    ensures forall i :: 0 <= i < |ts| ==> '\n' !in ts[i]
  {
    assert IsWs('\n');
  }

  /** The block cuts at newlines into its five lines, none of them empty. */
  lemma BlockLinesSplit(h: PsRobotHit)
    requires PlainPsRobotHit(h)
    requires forall i :: 0 <= i < |HeaderTokens(h)| ==> Word(HeaderTokens(h)[i])
    ensures SplitOn(BlockText(h), "\n") == BlockLines(h)
    ensures forall i :: 0 <= i < |BlockLines(h)| ==> BlockLines(h)[i] != [] && '\n' !in BlockLines(h)[i]
  {
    var ls := BlockLines(h);
    NoNewlineInWords(HeaderTokens(h));
    NoNewlineInWords(PositionTokens(h));
    CharNotInJoin(HeaderTokens(h), ' ', '\n');
    CharNotInJoin(PositionTokens(h), ' ', '\n');
    assert ls[0] == JoinWith(HeaderTokens(h), " ");
    assert ls[4] == JoinWith(PositionTokens(h), " ");
    assert forall i :: 1 <= i < 4 ==> ls[i] == h.alignment[i - 1];
    SplitOnJoin(ls, '\n');
  }

  /** Lines that are non-empty and hold no newline join into a text with no
      two newlines in a row that does not end with one. */
  lemma {:induction false} NoDoubleNewline(ls: seq<string>)
    requires |ls| >= 1
    requires forall i :: 0 <= i < |ls| ==> ls[i] != [] && '\n' !in ls[i]
    ensures var s := JoinWith(ls, "\n");
      && s != [] && s[|s| - 1] != '\n'
      && forall j :: 0 <= j < |s| - 1 ==> s[j] != '\n' || s[j + 1] != '\n'
    decreases |ls|
  {
    var s := JoinWith(ls, "\n");
    if |ls| == 1 {
      assert s == ls[0];
    } else {
      var l0 := ls[0];
      var t := JoinWith(ls[1..], "\n");
      NoDoubleNewline(ls[1..]);
      JoinWithCons(ls, "\n");
      PrefixHead(t, ls[1][..1]);
      assert t[0] == ls[1][0];
      assert s == l0 + "\n" + t;
      forall j | 0 <= j < |s| - 1 ensures s[j] != '\n' || s[j + 1] != '\n' {
        if j < |l0| {
          assert s[j] == l0[j];
        } else if j == |l0| {
          assert s[j + 1] == t[0];
        } else {
          assert s[j] == t[j - |l0| - 1] && s[j + 1] == t[j - |l0|];
        }
      }
      assert s[|s| - 1] == t[|t| - 1];
    }
  }

  lemma NotThreeNewlines(u: string, j: nat)
    requires j + 1 < |u| && (u[j] != '\n' || u[j + 1] != '\n')
    ensures !OccursAt(u, "\n\n\n", j)
  {
    if j + 3 <= |u| {
      assert u[j..j + 3][0] == u[j] && u[j..j + 3][1] == u[j + 1];
    }
  }

  /** Such a text is cut exactly where a `\n\n\n` is placed after it. */
  lemma BlockCutsCleanly(ls: seq<string>)
    requires |ls| >= 1
    requires forall i :: 0 <= i < |ls| ==> ls[i] != [] && '\n' !in ls[i]
    ensures CutsCleanly(JoinWith(ls, "\n"), "\n\n\n")
    ensures NoOccurrence(JoinWith(ls, "\n"), "\n\n\n")
  {
    var s := JoinWith(ls, "\n");
    var u := s + "\n\n\n";
    NoDoubleNewline(ls);
    forall j | 0 <= j < |s| ensures !OccursAt(u, "\n\n\n", j) {
      if j < |s| - 1 {
        assert u[j] == s[j] && u[j + 1] == s[j + 1];
      } else {
        assert u[j] == s[j];
      }
      NotThreeNewlines(u, j);
    }
    forall j: nat | j <= |s| ensures !OccursAt(s, "\n\n\n", j) {
      if j + 3 <= |s| {
        NotThreeNewlines(s, j);
      }
    }
  }

  function BlockTexts(hs: seq<PsRobotHit>): (bs: seq<string>)
    ensures |bs| == |hs| && forall i :: 0 <= i < |hs| ==> bs[i] == BlockText(hs[i])
  {
    seq(|hs|, i requires 0 <= i < |hs| => BlockText(hs[i]))
  }

  function PsRobotHitRecords(hs: seq<PsRobotHit>): (rs: seq<Record>)
    ensures |rs| == |hs| && forall i :: 0 <= i < |hs| ==> rs[i] == PsRobotHitRecord(hs[i])
  {
    seq(|hs|, i requires 0 <= i < |hs| => PsRobotHitRecord(hs[i]))
  }

  /** A psRobot report: the hits' blocks separated by two empty lines. */
  function PsRobotReport(hs: seq<PsRobotHit>): string {
    JoinWith(BlockTexts(hs), "\n\n\n")
  }

  /** Reading a report gives one record per hit, in order: the `\n\n\n` cut
      separates exactly the blocks and each block reads back as its hit. */
  lemma PsRobotRoundTrip(hs: seq<PsRobotHit>)
    requires forall i :: 0 <= i < |hs| ==> PlainPsRobotHit(hs[i])
    ensures ParsePsRobot(PsRobotReport(hs)) == Ok(PsRobotHitRecords(hs))
  {
    if hs == [] {
      assert PsRobotReport(hs) == "";
      assert SplitOn("", "\n\n\n") == [""];
      EmptyBlock("");
    } else {
      var bs := BlockTexts(hs);
      forall i | 0 <= i < |bs| ensures CutsCleanly(bs[i], "\n\n\n") && NoOccurrence(bs[i], "\n\n\n") {
        HeaderWords(hs[i]);
        BlockLinesSplit(hs[i]);
        BlockCutsCleanly(BlockLines(hs[i]));
      }
      SplitOnJoinClean(bs, "\n\n\n");
      BlocksOfHits(hs);
    }
  }

  lemma {:induction false} BlocksOfHits(hs: seq<PsRobotHit>)
    requires forall i :: 0 <= i < |hs| ==> PlainPsRobotHit(hs[i])
    ensures PsRobotBlocks(BlockTexts(hs)) == Ok(PsRobotHitRecords(hs))
    decreases |hs|
  {
    if hs != [] {
      BlocksOfHits(hs[1..]);
      BlockReads(hs[0]);
      HitsCons(hs);
      BlocksCons(BlockText(hs[0]), BlockTexts(hs[1..]), PsRobotHitRecord(hs[0]));
    }
  }

  lemma HitsCons(hs: seq<PsRobotHit>)
    requires hs != []
    ensures BlockTexts(hs) == [BlockText(hs[0])] + BlockTexts(hs[1..])
    ensures PsRobotHitRecords(hs) == [PsRobotHitRecord(hs[0])] + PsRobotHitRecords(hs[1..])
  {
  }

  lemma BlockReads(h: PsRobotHit)
    requires PlainPsRobotHit(h)
    ensures SplitOn(BlockText(h), "\n") != [""]
    ensures PsRobotBlock(BlockText(h)) == Ok(PsRobotHitRecord(h))
  {
    HeaderWords(h);
    BlockLinesSplit(h);
    PsRobotBlockRoundTrip(h);
  }

  lemma BlocksCons(b: string, bs: seq<string>, x: Record)
    requires SplitOn(b, "\n") != [""] && PsRobotBlock(b) == Ok(x)
    ensures PsRobotBlocks([b] + bs) ==
      match PsRobotBlocks(bs)
      case Err(e) => Err(e)
      case Ok(xs) => Ok([x] + xs)
  {
    assert ([b] + bs)[1..] == bs;
  }
}
