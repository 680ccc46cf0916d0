/**
 * The common record every tool's output is normalised to, and the
 * tab-separated line `make_consensus` (exec/miRNAconsTargets_plants.py)
 * writes for it into `<TOOL>.txt`.
 */
module Records {
  import opened Wrappers
  import opened Text

  /** One predicted microRNA/target interaction: the six output columns. */
  datatype Record = Record(mirna: string, target: string, energy: string, start: string, end: string, score: string)

  /** How reading a tool's raw output fails: Python's `IndexError` for a
      missing column, line or token, and its `ValueError` for a start
      position `int()` rejects. Either ends the run. */
  datatype ParseError = MissingField | NotAnInteger

  function Fields(r: Record): seq<string> {
    [r.mirna, r.target, r.energy, r.start, r.end, r.score]
  }

  /** A record whose fields hold neither a tab nor a newline, so that its line
      cuts back into the same six columns. */
  predicate Clean(r: Record) {
    forall i :: 0 <= i < |Fields(r)| ==> '\t' !in Fields(r)[i] && '\n' !in Fields(r)[i]
  }

  /** `"\t".join([mR, T, energy, Tstart, Tend, score]) + "\n"`. */
  function RecordLine(r: Record): (l: string)
    ensures l != [] && l[|l| - 1] == '\n'
  {
    JoinWith(Fields(r), "\t") + "\n"
  }

  function RecordLines(rs: seq<Record>): (ls: seq<string>)
    ensures |ls| == |rs|
    ensures forall i :: 0 <= i < |rs| ==> ls[i] == RecordLine(rs[i])
  {
    seq(|rs|, i requires 0 <= i < |rs| => RecordLine(rs[i]))
  }

  /** The text of one tool's `<TOOL>.txt` file. */
  function OutputText(rs: seq<Record>): string {
    Concat(RecordLines(rs))
  }

  /** Reading one output line back into its six columns. */
  function ReadLine(line: string): Option<Record> {
    var body := if line != [] && line[|line| - 1] == '\n' then line[..|line| - 1] else line;
    var cols := SplitOn(body, "\t");
    if |cols| == 6 then Some(Record(cols[0], cols[1], cols[2], cols[3], cols[4], cols[5])) else None
  }

  function ReadLines(ls: seq<string>): (r: Option<seq<Record>>)
    ensures r.Some? ==> |r.value| == |ls|
  {
    if ls == [] then Some([])
    else
      match (ReadLine(ls[0]), ReadLines(ls[1..]))
      case (Some(x), Some(xs)) => Some([x] + xs)
      case _ => None
  }

  /** Reading a whole `<TOOL>.txt` file back. */
  function ReadOutput(text: string): Option<seq<Record>> {
    ReadLines(Lines(text))
  }

  lemma ReadRecordLine(r: Record)
    requires Clean(r)
    ensures ReadLine(RecordLine(r)) == Some(r)
  {
    var body := JoinWith(Fields(r), "\t");
    assert RecordLine(r)[..|RecordLine(r)| - 1] == body;
    SplitOnJoin(Fields(r), '\t');
  }

  /** The line of a clean record holds its only newline at the end. */
  lemma RecordLineIsLine(r: Record)
    requires Clean(r)
    ensures forall j :: 0 <= j < |RecordLine(r)| - 1 ==> RecordLine(r)[j] != '\n'
  {
    var body := JoinWith(Fields(r), "\t");
    CharNotInJoin(Fields(r), '\t', '\n');
    assert RecordLine(r) == body + "\n";
    forall j | 0 <= j < |RecordLine(r)| - 1 ensures RecordLine(r)[j] != '\n' {
      assert RecordLine(r)[j] == body[j];
    }
  }

  lemma {:induction false} ReadRecordLines(rs: seq<Record>)
    requires forall i :: 0 <= i < |rs| ==> Clean(rs[i])
    ensures ReadLines(RecordLines(rs)) == Some(rs)
    decreases |rs|
  {
    if rs != [] {
      ReadRecordLine(rs[0]);
      ReadRecordLines(rs[1..]);
      assert RecordLines(rs)[1..] == RecordLines(rs[1..]);
      assert rs == [rs[0]] + rs[1..];
    }
  }

  /** Reading back a written `<TOOL>.txt` gives the records it was written
      from, in order, when no field holds a tab or a newline. */
  lemma OutputRoundTrip(rs: seq<Record>)
    requires forall i :: 0 <= i < |rs| ==> Clean(rs[i])
    ensures ReadOutput(OutputText(rs)) == Some(rs)
  {
    var ls := RecordLines(rs);
    forall i | 0 <= i < |ls|
      ensures ls[i] != [] && forall j :: 0 <= j < |ls[i]| - 1 ==> ls[i][j] != '\n'
    {
      RecordLineIsLine(rs[i]);
    }
    assert IsLineSeq(ls);
    LinesOfConcat(ls);
    ReadRecordLines(rs);
  }
}
