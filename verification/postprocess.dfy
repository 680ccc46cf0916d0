/**
 * `make_consensus` end to end (exec/miRNAconsTargets_plants.py): each
 * requested program's raw output goes through that program's reader, the
 * records are folded into the consensus in program order and file order, and
 * the consensus rows are read back out of the dictionary keys.
 *
 * The script keys its dictionary by the string `mR + "@" + T` and recovers
 * the two columns with `split("@")`; that version is modelled here next to
 * the pair-keyed fold the rest of the model uses.
 */
module Postprocess {
  import opened Wrappers
  import opened Text
  import opened Records
  import opened Programs
  import opened Consensus
  import Parsers
  import Tapir

  /** One requested program and the text of its output file. */
  datatype Run = Run(tool: Tool, output: string)

  /** The reader for a program's output; both tapir variants share one. */
  function ParseOutput(tool: Tool, text: string): Result<seq<Record>, ParseError> {
    match tool
    case Psrt => Parsers.ParsePsrt(text)
    case PsRobot => Parsers.ParsePsRobot(text)
    case TapirFasta => Tapir.ParseTapir(text)
    case TapirHybrid => Tapir.ParseTapir(text)
  }

  /** What each reader guarantees about every record it returns. */
  predicate ShapedFor(tool: Tool, r: Record) {
    match tool
    case Psrt => r.energy != [] && r.energy[0] == '-'
    case PsRobot => Parsers.PsRobotShaped(r)
    case TapirFasta => Tapir.Complete(r) && r.energy == "n/a"
    case TapirHybrid => Tapir.Complete(r) && r.energy == "n/a"
  }

  lemma ParseOutputShaped(tool: Tool, text: string)
    ensures ParseOutput(tool, text).Ok? ==>
      forall i :: 0 <= i < |ParseOutput(tool, text).value| ==> ShapedFor(tool, ParseOutput(tool, text).value[i])
  {
    match tool
    case Psrt =>
      var ls := Lines(text);
      Parsers.PsrtRowsPointwise(if |ls| <= 2 then [] else ls[2..]);
    case PsRobot => Parsers.ParsePsRobotRecords(text);
    case TapirFasta => Tapir.ParseTapirRecords(text);
    case TapirHybrid => Tapir.ParseTapirRecords(text);
  }

  /** The programs' outputs read in program order; the first reader that
      fails ends the run with its error. */
  function ParseAll(runs: seq<Run>): (r: Result<seq<seq<Record>>, ParseError>)
    ensures r.Ok? <==> forall i :: 0 <= i < |runs| ==> ParseOutput(runs[i].tool, runs[i].output).Ok?
    ensures r.Ok? ==> |r.value| == |runs|
    ensures r.Ok? ==> forall i :: 0 <= i < |runs| ==> r.value[i] == ParseOutput(runs[i].tool, runs[i].output).value
    ensures r.Err? ==> FirstFailure(runs, r.error)
  {
    if runs == [] then Ok([])
    else
      var rest := runs[1..];
      assert forall i :: 1 <= i < |runs| ==> runs[i] == rest[i - 1];
      match ParseOutput(runs[0].tool, runs[0].output)
      case Err(e) =>
        assert FirstFailureAt(runs, e, 0);
        Err(e)
      case Ok(rs) =>
        match ParseAll(rest)
        case Err(e) =>
          LaterFailure(runs, e);
          Err(e)
        case Ok(rss) => Ok([rs] + rss)
  }

  /** Run `i` is the first whose output does not read, and it fails with `e`. */
  predicate FirstFailureAt(runs: seq<Run>, e: ParseError, i: nat) {
    && i < |runs|
    && (forall j :: 0 <= j < i ==> ParseOutput(runs[j].tool, runs[j].output).Ok?)
    && ParseOutput(runs[i].tool, runs[i].output) == Err(e)
  }

  /** Some run is the first to fail, with `e`. */
  predicate FirstFailure(runs: seq<Run>, e: ParseError) {
    exists i: nat :: i < |runs| && FirstFailureAt(runs, e, i)
  }

  /** When the first run reads, the first failure of the rest is the first
      failure of all. */
  lemma LaterFailure(runs: seq<Run>, e: ParseError)
    requires runs != [] && ParseOutput(runs[0].tool, runs[0].output).Ok?
    requires FirstFailure(runs[1..], e)
    ensures FirstFailure(runs, e)
  {
    var i: nat :| i < |runs[1..]| && FirstFailureAt(runs[1..], e, i);
    forall j | 0 <= j < i + 1 ensures ParseOutput(runs[j].tool, runs[j].output).Ok? {
      if j > 0 {
        assert runs[j] == runs[1..][j - 1];
      }
    }
    assert runs[i + 1] == runs[1..][i];
    assert FirstFailureAt(runs, e, i + 1);
  }

  function RecordKey(r: Record): Key {
    Key(r.mirna, r.target)
  }

  function HitsOf(tool: Tool, rs: seq<Record>): (hs: seq<Hit<Key>>)
    ensures |hs| == |rs|
    ensures forall i :: 0 <= i < |rs| ==> hs[i] == Hit(tool, RecordKey(rs[i]))
  {
    seq(|rs|, i requires 0 <= i < |rs| => Hit(tool, RecordKey(rs[i])))
  }

  /** The hits in the order the script folds them: program by program, each
      program's records in file order. */
  function AllHits(runs: seq<Run>, outs: seq<seq<Record>>): seq<Hit<Key>>
    requires |runs| == |outs|
  {
    if runs == [] then [] else HitsOf(runs[0].tool, outs[0]) + AllHits(runs[1..], outs[1..])
  }

  /** A tool emitted a key exactly when one of its runs has a record with it. */
  lemma {:induction false} AllHitsMembers(runs: seq<Run>, outs: seq<seq<Record>>, u: Tool, k: Key)
    requires |runs| == |outs|
    ensures Hit(u, k) in AllHits(runs, outs) <==>
      exists j, n :: 0 <= j < |runs| && 0 <= n < |outs[j]| && runs[j].tool == u && RecordKey(outs[j][n]) == k
    decreases |runs|
  {
    if runs != [] {
      AllHitsMembers(runs[1..], outs[1..], u, k);
      var here := HitsOf(runs[0].tool, outs[0]);
      var later := AllHits(runs[1..], outs[1..]);
      assert AllHits(runs, outs) == here + later;
      if Hit(u, k) in here {
        var n :| 0 <= n < |here| && here[n] == Hit(u, k);
        assert runs[0].tool == u && RecordKey(outs[0][n]) == k;
      }
      if Hit(u, k) in later {
        var j, n :| 0 <= j < |runs| - 1 && 0 <= n < |outs[1..][j]| && runs[1..][j].tool == u && RecordKey(outs[1..][j][n]) == k;
        assert runs[j + 1].tool == u && RecordKey(outs[j + 1][n]) == k;
      }
      if exists j, n :: 0 <= j < |runs| && 0 <= n < |outs[j]| && runs[j].tool == u && RecordKey(outs[j][n]) == k {
        var j, n :| 0 <= j < |runs| && 0 <= n < |outs[j]| && runs[j].tool == u && RecordKey(outs[j][n]) == k;
        if j == 0 {
          assert here[n] == Hit(u, k);
        } else {
          assert runs[1..][j - 1].tool == u && RecordKey(outs[1..][j - 1][n]) == k;
        }
      }
    }
  }

  /** What `make_consensus` leaves behind: each program's records (the
      `<PROGRAM>.txt` files) and the consensus rows. */
  datatype Report = Report(outputs: seq<seq<Record>>, rows: seq<Row>)

  function MakeConsensus(runs: seq<Run>): (r: Result<Report, ParseError>)
    ensures r.Ok? <==> forall i :: 0 <= i < |runs| ==> ParseOutput(runs[i].tool, runs[i].output).Ok?
    ensures r.Ok? ==> |r.value.outputs| == |runs|
    ensures r.Ok? ==> forall i :: 0 <= i < |runs| ==> r.value.outputs[i] == ParseOutput(runs[i].tool, runs[i].output).value
    ensures r.Err? ==> FirstFailure(runs, r.error)
  {
    match ParseAll(runs)
    case Err(e) => Err(e)
    case Ok(outs) => Ok(Report(outs, ConsensusRows(AllHits(runs, outs))))
  }

  /** A consensus row's tools are exactly the programs that reported its
      (microRNA, target) pair, and its support counts them. */
  lemma ConsensusSupport(runs: seq<Run>, i: nat)
    requires MakeConsensus(runs).Ok? && i < |MakeConsensus(runs).value.rows|
    ensures var rep := MakeConsensus(runs).value;
      && 1 <= rep.rows[i].support <= 4
      && rep.rows[i].support == |rep.rows[i].tools|
      && forall u :: u in rep.rows[i].tools <==>
        exists j, n :: 0 <= j < |runs| && 0 <= n < |rep.outputs[j]|
          && runs[j].tool == u && RecordKey(rep.outputs[j][n]) == RowKey(rep.rows[i])
  {
    var rep := MakeConsensus(runs).value;
    var hs := AllHits(runs, rep.outputs);
    RowSupport(hs, i);
    forall u ensures u in rep.rows[i].tools <==> Hit(u, RowKey(rep.rows[i])) in hs {
    }
    forall u {
      AllHitsMembers(runs, rep.outputs, u, RowKey(rep.rows[i]));
    }
  }

  /** Every record any program reported has exactly one consensus row. */
  lemma ConsensusCoversRecords(runs: seq<Run>, j: nat, n: nat)
    requires MakeConsensus(runs).Ok?
    requires j < |runs| && n < |MakeConsensus(runs).value.outputs[j]|
    ensures var rep := MakeConsensus(runs).value;
      exists i :: 0 <= i < |rep.rows| && RowKey(rep.rows[i]) == RecordKey(rep.outputs[j][n])
  {
    var rep := MakeConsensus(runs).value;
    var hs := AllHits(runs, rep.outputs);
    var k := RecordKey(rep.outputs[j][n]);
    AllHitsMembers(runs, rep.outputs, runs[j].tool, k);
    assert Hit(runs[j].tool, k) in hs;
    RowsCoverKeys(hs);
  }

  // ---------------------------------------------------------------------------
  // The `@`-joined key, as written
  // ---------------------------------------------------------------------------

  /** `"@".join([mR, T])`. */
  function KeyString(k: Key): string {
    JoinWith([k.mirna, k.target], "@")
  }

  predicate AtFree(k: Key) {
    '@' !in k.mirna && '@' !in k.target
  }

  /** On identifiers without `@` the split recovers both columns. */
  lemma SplitKeyString(k: Key)
    requires AtFree(k)
    ensures SplitOn(KeyString(k), "@") == [k.mirna, k.target]
  {
    SplitOnJoin([k.mirna, k.target], '@');
  }

  lemma KeyStringInjective(a: Key, b: Key)
    requires AtFree(a) && AtFree(b) && KeyString(a) == KeyString(b)
    ensures a == b
  {
    SplitKeyString(a);
    SplitKeyString(b);
  }

  function StringHits(hs: seq<Hit<Key>>): (ss: seq<Hit<string>>)
    ensures |ss| == |hs|
    ensures forall i :: 0 <= i < |hs| ==> ss[i] == Hit(hs[i].tool, KeyString(hs[i].key))
  {
    seq(|hs|, i requires 0 <= i < |hs| => Hit(hs[i].tool, KeyString(hs[i].key)))
  }

  /** One consensus row as the script builds it: columns 0 and 1 of
      `mRT.split("@")`, an `IndexError` when there is no second column. */
  function RowAsWritten(key: string, ts: seq<Tool>): (r: Result<Row, ParseError>)
    ensures r.Ok? <==> |SplitOn(key, "@")| >= 2
    ensures r.Ok? ==> r.value.support == |r.value.tools| && r.value.tools == ToolSet(ts)
  {
    var parts := SplitOn(key, "@");
    if |parts| < 2 then Err(MissingField)
    else Ok(Row(parts[0], parts[1], |ToolSet(ts)|, ToolSet(ts)))
  }

  function RowsAsWritten(order: seq<string>, tools: map<string, seq<Tool>>): (r: Result<seq<Row>, ParseError>)
    requires forall i :: 0 <= i < |order| ==> order[i] in tools
    ensures r.Ok? ==> |r.value| == |order|
  {
    if order == [] then Ok([])
    else
      match RowAsWritten(order[0], tools[order[0]])
      case Err(e) => Err(e)
      case Ok(row) =>
        match RowsAsWritten(order[1..], tools)
        case Err(e) => Err(e)
        case Ok(rows) => Ok([row] + rows)
  }

  /** The consensus rows as the script computes them, keyed by the joined
      string. */
  function ConsensusRowsAsWritten(hs: seq<Hit<Key>>): Result<seq<Row>, ParseError> {
    CollectWellFormed(StringHits(hs));
    var t := Collect(StringHits(hs));
    RowsAsWritten(t.order, t.tools)
  }

  /** Two different pairs whose joined keys coincide: as written they merge
      into one row whose columns are neither pair, with support 2; keyed by
      the pair they stay two rows of support 1. */
  lemma AtInIdsMergeRows()
    ensures ConsensusRowsAsWritten([Hit(Psrt, Key("a@b", "c")), Hit(PsRobot, Key("a", "b@c"))])
      == Ok([Row("a", "b", 2, {Psrt, PsRobot})])
    ensures ConsensusRows([Hit(Psrt, Key("a@b", "c")), Hit(PsRobot, Key("a", "b@c"))])
      == [Row("a@b", "c", 1, {Psrt}), Row("a", "b@c", 1, {PsRobot})]
  {
    MergedAsWritten();
    SeparateByPair();
  }

  lemma MergedAsWritten()
    ensures ConsensusRowsAsWritten([Hit(Psrt, Key("a@b", "c")), Hit(PsRobot, Key("a", "b@c"))])
      == Ok([Row("a", "b", 2, {Psrt, PsRobot})])
  {
    var hs := [Hit(Psrt, Key("a@b", "c")), Hit(PsRobot, Key("a", "b@c"))];
    var key := "a@b@c";
    assert KeyString(hs[0].key) == key;
    assert KeyString(hs[1].key) == key;
    assert StringHits(hs) == [Hit(Psrt, key), Hit(PsRobot, key)];
    TwoHitsOneKey(key, Psrt, PsRobot);
    var t := Collect(StringHits(hs));
    assert t == Tally([key], map[key := [Psrt, PsRobot]]);
    MergedRow();
    var row := Row("a", "b", 2, {Psrt, PsRobot});
    assert t.tools[key] == [Psrt, PsRobot];
    SingleRowAsWritten(key, t.tools, row);
  }

  lemma SingleRowAsWritten(key: string, tools: map<string, seq<Tool>>, row: Row)
    requires key in tools && RowAsWritten(key, tools[key]) == Ok(row)
    ensures RowsAsWritten([key], tools) == Ok([row])
  {
    assert [key][0] == key && [key][1..] == [];
    assert RowsAsWritten([], tools) == Ok([]);
    assert [row] + [] == [row];
  }

  lemma MergedRow()
    ensures RowAsWritten("a@b@c", [Psrt, PsRobot]) == Ok(Row("a", "b", 2, {Psrt, PsRobot}))
  {
    KeyOfThree();
    TwoTools();
  }

  lemma TwoTools()
    ensures ToolSet([Psrt, PsRobot]) == {Psrt, PsRobot} && |{Psrt, PsRobot}| == 2
  {
    assert {Psrt, PsRobot} == {Psrt} + {PsRobot};
  }

  lemma KeyOfThree()
    ensures SplitOn("a@b@c", "@") == ["a", "b", "c"]
  {
    assert JoinWith(["a", "b", "c"], "@") == "a@b@c";
    SplitOnJoin(["a", "b", "c"], '@');
  }

  lemma SeparateByPair()
    ensures ConsensusRows([Hit(Psrt, Key("a@b", "c")), Hit(PsRobot, Key("a", "b@c"))])
      == [Row("a@b", "c", 1, {Psrt}), Row("a", "b@c", 1, {PsRobot})]
  {
    TwoHitsTwoKeys(Key("a@b", "c"), Key("a", "b@c"), Psrt, PsRobot);
    assert ToolSet([Psrt]) == {Psrt};
    assert ToolSet([PsRobot]) == {PsRobot};
  }

  lemma TwoHitsOneKey<K>(k: K, u: Tool, v: Tool)
    ensures Collect([Hit(u, k), Hit(v, k)]) == Tally([k], map[k := [u, v]])
  {
    CollectSnoc([], Hit(u, k));
    CollectSnoc([Hit(u, k)], Hit(v, k));
    assert [] + [Hit(u, k)] == [Hit(u, k)] && [Hit(u, k)] + [Hit(v, k)] == [Hit(u, k), Hit(v, k)];
    var t := Collect([Hit(u, k), Hit(v, k)]);
    assert t.tools[k] == [u] + [v] == [u, v];
    assert t.tools.Keys == {k};
    assert t.tools == map[k := [u, v]];
  }

  lemma TwoHitsTwoKeys<K>(a: K, b: K, u: Tool, v: Tool)
    requires a != b
    ensures Collect([Hit(u, a), Hit(v, b)]) == Tally([a, b], map[a := [u], b := [v]])
  {
    CollectSnoc([], Hit(u, a));
    CollectSnoc([Hit(u, a)], Hit(v, b));
    assert [] + [Hit(u, a)] == [Hit(u, a)] && [Hit(u, a)] + [Hit(v, b)] == [Hit(u, a), Hit(v, b)];
    var t := Collect([Hit(u, a), Hit(v, b)]);
    assert t.tools.Keys == {a, b};
    assert t.tools == map[a := [u], b := [v]];
  }

  /** Where no identifier contains `@` the script's rows are the pair-keyed
      rows. */
  lemma AsWrittenAgrees(hs: seq<Hit<Key>>)
    requires forall i :: 0 <= i < |hs| ==> AtFree(hs[i].key)
    ensures ConsensusRowsAsWritten(hs) == Ok(ConsensusRows(hs))
  {
    CollectMirrors(hs);
    var ts := Collect(StringHits(hs));
    var tk := Collect(hs);
    CollectWellFormed(StringHits(hs));
    CollectWellFormed(hs);
    CollectContents(hs);
    forall i | 0 <= i < |tk.order| ensures AtFree(tk.order[i]) {
      assert tk.order[i] in KeysOf(hs);
      var u :| Hit(u, tk.order[i]) in hs;
    }
    MirroredRows(ts, tk, 0);
    assert ts.order[0..] == ts.order;
    assert Rows(tk)[0..] == Rows(tk);
  }

  /** The string-keyed tally is the pair-keyed one with every key joined. */
  ghost predicate Mirrors(ts: Tally<string>, tk: Tally<Key>) {
    && |ts.order| == |tk.order|
    && (forall i :: 0 <= i < |tk.order| ==> ts.order[i] == KeyString(tk.order[i]))
    && (forall k :: k in tk.tools ==> KeyString(k) in ts.tools && ts.tools[KeyString(k)] == tk.tools[k])
  }

  lemma {:induction false} CollectMirrors(hs: seq<Hit<Key>>)
    requires forall i :: 0 <= i < |hs| ==> AtFree(hs[i].key)
    ensures Mirrors(Collect(StringHits(hs)), Collect(hs))
    decreases |hs|
  {
    if hs != [] {
      var init := hs[..|hs| - 1];
      var last := hs[|hs| - 1];
      CollectMirrors(init);
      assert StringHits(hs)[..|hs| - 1] == StringHits(init);
      CollectContents(init);
      CollectWellFormed(StringHits(init));
      CollectWellFormed(init);
      MirrorStep(Collect(StringHits(init)), Collect(init), init, last);
    }
  }

  lemma MirrorStep(ts: Tally<string>, tk: Tally<Key>, init: seq<Hit<Key>>, h: Hit<Key>)
    requires WellFormed(ts) && WellFormed(tk) && Mirrors(ts, tk)
    requires tk.tools.Keys == KeysOf(init)
    requires forall i :: 0 <= i < |init| ==> AtFree(init[i].key)
    requires AtFree(h.key)
    ensures Mirrors(Add(ts, Hit(h.tool, KeyString(h.key))), Add(tk, h))
  {
    KeysAtFree(tk, init);
    SameMembership(ts, tk, h.key);
    MirrorOrder(ts, tk, h);
    MirrorTools(ts, tk, h);
  }

  lemma MirrorOrder(ts: Tally<string>, tk: Tally<Key>, h: Hit<Key>)
    requires Mirrors(ts, tk)
    requires KeyString(h.key) in ts.tools <==> h.key in tk.tools
    ensures |Add(ts, Hit(h.tool, KeyString(h.key))).order| == |Add(tk, h).order|
    ensures forall i :: 0 <= i < |Add(tk, h).order| ==>
      Add(ts, Hit(h.tool, KeyString(h.key))).order[i] == KeyString(Add(tk, h).order[i])
  {
  }

  lemma MirrorTools(ts: Tally<string>, tk: Tally<Key>, h: Hit<Key>)
    requires Mirrors(ts, tk)
    requires forall j :: j in tk.tools ==> AtFree(j)
    requires AtFree(h.key)
    requires KeyString(h.key) in ts.tools <==> h.key in tk.tools
    ensures forall k :: k in Add(tk, h).tools ==>
      (KeyString(k) in Add(ts, Hit(h.tool, KeyString(h.key))).tools
       && Add(ts, Hit(h.tool, KeyString(h.key))).tools[KeyString(k)] == Add(tk, h).tools[k])
  {
    var ts' := Add(ts, Hit(h.tool, KeyString(h.key)));
    var tk' := Add(tk, h);
    forall k | k in tk'.tools ensures KeyString(k) in ts'.tools && ts'.tools[KeyString(k)] == tk'.tools[k] {
      if k != h.key {
        KeyStringDiffers(k, h.key);
      }
    }
  }

  lemma KeysAtFree(tk: Tally<Key>, init: seq<Hit<Key>>)
    requires tk.tools.Keys == KeysOf(init)
    requires forall i :: 0 <= i < |init| ==> AtFree(init[i].key)
    ensures forall k :: k in tk.tools ==> AtFree(k)
  {
    forall k | k in tk.tools ensures AtFree(k) {
      var u :| Hit(u, k) in init;
    }
  }

  /** A joined key is in the string-keyed tally exactly when the pair is in
      the pair-keyed one. */
  lemma SameMembership(ts: Tally<string>, tk: Tally<Key>, k: Key)
    requires WellFormed(ts) && WellFormed(tk) && Mirrors(ts, tk)
    requires forall j :: j in tk.tools ==> AtFree(j)
    requires AtFree(k)
    ensures KeyString(k) in ts.tools <==> k in tk.tools
  {
    if KeyString(k) in ts.tools {
      var i :| 0 <= i < |ts.order| && ts.order[i] == KeyString(k);
      KeyStringInjective(tk.order[i], k);
    }
  }

  lemma KeyStringDiffers(a: Key, b: Key)
    requires AtFree(a) && AtFree(b) && a != b
    ensures KeyString(a) != KeyString(b)
  {
    if KeyString(a) == KeyString(b) {
      KeyStringInjective(a, b);
    }
  }

  lemma {:induction false} MirroredRows(ts: Tally<string>, tk: Tally<Key>, n: nat)
    requires WellFormed(ts) && WellFormed(tk) && Mirrors(ts, tk)
    requires forall i :: 0 <= i < |tk.order| ==> AtFree(tk.order[i])
    requires n <= |tk.order|
    ensures RowsAsWritten(ts.order[n..], ts.tools) == Ok(Rows(tk)[n..])
    decreases |tk.order| - n
  {
    if n < |tk.order| {
      MirroredRows(ts, tk, n + 1);
      MirroredRow(ts, tk, n);
      RowsStep(ts.order, ts.tools, Rows(tk), n);
    } else {
      assert ts.order[n..] == [];
      assert Rows(tk)[n..] == [];
    }
  }

  lemma MirroredRow(ts: Tally<string>, tk: Tally<Key>, n: nat)
    requires WellFormed(ts) && WellFormed(tk) && Mirrors(ts, tk)
    requires n < |tk.order| && AtFree(tk.order[n])
    ensures RowAsWritten(ts.order[n], ts.tools[ts.order[n]]) == Ok(Rows(tk)[n])
  {
    SplitKeyString(tk.order[n]);
  }

  lemma RowsStep(order: seq<string>, tools: map<string, seq<Tool>>, rows: seq<Row>, n: nat)
    requires forall i :: 0 <= i < |order| ==> order[i] in tools
    requires n < |order| == |rows|
    requires RowAsWritten(order[n], tools[order[n]]) == Ok(rows[n])
    requires RowsAsWritten(order[n + 1..], tools) == Ok(rows[n + 1..])
    ensures RowsAsWritten(order[n..], tools) == Ok(rows[n..])
  {
    assert order[n..][1..] == order[n + 1..];
    assert rows[n..] == [rows[n]] + rows[n + 1..];
  }
}
