/**
 * The reader `make_consensus` (exec/miRNAconsTargets_plants.py) applies to
 * the concatenated output of tapir_fasta and of tapir_hybrid: one state
 * machine over the lines, identical for both tools. A line starting with
 * `#` or `//` closes the current block; labelled lines fill its fields.
 */
module Tapir {
  import opened Wrappers
  import opened Text
  import opened Records

  predicate StartsWith(s: string, p: string) {
    |p| <= |s| && s[..|p|] == p
  }

  /** The fields before any labelled line: no microRNA, no target, energy
      `n/a`, start, end and score `0`. */
  const Reset := Record("", "", "n/a", "0", "0", "0")

  /** A block is written out only once both its microRNA and its target are set. */
  predicate Complete(s: Record) {
    s.mirna != [] && s.target != []
  }

  /** What closing a block emits. */
  function Flush(s: Record): (out: seq<Record>)
    ensures |out| <= 1
    ensures out != [] <==> Complete(s)
    ensures forall i :: 0 <= i < |out| ==> out[i] == s
  {
    if Complete(s) then [s] else []
  }

  predicate IsDelimiter(line: string) {
    StartsWith(line, "#") || StartsWith(line, "//")
  }

  /** The second whitespace-delimited token of a line, if it has one. */
  function Token1(line: string): (r: Option<string>)
    ensures r.Some? ==> WsFree(r.value)
  {
    var ts := SplitWs(line);
    SplitWsTokens(line);
    if |ts| >= 2 then Some(ts[1]) else None
  }

  /** A line that holds a whitespace character has a second token. */
  lemma Token1OfSpacedLine(line: string)
    requires !WsFree(line)
    ensures Token1(line).Some?
  {
    SplitWsTokens(line);
  }

  /** The effect of a line that is not a delimiter, checked in the source's
      order: `miRNA `, `target `, `score`, `start`, `miRNA_3'`. The last one
      sets the end to `int(start) + len(site) - 1`. */
  function TapirField(s: Record, line: string): (r: Result<Record, ParseError>)
    requires !IsDelimiter(line)
  {
    if StartsWith(line, "miRNA ") then
      match Token1(line)
      case None => Err(MissingField)
      case Some(v) => Ok(s.(mirna := v))
    else if StartsWith(line, "target ") then
      match Token1(line)
      case None => Err(MissingField)
      case Some(v) => Ok(s.(target := v))
    else if StartsWith(line, "score") then
      match Token1(line)
      case None => Err(MissingField)
      case Some(v) => Ok(s.(score := v))
    else if StartsWith(line, "start") then
      match Token1(line)
      case None => Err(MissingField)
      case Some(v) => Ok(s.(start := v))
    else if StartsWith(line, "miRNA_3'") then
      match Token1(line)
      case None => Err(MissingField)
      case Some(site) =>
        match ParseInt(s.start)
        case None => Err(NotAnInteger)
        case Some(k) => Ok(s.(end := IntToString(k + |site| - 1)))
    else
      Ok(s)
  }

  /** What a field line may and may not do: the energy never changes, a
      `miRNA ` or `target ` line never fails, a failure comes from a `score`,
      `start` or `miRNA_3'` line, and an unlabelled line changes nothing. */
  lemma TapirFieldEffect(s: Record, line: string)
    requires !IsDelimiter(line)
    ensures TapirField(s, line).Ok? ==> TapirField(s, line).value.energy == s.energy
    ensures StartsWith(line, "miRNA ") || StartsWith(line, "target ") ==> TapirField(s, line).Ok?
    ensures TapirField(s, line).Err? ==>
      StartsWith(line, "score") || StartsWith(line, "start") || StartsWith(line, "miRNA_3'")
    ensures (!StartsWith(line, "miRNA") && !StartsWith(line, "target ") && !StartsWith(line, "score")
             && !StartsWith(line, "start")) ==> TapirField(s, line) == Ok(s)
  {
    if StartsWith(line, "miRNA ") {
      assert IsWs(line[5]);
      Token1OfSpacedLine(line);
    } else if StartsWith(line, "target ") {
      assert IsWs(line[6]);
      Token1OfSpacedLine(line);
    } else if StartsWith(line, "miRNA_3'") {
      assert line[..5] == "miRNA";
    }
  }

  /** The records a run of lines produces from state `s`, the block still
      open at the end included. */
  function TapirRun(s: Record, ls: seq<string>): Result<seq<Record>, ParseError>
    decreases |ls|
  {
    if ls == [] then Ok(Flush(s))
    else if IsDelimiter(ls[0]) then
      match TapirRun(Reset, ls[1..])
      case Err(e) => Err(e)
      case Ok(rest) => Ok(Flush(s) + rest)
    else
      match TapirField(s, ls[0])
      case Err(e) => Err(e)
      case Ok(s') => TapirRun(s', ls[1..])
  }

  /** Two reads one after the other: the first error, else both record lists. */
  function AndThen(a: Result<seq<Record>, ParseError>, b: Result<seq<Record>, ParseError>): Result<seq<Record>, ParseError> {
    match a
    case Err(e) => Err(e)
    case Ok(x) =>
      match b
      case Err(e) => Err(e)
      case Ok(y) => Ok(x + y)
  }

  /** A delimiter line cuts the input in two independent reads: the lines
      before it read from `s` (their open block emitted), the lines after it
      read from the reset fields. */
  lemma {:induction false} TapirRunSplit(s: Record, before: seq<string>, d: string, after: seq<string>)
    requires IsDelimiter(d)
    ensures TapirRun(s, before + [d] + after) == AndThen(TapirRun(s, before), TapirRun(Reset, after))
    decreases |before|
  {
    if before == [] {
      assert before + [d] + after == [d] + after;
      RunDelimiter(s, d, after);
    } else {
      var l := before[0];
      var rest := before[1..];
      assert before + [d] + after == [l] + (rest + [d] + after);
      if IsDelimiter(l) {
        RunDelimiter(s, l, rest + [d] + after);
        RunDelimiter(s, l, rest);
        TapirRunSplit(Reset, rest, d, after);
        AndThenAssoc(Flush(s), TapirRun(Reset, rest), TapirRun(Reset, after));
      } else {
        assert [l] + rest == before;
        if TapirField(s, l).Ok? {
          RunField(s, l, rest + [d] + after, TapirField(s, l).value);
          RunField(s, l, rest, TapirField(s, l).value);
          TapirRunSplit(TapirField(s, l).value, rest, d, after);
        } else {
          assert ([l] + (rest + [d] + after))[1..] == rest + [d] + after;
        }
      }
    }
  }

  lemma AndThenAssoc(p: seq<Record>, a: Result<seq<Record>, ParseError>, b: Result<seq<Record>, ParseError>)
    ensures AndThen(Ok(p), AndThen(a, b)) == AndThen(AndThen(Ok(p), a), b)
  {
    if a.Ok? && b.Ok? {
      assert p + (a.value + b.value) == (p + a.value) + b.value;
    }
  }

  /** The records of one tapir output file. */
  function ParseTapir(text: string): Result<seq<Record>, ParseError> {
    TapirRun(Reset, Lines(text))
  }

  function Delimiters(ls: seq<string>): nat {
    if ls == [] then 0 else (if IsDelimiter(ls[0]) then 1 else 0) + Delimiters(ls[1..])
  }

  /** Every record has its microRNA and its target and reports no energy, and
      there is at most one record per delimiter plus the one left open. */
  lemma {:induction false} TapirRunRecords(s: Record, ls: seq<string>)
    requires s.energy == "n/a"
    ensures TapirRun(s, ls).Ok? ==> |TapirRun(s, ls).value| <= Delimiters(ls) + 1
    ensures TapirRun(s, ls).Ok? ==> forall i :: 0 <= i < |TapirRun(s, ls).value| ==>
      Complete(TapirRun(s, ls).value[i]) && TapirRun(s, ls).value[i].energy == "n/a"
    decreases |ls|
  {
    if ls != [] {
      if IsDelimiter(ls[0]) {
        TapirRunRecords(Reset, ls[1..]);
      } else {
        TapirFieldEffect(s, ls[0]);
        if TapirField(s, ls[0]).Ok? {
          TapirRunRecords(TapirField(s, ls[0]).value, ls[1..]);
        }
      }
    }
  }

  lemma ParseTapirRecords(text: string)
    ensures ParseTapir(text).Ok? ==> |ParseTapir(text).value| <= Delimiters(Lines(text)) + 1
    ensures ParseTapir(text).Ok? ==> forall i :: 0 <= i < |ParseTapir(text).value| ==>
      Complete(ParseTapir(text).value[i]) && ParseTapir(text).value[i].energy == "n/a"
  {
    TapirRunRecords(Reset, Lines(text));
  }

  // ---------------------------------------------------------------------------
  // Reading back well-formed tapir output
  // ---------------------------------------------------------------------------

  /** One hit as tapir reports it, reduced to the fields the reader uses:
      `site` is the matched 3' subsequence. */
  datatype TapirHit = TapirHit(mirna: string, target: string, score: string, start: nat, site: string)

  predicate PlainHit(h: TapirHit) {
    && h.mirna != [] && WsFree(h.mirna)
    && h.target != [] && WsFree(h.target)
    && h.score != [] && WsFree(h.score)
    && h.site != [] && WsFree(h.site)
  }

  /** The labelled lines of one hit's block, closed by `//`. */
  function HitLines(h: TapirHit): seq<string> {
    [ "miRNA " + h.mirna + "\n", "target " + h.target + "\n", "score " + h.score + "\n"
    , "start " + IntToString(h.start) + "\n", "miRNA_3' " + h.site + "\n", "//\n" ]
  }

  /** The record a hit stands for: the end is the last target position the
      site covers. */
  function HitRecord(h: TapirHit): Record {
    Record(h.mirna, h.target, "n/a", IntToString(h.start), IntToString(h.start + |h.site| - 1), h.score)
  }

  function TapirLines(hs: seq<TapirHit>): seq<string> {
    if hs == [] then [] else HitLines(hs[0]) + TapirLines(hs[1..])
  }

  function HitRecords(hs: seq<TapirHit>): (rs: seq<Record>)
    ensures |rs| == |hs| && forall i :: 0 <= i < |hs| ==> rs[i] == HitRecord(hs[i])
  {
    seq(|hs|, i requires 0 <= i < |hs| => HitRecord(hs[i]))
  }

  // ---------------------------------------------------------------------------
  // One run per microRNA record
  // ---------------------------------------------------------------------------

  /** The hits of every per-record run, in split order. */
  function Flatten(hss: seq<seq<TapirHit>>): seq<TapirHit> {
    if hss == [] then [] else hss[0] + Flatten(hss[1..])
  }

  /** The per-record output files, one per split microRNA file. */
  function RunOutputs(hss: seq<seq<TapirHit>>): (outs: seq<string>)
    ensures |outs| == |hss|
  {
    seq(|hss|, i requires 0 <= i < |hss| => Concat(TapirLines(hss[i])))
  }

  predicate AllPlain(hss: seq<seq<TapirHit>>) {
    forall i, j :: 0 <= i < |hss| && 0 <= j < |hss[i]| ==> PlainHit(hss[i][j])
  }

  /** `joinTmpFiles` concatenates the per-record outputs in split order with
      `cat`; reading the joined file gives every run's records, run by run. */
  lemma JoinedRunsRoundTrip(hss: seq<seq<TapirHit>>)
    requires AllPlain(hss)
    ensures ParseTapir(Concat(RunOutputs(hss))) == Ok(HitRecords(Flatten(hss)))
  {
    JoinedTexts(hss);
    FlattenPlain(hss);
    TapirRoundTrip(Flatten(hss));
  }

  lemma {:induction false} JoinedTexts(hss: seq<seq<TapirHit>>)
    ensures Concat(RunOutputs(hss)) == Concat(TapirLines(Flatten(hss)))
    decreases |hss|
  {
    if hss != [] {
      JoinedTexts(hss[1..]);
      assert RunOutputs(hss) == [Concat(TapirLines(hss[0]))] + RunOutputs(hss[1..]);
      TapirLinesAppend(hss[0], Flatten(hss[1..]));
      ConcatAppend(TapirLines(hss[0]), TapirLines(Flatten(hss[1..])));
    }
  }

  lemma {:induction false} TapirLinesAppend(a: seq<TapirHit>, b: seq<TapirHit>)
    ensures TapirLines(a + b) == TapirLines(a) + TapirLines(b)
    decreases |a|
  {
    if a == [] {
      assert a + b == b;
    } else {
      assert (a + b)[1..] == a[1..] + b;
      TapirLinesAppend(a[1..], b);
    }
  }

  lemma {:induction false} FlattenPlain(hss: seq<seq<TapirHit>>)
    requires AllPlain(hss)
    ensures forall k :: 0 <= k < |Flatten(hss)| ==> PlainHit(Flatten(hss)[k])
    decreases |hss|
  {
    if hss != [] {
      FlattenPlain(hss[1..]);
      var f := Flatten(hss);
      forall k | 0 <= k < |f| ensures PlainHit(f[k]) {
        if k >= |hss[0]| {
          assert f[k] == Flatten(hss[1..])[k - |hss[0]|];
        }
      }
    }
  }

  /** Reading the tapir output of a sequence of hits gives one record per hit,
      in order, with the end computed from the start and the site length. */
  lemma TapirRoundTrip(hs: seq<TapirHit>)
    requires forall i :: 0 <= i < |hs| ==> PlainHit(hs[i])
    ensures ParseTapir(Concat(TapirLines(hs))) == Ok(HitRecords(hs))
  {
    TapirLinesAreLines(hs);
    LinesOfConcat(TapirLines(hs));
    TapirRunOfHits(hs);
  }

  lemma {:induction false} TapirRunOfHits(hs: seq<TapirHit>)
    requires forall i :: 0 <= i < |hs| ==> PlainHit(hs[i])
    ensures TapirRun(Reset, TapirLines(hs)) == Ok(HitRecords(hs))
    decreases |hs|
  {
    if hs != [] {
      TapirRunOfHits(hs[1..]);
      TapirBlock(hs[0], TapirLines(hs[1..]));
      HitRecordsCons(hs);
    }
  }

  lemma HitRecordsCons(hs: seq<TapirHit>)
    requires hs != []
    ensures HitRecords(hs) == [HitRecord(hs[0])] + HitRecords(hs[1..])
  {
  }

  /** A hit's block emits its record and leaves the reader reset. */
  lemma TapirBlock(h: TapirHit, rest: seq<string>)
    requires PlainHit(h)
    ensures TapirRun(Reset, HitLines(h) + rest) ==
      match TapirRun(Reset, rest)
      case Err(e) => Err(e)
      case Ok(rs) => Ok([HitRecord(h)] + rs)
  {
    var ls := HitLines(h);
    var s3 := Reset.(mirna := h.mirna, target := h.target, score := h.score);
    var tail := [ls[3], ls[4], ls[5]] + rest;
    assert ls + rest == [ls[0], ls[1], ls[2]] + tail;
    NamingLines(h, tail);
    PositionLines(h, s3, rest);
  }

  /** The `miRNA `, `target ` and `score` lines fill the first three fields. */
  lemma NamingLines(h: TapirHit, tail: seq<string>)
    requires PlainHit(h)
    ensures TapirRun(Reset, [HitLines(h)[0], HitLines(h)[1], HitLines(h)[2]] + tail)
      == TapirRun(Reset.(mirna := h.mirna, target := h.target, score := h.score), tail)
  {
    var ls := HitLines(h);
    var s1 := Reset.(mirna := h.mirna);
    var s2 := s1.(target := h.target);
    var s3 := s2.(score := h.score);
    var r2 := [ls[2]] + tail;
    var r1 := [ls[1]] + r2;
    assert [ls[0], ls[1], ls[2]] + tail == [ls[0]] + r1;
    MirnaLine(Reset, h.mirna);
    RunField(Reset, ls[0], r1, s1);
    TargetLine(s1, h.target);
    RunField(s1, ls[1], r2, s2);
    ScoreLine(s2, h.score);
    RunField(s2, ls[2], tail, s3);
  }

  /** The `start` and `miRNA_3'` lines set start and end, and `//` emits. */
  lemma PositionLines(h: TapirHit, s3: Record, rest: seq<string>)
    requires PlainHit(h) && s3 == Reset.(mirna := h.mirna, target := h.target, score := h.score)
    ensures TapirRun(s3, [HitLines(h)[3], HitLines(h)[4], HitLines(h)[5]] + rest) ==
      match TapirRun(Reset, rest)
      case Err(e) => Err(e)
      case Ok(rs) => Ok([HitRecord(h)] + rs)
  {
    var ls := HitLines(h);
    var r5 := [ls[5]] + rest;
    assert [ls[3], ls[4], ls[5]] + rest == [ls[3], ls[4]] + r5;
    PositionFields(h, s3, r5);
    assert "//\n"[..2] == "//";
    RunDelimiter(HitRecord(h), ls[5], rest);
  }

  lemma PositionFields(h: TapirHit, s3: Record, r5: seq<string>)
    requires PlainHit(h) && s3 == Reset.(mirna := h.mirna, target := h.target, score := h.score)
    ensures TapirRun(s3, [HitLines(h)[3], HitLines(h)[4]] + r5) == TapirRun(HitRecord(h), r5)
  {
    var ls := HitLines(h);
    var s4 := s3.(start := IntToString(h.start));
    var s5 := s4.(end := IntToString(h.start + |h.site| - 1));
    assert s5 == HitRecord(h);
    var r4 := [ls[4]] + r5;
    assert ls[3] == "start " + IntToString(h.start) + "\n";
    assert ls[4] == "miRNA_3' " + h.site + "\n";
    assert [ls[3], ls[4]] + r5 == [ls[3]] + r4;
    calc {
      TapirRun(s3, [ls[3]] + r4);
      { StartStep(s3, h.start, r4); }
      TapirRun(s4, r4);
      { SiteStep(s4, h.start, h.site, r5); }
      TapirRun(s5, r5);
    }
  }

  lemma StartStep(s: Record, k: nat, rest: seq<string>)
    ensures TapirRun(s, ["start " + IntToString(k) + "\n"] + rest) == TapirRun(s.(start := IntToString(k)), rest)
  {
    StartLine(s, k);
    RunField(s, "start " + IntToString(k) + "\n", rest, s.(start := IntToString(k)));
  }

  lemma SiteStep(s: Record, k: nat, site: string, rest: seq<string>)
    requires site != [] && WsFree(site) && s.start == IntToString(k)
    ensures TapirRun(s, ["miRNA_3' " + site + "\n"] + rest) == TapirRun(s.(end := IntToString(k + |site| - 1)), rest)
  {
    SiteLine(s, k, site);
    RunField(s, "miRNA_3' " + site + "\n", rest, s.(end := IntToString(k + |site| - 1)));
  }

  lemma RunField(s: Record, l: string, ls: seq<string>, s': Record)
    requires !IsDelimiter(l) && TapirField(s, l) == Ok(s')
    ensures TapirRun(s, [l] + ls) == TapirRun(s', ls)
  {
    assert ([l] + ls)[1..] == ls;
  }

  lemma RunDelimiter(s: Record, l: string, ls: seq<string>)
    requires IsDelimiter(l)
    ensures TapirRun(s, [l] + ls) ==
      match TapirRun(Reset, ls)
      case Err(e) => Err(e)
      case Ok(rs) => Ok(Flush(s) + rs)
  {
    assert ([l] + ls)[1..] == ls;
  }

  lemma MirnaLine(s: Record, v: string)
    requires v != [] && WsFree(v)
    ensures !IsDelimiter("miRNA " + v + "\n")
    ensures TapirField(s, "miRNA " + v + "\n") == Ok(s.(mirna := v))
  {
    TagDecides("miRNA ", v, "#");
    TagDecides("miRNA ", v, "//");
    TagDecides("miRNA ", v, "miRNA ");
    Token1OfField("miRNA ", v);
  }

  lemma TargetLine(s: Record, v: string)
    requires v != [] && WsFree(v)
    ensures !IsDelimiter("target " + v + "\n")
    ensures TapirField(s, "target " + v + "\n") == Ok(s.(target := v))
  {
    TagDecides("target ", v, "#");
    TagDecides("target ", v, "//");
    TagDecides("target ", v, "miRNA ");
    TagDecides("target ", v, "target ");
    Token1OfField("target ", v);
  }

  lemma ScoreLine(s: Record, v: string)
    requires v != [] && WsFree(v)
    ensures !IsDelimiter("score " + v + "\n")
    ensures TapirField(s, "score " + v + "\n") == Ok(s.(score := v))
  {
    TagDecides("score ", v, "#");
    TagDecides("score ", v, "//");
    TagDecides("score ", v, "miRNA ");
    FirstCharDiffers("score ", v, "target ");
    TagDecides("score ", v, "score");
    Token1OfField("score ", v);
  }

  lemma StartLine(s: Record, k: nat)
    ensures !IsDelimiter("start " + IntToString(k) + "\n")
    ensures TapirField(s, "start " + IntToString(k) + "\n") == Ok(s.(start := IntToString(k)))
  {
    var v := IntToString(k);
    NumeralIsWord(k);
    TagDecides("start ", v, "#");
    TagDecides("start ", v, "//");
    TagDecides("start ", v, "miRNA ");
    FirstCharDiffers("start ", v, "target ");
    TagDecides("start ", v, "score");
    TagDecides("start ", v, "start");
    Token1OfField("start ", v);
  }

  lemma SiteLine(s: Record, k: nat, site: string)
    requires site != [] && WsFree(site) && s.start == IntToString(k)
    ensures !IsDelimiter("miRNA_3' " + site + "\n")
    ensures TapirField(s, "miRNA_3' " + site + "\n") == Ok(s.(end := IntToString(k + |site| - 1)))
  {
    var l := "miRNA_3' " + site + "\n";
    TagDecides("miRNA_3' ", site, "#");
    TagDecides("miRNA_3' ", site, "//");
    assert !IsDelimiter(l);
    TagDecides("miRNA_3' ", site, "miRNA ");
    assert "miRNA_3' "[..6][5] == '_';
    FirstCharDiffers("miRNA_3' ", site, "target ");
    TagDecides("miRNA_3' ", site, "score");
    TagDecides("miRNA_3' ", site, "start");
    TagDecides("miRNA_3' ", site, "miRNA_3'");
    assert !StartsWith(l, "miRNA ") && !StartsWith(l, "target ");
    assert !StartsWith(l, "score") && !StartsWith(l, "start") && StartsWith(l, "miRNA_3'");
    Token1OfField("miRNA_3' ", site);
    IntToStringRoundTrip(k);
    SiteDispatch(s, l, site, k);
  }

  lemma SiteDispatch(s: Record, l: string, site: string, k: int)
    requires !IsDelimiter(l) && !StartsWith(l, "miRNA ") && !StartsWith(l, "target ")
    requires !StartsWith(l, "score") && !StartsWith(l, "start") && StartsWith(l, "miRNA_3'")
    requires Token1(l) == Some(site) && ParseInt(s.start) == Some(k)
    ensures TapirField(s, l) == Ok(s.(end := IntToString(k + |site| - 1)))
  {
  }

  /** Whether a labelled line starts with a prefix no longer than its tag is
      decided by the tag alone. */
  lemma TagDecides(tag: string, v: string, p: string)
    requires |p| <= |tag|
    ensures StartsWith(tag + v + "\n", p) <==> tag[..|p|] == p
  {
    assert (tag + v + "\n")[..|p|] == tag[..|p|];
  }

  lemma FirstCharDiffers(tag: string, v: string, p: string)
    requires tag != [] && p != [] && tag[0] != p[0]
    ensures !StartsWith(tag + v + "\n", p)
  {
    var l := tag + v + "\n";
    assert l[0] == tag[0];
    assert |p| <= |l| ==> l[..|p|][0] == l[0];
  }

  /** The value of a line `<word> <value>\n` is its second token. */
  lemma Token1OfField(tag: string, v: string)
    requires |tag| >= 2 && tag[|tag| - 1] == ' ' && WsFree(tag[..|tag| - 1])
    requires v != [] && WsFree(v)
    ensures Token1(tag + v + "\n") == Some(v)
  {
    var w := tag[..|tag| - 1];
    assert tag == w + " ";
    assert tag + v + "\n" == w + " " + v + "\n";
    SplitWsFieldLine(w, v);
  }

  lemma NumeralIsWord(k: nat)
    ensures IntToString(k) != [] && WsFree(IntToString(k))
  {
    var v := IntToString(k);
    forall i | 0 <= i < |v| ensures !IsWs(v[i]) {
      assert IsDigit(v[i]);
    }
  }

  /** The rendered lines are lines of a text file. */
  lemma {:induction false} TapirLinesAreLines(hs: seq<TapirHit>)
    requires forall i :: 0 <= i < |hs| ==> PlainHit(hs[i])
    ensures IsLineSeq(TapirLines(hs))
    ensures forall i :: 0 <= i < |TapirLines(hs)| ==> TapirLines(hs)[i][|TapirLines(hs)[i]| - 1] == '\n'
    decreases |hs|
  {
    if hs != [] {
      TapirLinesAreLines(hs[1..]);
      HitLinesAreLines(hs[0]);
      var a := HitLines(hs[0]);
      var b := TapirLines(hs[1..]);
      forall i | 0 <= i < |a + b| ensures ClosedLine((a + b)[i]) {
        if i < |a| { assert (a + b)[i] == a[i]; } else { assert (a + b)[i] == b[i - |a|]; }
      }
    }
  }

  lemma HitLinesAreLines(h: TapirHit)
    requires PlainHit(h)
    ensures forall i :: 0 <= i < |HitLines(h)| ==> ClosedLine(HitLines(h)[i])
  {
    LabelledLine("miRNA ", h.mirna);
    LabelledLine("target ", h.target);
    LabelledLine("score ", h.score);
    NumeralIsWord(h.start);
    LabelledLine("start ", IntToString(h.start));
    LabelledLine("miRNA_3' ", h.site);
  }

  lemma LabelledLine(tag: string, v: string)
    requires '\n' !in tag && WsFree(v)
    ensures ClosedLine(tag + v + "\n")
  {
    var l := tag + v + "\n";
    forall j | 0 <= j < |l| - 1 ensures l[j] != '\n' {
      if j < |tag| { assert l[j] == tag[j]; } else { assert l[j] == v[j - |tag|]; }
    }
  }
}
