/**
 * The input-side text handling of exec/miRNAconsTargets_plants.py: the
 * working-directory normalisation, the FASTA header rewrite of `inputfiles`,
 * the output basename used in every file name, and `oneMiRfile`, which cuts
 * the microRNA file into one file per (header, sequence) pair.
 */
module Fasta {
  import opened Wrappers
  import opened Text

  // ---------------------------------------------------------------------------
  // Working directory
  // ---------------------------------------------------------------------------

  /** The module-level `wd`: the output directory, `"."` when empty, with one
      trailing slash dropped. */
  function WorkDir(dir: string): (wd: string)
    ensures dir == [] ==> wd == "."
    ensures dir != [] ==> wd <= dir && |dir| - 1 <= |wd|
    ensures wd == [] <==> dir == "/"
    ensures (wd != [] && wd[|wd| - 1] == '/') <==> (|dir| >= 2 && dir[|dir| - 2..] == "//")
    ensures dir != [] ==> (wd == dir <==> dir[|dir| - 1] != '/')
  {
    if dir == [] then "."
    else if dir[|dir| - 1] == '/' then dir[..|dir| - 1]
    else dir
  }

  /** One appended slash is exactly what the normalisation takes away. */
  lemma WorkDirDropsAppendedSlash(dir: string)
    ensures WorkDir(dir + "/") == dir
  {
  }

  // ---------------------------------------------------------------------------
  // Header normalisation
  // ---------------------------------------------------------------------------

  predicate IsHeader(line: string) {
    line != [] && line[0] == '>'
  }

  /** One line of `inputfiles`: a header line becomes its first
      whitespace-delimited token plus a newline; any other line is copied. */
  function NormaliseLine(line: string): (r: string)
    requires line != []
    ensures IsHeader(line) ==> |r| >= 2 && r[|r| - 1] == '\n' && LongestWsFreePrefix(r[..|r| - 1], line)
    ensures !IsHeader(line) ==> r == line
  {
    if line[0] == '>' then
      var t := SplitWs(line)[0];
      SplitWsFirst(line);
      assert !IsWs('>');
      assert (t + "\n")[..|t|] == t;
      t + "\n"
    else
      line
  }

  /** A normalised line is normalised already. */
  lemma NormaliseLineIdempotent(line: string)
    requires line != []
    ensures NormaliseLine(NormaliseLine(line)) == NormaliseLine(line)
  {
    if IsHeader(line) {
      var r := NormaliseLine(line);
      var t := r[..|r| - 1];
      assert r == t + "\n";
      assert r[0] == '>';
      var t' := SplitWs(r)[0];
      assert LongestWsFreePrefix(t, r);
      LongestWsFreePrefixUnique(t, t', r);
    }
  }

  function NormaliseLines(ls: seq<string>): (r: seq<string>)
    requires forall i :: 0 <= i < |ls| ==> ls[i] != []
    ensures |r| == |ls|
    ensures forall i :: 0 <= i < |ls| ==> r[i] == NormaliseLine(ls[i])
  {
    seq(|ls|, i requires 0 <= i < |ls| => NormaliseLine(ls[i]))
  }

  /** Normalising keeps the shape of a sequence of file lines. */
  lemma NormaliseKeepsLines(ls: seq<string>)
    requires IsLineSeq(ls)
    ensures IsLineSeq(NormaliseLines(ls))
  {
    var r := NormaliseLines(ls);
    forall i | 0 <= i < |ls|
      ensures r[i] != [] && forall j :: 0 <= j < |r[i]| - 1 ==> r[i][j] != '\n'
    {
      if IsHeader(ls[i]) {
        var t := r[i][..|r[i]| - 1];
        assert WsFree(t);
        assert IsWs('\n');
        forall j | 0 <= j < |r[i]| - 1 ensures r[i][j] != '\n' {
          assert r[i][j] == t[j];
        }
      }
    }
  }

  /** `inputfiles` on one file: the text with every header line rewritten. */
  function NormaliseFasta(text: string): (r: string)
    ensures |Lines(r)| == |Lines(text)|
    ensures forall i :: 0 <= i < |Lines(text)| ==> Lines(r)[i] == NormaliseLine(Lines(text)[i])
  {
    var ls := NormaliseLines(Lines(text));
    NormaliseKeepsLines(Lines(text));
    LinesOfConcat(ls);
    Concat(ls)
  }

  /** Header normalisation is idempotent: a normalised file comes out
      byte-identical. */
  lemma NormaliseFastaIdempotent(text: string)
    ensures NormaliseFasta(NormaliseFasta(text)) == NormaliseFasta(text)
  {
    var once := NormaliseFasta(text);
    var twice := NormaliseFasta(once);
    var a := Lines(text);
    var b := Lines(once);
    var c := Lines(twice);
    forall i | 0 <= i < |c| ensures c[i] == b[i] {
      NormaliseLineIdempotent(a[i]);
    }
    assert c == b;
    calc {
      twice;
      Concat(c);
      Concat(b);
      once;
    }
  }

  // ---------------------------------------------------------------------------
  // File names
  // ---------------------------------------------------------------------------

  /** `path.split("/")[-1].split(".")[0]`: the file name up to its first dot. */
  function Basename(path: string): (b: string)
    ensures '/' !in b && '.' !in b
  {
    BasenameChars(path);
    SplitOn(Last(SplitOn(path, "/")), ".")[0]
  }

  lemma BasenameChars(path: string)
    ensures var b := SplitOn(Last(SplitOn(path, "/")), ".")[0];
      '/' !in b && '.' !in b
  {
    var parts := SplitOn(path, "/");
    var last := Last(parts);
    var b := SplitOn(last, ".")[0];
    SplitOnTokens(path, "/");
    SplitOnTokens(last, ".");
    NoOccurrenceChar(last, '/');
    NoOccurrenceChar(b, '.');
    PrefixLacks(last, b, '/');
  }

  /** The basename of `dir/name.ext` is `name`. */
  lemma BasenameOfPath(dir: string, name: string, ext: string)
    requires '/' !in name && '.' !in name && '/' !in ext
    ensures Basename(dir + "/" + name + "." + ext) == name
  {
    var last := name + "." + ext;
    var path := PathShape(dir, name, ext);
    LastSplitToken(path, '/', |dir|);
    assert Last(SplitOn(path, "/")) == last;
    NameShape(name, ext);
    FirstSplitToken(last, '.', |name|);
    assert SplitOn(last, ".")[0] == name;
  }

  lemma PathShape(dir: string, name: string, ext: string) returns (path: string)
    requires '/' !in name && '/' !in ext
    ensures path == dir + "/" + name + "." + ext
    ensures |dir| < |path| && path[|dir|] == '/'
    ensures path[|dir| + 1..] == name + "." + ext && '/' !in path[|dir| + 1..]
  {
    path := dir + "/" + (name + "." + ext);
    assert path == dir + "/" + name + "." + ext;
  }

  lemma NameShape(name: string, ext: string)
    requires '.' !in name
    ensures var last := name + "." + ext;
      |name| < |last| && last[|name|] == '.' && last[..|name|] == name && '.' !in last[..|name|]
  {
    var last := name + "." + ext;
    assert last[..|name|] == name;
  }

  /** The per-record input written by `oneMiRfile` for record `c`. */
  function SplitFileName(wd: string, c: nat): string {
    wd + "/tmp/" + NatToString(c) + ".fa"
  }

  /** Different records are written to different files. */
  lemma SplitFileNamesDistinct(wd: string, i: nat, j: nat)
    ensures SplitFileName(wd, i) == SplitFileName(wd, j) ==> i == j
  {
    if SplitFileName(wd, i) == SplitFileName(wd, j) {
      var p := wd + "/tmp/";
      var a := NatToString(i);
      var b := NatToString(j);
      assert |a| == |b|;
      assert (p + a + ".fa")[|p|..|p| + |a|] == a;
      assert (p + b + ".fa")[|p|..|p| + |b|] == b;
      NatToStringInjective(i, j);
    }
  }

  /** The per-record output of a tapir run as written: `tfile.replace(".fa",
      ext)`, which rewrites every `.fa` in the path, the directory included.
      Without a `.fa` in the directory only the extension changes; with one,
      the name keeps the directory only up to its first `.fa`, where the new
      extension is written instead. */
  function RecordOutputNameAsWritten(wd: string, c: nat, ext: string): (r: string)
    ensures NoOccurrence(wd, ".fa") ==> r == RecordOutputName(wd, c, ext)
    ensures IndexOf(wd, ".fa").Some? ==>
      var j := IndexOf(wd, ".fa").value;
      j + |ext| <= |r| && r[..j + |ext|] == wd[..j] + ext
  {
    ExtensionOnly(wd, c, ext);
    if IndexOf(wd, ".fa").Some? then
      DirectoryCut(wd, c, ext, IndexOf(wd, ".fa").value);
      ReplaceAll(SplitFileName(wd, c), ".fa", ext)
    else
      ReplaceAll(SplitFileName(wd, c), ".fa", ext)
  }

  /** The per-record output with only the extension swapped; the directory
      is kept whole. */
  function RecordOutputName(wd: string, c: nat, ext: string): (name: string)
    ensures name == SplitFileName(wd, c)[..|SplitFileName(wd, c)| - 3] + ext
    ensures |wd| <= |name| && name[..|wd|] == wd
  {
    var stem := wd + "/tmp/" + NatToString(c);
    assert SplitFileName(wd, c) == stem + ".fa";
    stem + ext
  }

  /** Different records write to different outputs. */
  lemma RecordOutputNamesDistinct(wd: string, i: nat, j: nat, ext: string)
    ensures RecordOutputName(wd, i, ext) == RecordOutputName(wd, j, ext) ==> i == j
  {
    if RecordOutputName(wd, i, ext) == RecordOutputName(wd, j, ext) {
      var p := wd + "/tmp/";
      var a := NatToString(i);
      var b := NatToString(j);
      assert |a| == |b|;
      assert (p + a + ext)[|p|..|p| + |a|] == a;
      assert (p + b + ext)[|p|..|p| + |b|] == b;
      NatToStringInjective(i, j);
    }
  }

  /** When the directory holds no `.fa`, the replacement touches only the
      extension. */
  lemma ExtensionOnly(wd: string, c: nat, ext: string)
    ensures NoOccurrence(wd, ".fa") ==>
      ReplaceAll(SplitFileName(wd, c), ".fa", ext) == RecordOutputName(wd, c, ext)
  {
    if NoOccurrence(wd, ".fa") {
      var stem := wd + "/tmp/" + NatToString(c);
      assert SplitFileName(wd, c) == stem + ".fa";
      StemCutsCleanly(wd, NatToString(c));
      ReplaceTrailing(stem, ".fa", ext);
    }
  }

  /** The leftmost `.fa` of the directory is the leftmost one of the whole
      path, and the replacement lands there. */
  lemma DirectoryCut(wd: string, c: nat, ext: string, j: nat)
    requires IndexOf(wd, ".fa") == Some(j)
    ensures var r := ReplaceAll(SplitFileName(wd, c), ".fa", ext);
      j + |ext| <= |r| && r[..j + |ext|] == wd[..j] + ext
  {
    var s := SplitFileName(wd, c);
    assert s == wd + ("/tmp/" + NatToString(c) + ".fa");
    assert s[j..j + 3] == wd[j..j + 3];
    forall i: nat | i < j ensures !OccursAt(s, ".fa", i) {
      assert !OccursAt(wd, ".fa", i);
      assert s[i..i + 3] == wd[i..i + 3];
    }
    ReplaceAtFirst(s, ".fa", ext, j);
    assert s[..j] == wd[..j];
  }

  lemma StemCutsCleanly(wd: string, d: string)
    requires NoOccurrence(wd, ".fa") && AllDigits(d)
    ensures CutsCleanly(wd + "/tmp/" + d, ".fa")
  {
    var s := wd + "/tmp/" + d;
    var t := s + ".fa";
    forall j | 0 <= j < |s| ensures !OccursAt(t, ".fa", j) {
      FaChars(t, j);
      if j + 3 <= |wd| {
        assert t[j..j + 3] == wd[j..j + 3];
        assert !OccursAt(wd, ".fa", j);
      } else if j + 2 == |wd| {
        assert t[j + 2] == '/';
      } else if j + 1 == |wd| {
        assert t[j + 1] == '/';
      } else if j < |wd| + 5 {
        assert t[j] == "/tmp/"[j - |wd|];
      } else {
        assert t[j] == d[j - |wd| - 5];
        assert IsDigit(d[j - |wd| - 5]);
      }
    }
  }

  lemma FaChars(t: string, j: nat)
    ensures OccursAt(t, ".fa", j) ==> t[j] == '.' && t[j + 1] == 'f' && t[j + 2] == 'a'
  {
    if OccursAt(t, ".fa", j) {
      assert t[j..j + 3][0] == t[j] && t[j..j + 3][1] == t[j + 1] && t[j..j + 3][2] == t[j + 2];
    }
  }

  /** A directory `x.fa` sends tapir's output for record 0 to a directory
      that does not exist. */
  lemma FaInDirectoryRewritten()
    ensures RecordOutputNameAsWritten("x.fa", 0, ".tapir_fasta") == "x" + ".tapir_fasta" + "/tmp/0" + ".tapir_fasta"
    ensures RecordOutputName("x.fa", 0, ".tapir_fasta") == "x.fa" + "/tmp/0" + ".tapir_fasta"
  {
    var ext := ".tapir_fasta";
    assert NatToString(0) == "0";
    var name := SplitFileName("x.fa", 0);
    assert name == "x" + (".fa" + "/tmp/0" + ".fa");
    RewrittenName(name, ext);
  }

  lemma RewrittenName(name: string, ext: string)
    requires name == "x" + (".fa" + "/tmp/0" + ".fa")
    ensures ReplaceAll(name, ".fa", ext) == "x" + ext + "/tmp/0" + ext
  {
    FaChars(name, 0);
    ReplaceStep(name, ".fa", ext);
    assert name[1..] == ".fa" + "/tmp/0" + ".fa";
    FrontRewritten("/tmp/0", ext);
  }

  lemma ReplaceStep(s: string, pat: string, rep: string)
    requires pat != [] && s != [] && !OccursAt(s, pat, 0)
    ensures ReplaceAll(s, pat, rep) == [s[0]] + ReplaceAll(s[1..], pat, rep)
  {
  }

  lemma FrontRewritten(stem: string, ext: string)
    requires stem == "/tmp/0"
    ensures ReplaceAll(".fa" + stem + ".fa", ".fa", ext) == ext + stem + ext
  {
    var s := ".fa" + stem + ".fa";
    assert s[0..3] == ".fa";
    assert s[3..] == stem + ".fa";
    forall j | 0 <= j < |stem| ensures !OccursAt(stem + ".fa", ".fa", j) {
      assert (stem + ".fa")[j] == stem[j];
      FaChars(stem + ".fa", j);
    }
    ReplaceTrailing(stem, ".fa", ext);
  }

  // ---------------------------------------------------------------------------
  // oneMiRfile
  // ---------------------------------------------------------------------------

  /** Consecutive pairs of lines, each pair concatenated; a last unpaired line
      is dropped. */
  function PairLines(ls: seq<string>): (files: seq<string>)
    ensures |files| == |ls| / 2
    ensures forall i :: 0 <= i < |files| ==> files[i] == ls[2 * i] + ls[2 * i + 1]
  {
    if |ls| < 2 then [] else [ls[0] + ls[1]] + PairLines(ls[2..])
  }

  /** A split file as `oneMiRfile` writes it. */
  datatype SplitFile = SplitFile(path: string, content: string)

  /** `oneMiRfile`: `readline` pairs (header, sequence) until either read comes
      back empty; pair `c` goes to `<wd>/tmp/<c>.fa`. */
  function SplitMicroRnaFile(wd: string, text: string): (files: seq<SplitFile>)
    ensures |files| == |Lines(text)| / 2
    ensures forall i :: 0 <= i < |files| ==>
      files[i].content == Lines(text)[2 * i] + Lines(text)[2 * i + 1]
    ensures forall i :: 0 <= i < |files| ==> files[i].path == SplitFileName(wd, i)
  {
    var pairs := PairLines(Lines(text));
    seq(|pairs|, i requires 0 <= i < |pairs| => SplitFile(SplitFileName(wd, i), pairs[i]))
  }

  /** Every split file reads back as exactly one header line and one sequence line. */
  lemma SplitFileHoldsOneRecord(wd: string, text: string, i: nat)
    requires i < |SplitMicroRnaFile(wd, text)|
    ensures Lines(SplitMicroRnaFile(wd, text)[i].content) == [Lines(text)[2 * i], Lines(text)[2 * i + 1]]
  {
    var ls := Lines(text);
    var pair := [ls[2 * i], ls[2 * i + 1]];
    assert IsLineSeq(pair);
    assert Concat(pair) == ls[2 * i] + ls[2 * i + 1] by {
      assert Concat(pair[1..]) == ls[2 * i + 1] + Concat([]);
    }
    LinesOfConcat(pair);
  }

  function Contents(files: seq<SplitFile>): (cs: seq<string>)
    ensures |cs| == |files|
    ensures forall i :: 0 <= i < |files| ==> cs[i] == files[i].content
  {
    seq(|files|, i requires 0 <= i < |files| => files[i].content)
  }

  /** The line a pairing leaves over: the last one when the count is odd. */
  function Unpaired(ls: seq<string>): string {
    if |ls| % 2 == 1 then ls[|ls| - 1] else []
  }

  lemma {:induction false} ConcatPairsAndRest(ls: seq<string>)
    ensures Concat(PairLines(ls)) + Unpaired(ls) == Concat(ls)
    decreases |ls|
  {
    if |ls| >= 2 {
      var rest := ls[2..];
      ConcatPairsAndRest(rest);
      assert Unpaired(ls) == Unpaired(rest);
      assert ls[1..][1..] == rest;
      assert Concat(ls) == ls[0] + (ls[1] + Concat(rest));
      assert PairLines(ls) == [ls[0] + ls[1]] + PairLines(rest);
      assert Concat(PairLines(ls)) == ls[0] + ls[1] + Concat(PairLines(rest));
    } else if |ls| == 1 {
      assert Concat(ls) == ls[0] + Concat([]);
    }
  }

  /** Concatenating the split files in split order gives the microRNA file
      back, except for a trailing header that has no sequence line. */
  lemma SplitThenConcat(wd: string, text: string)
    ensures Concat(Contents(SplitMicroRnaFile(wd, text))) + Unpaired(Lines(text)) == text
  {
    ContentsArePairs(wd, text);
    ConcatPairsAndRest(Lines(text));
  }

  lemma ContentsArePairs(wd: string, text: string)
    ensures Contents(SplitMicroRnaFile(wd, text)) == PairLines(Lines(text))
  {
  }
}
