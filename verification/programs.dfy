/**
 * The program list and its parameters, as `args_check` in
 * exec/miRNAconsTargets_plants.py validates and reconciles them, the reserved
 * flags `execute_programs` removes from user parameters, and the support
 * threshold handed to the positional-consensus step.
 */
module Programs {
  import opened Wrappers
  import opened Text
  import NumberWords

  // ---------------------------------------------------------------------------
  // The programs table
  // ---------------------------------------------------------------------------

  /** The four keys of the `programs` table: psRNATarget (whose output the user
      supplies), psRobot, tapir_fasta and tapir_hybrid. */
  datatype Tool = Psrt | PsRobot | TapirFasta | TapirHybrid

  function ToolName(t: Tool): string {
    match t
    case Psrt => "PSRT"
    case PsRobot => "PSROBOT"
    case TapirFasta => "TAPIR_FASTA"
    case TapirHybrid => "TAPIR_HYBRID"
  }

  /** `name in programs`, with the tool the key names. */
  function ToolOfName(name: string): (r: Option<Tool>)
    ensures r.Some? ==> ToolName(r.value) == name
    ensures r.None? ==> forall t: Tool :: ToolName(t) != name
  {
    if name == "PSRT" then Some(Psrt)
    else if name == "PSROBOT" then Some(PsRobot)
    else if name == "TAPIR_FASTA" then Some(TapirFasta)
    else if name == "TAPIR_HYBRID" then Some(TapirHybrid)
    else None
  }

  lemma ToolNamesDistinct(t: Tool, u: Tool)
    ensures ToolName(t) == ToolName(u) ==> t == u
  {
    var r := ToolOfName(ToolName(t));
    assert r.Some?;
  }

  // ---------------------------------------------------------------------------
  // Program validation
  // ---------------------------------------------------------------------------

  datatype ConfigError =
    | MissingMicroRnaFile
    | MissingTargetFile
    | ThreadsNotInteger
    | UnknownProgram(name: string)
    | MissingPsrtOutput
      /** `numToWords` raised while wording the count-mismatch warning. */
    | CountNotWordable

  /** A colon token passes: its upper case is a key of the table, and when it
      names psRNATarget that tool's output file exists. */
  predicate TokenAccepted(token: string, psrtOutputExists: bool) {
    match ToolOfName(Upper(token))
    case None => false
    case Some(t) => t == Psrt ==> psrtOutputExists
  }

  /** The error a rejected token aborts the run with. */
  function TokenError(token: string): ConfigError {
    if ToolOfName(Upper(token)).None? then UnknownProgram(Upper(token)) else MissingPsrtOutput
  }

  /** The index of the first rejected token, `|tokens|` when none is. */
  function FirstRejected(tokens: seq<string>, psrtOutputExists: bool): (k: nat)
    ensures k <= |tokens|
    ensures forall i :: 0 <= i < k ==> TokenAccepted(tokens[i], psrtOutputExists)
    ensures k < |tokens| ==> !TokenAccepted(tokens[k], psrtOutputExists)
  {
    if tokens == [] || !TokenAccepted(tokens[0], psrtOutputExists) then 0
    else 1 + FirstRejected(tokens[1..], psrtOutputExists)
  }

  /** The loop over the colon tokens: each is upper-cased and looked up; the
      first one that fails aborts. */
  function ValidateTokens(tokens: seq<string>, psrtOutputExists: bool): (r: Result<seq<Tool>, ConfigError>)
    ensures r.Ok? <==> forall i :: 0 <= i < |tokens| ==> TokenAccepted(tokens[i], psrtOutputExists)
    ensures r.Ok? ==> |r.value| == |tokens|
    ensures r.Ok? ==> forall i :: 0 <= i < |tokens| ==> ToolName(r.value[i]) == Upper(tokens[i])
    ensures r.Err? ==> r.error == TokenError(tokens[FirstRejected(tokens, psrtOutputExists)])
  {
    if tokens == [] then
      Ok([])
    else
      var up := Upper(tokens[0]);
      match ToolOfName(up)
      case None => Err(UnknownProgram(up))
      case Some(t) =>
        if t == Psrt && !psrtOutputExists then
          Err(MissingPsrtOutput)
        else
          match ValidateTokens(tokens[1..], psrtOutputExists)
          case Err(e) => Err(e)
          case Ok(ts) => Ok([t] + ts)
  }

  /** The validation half of `args_check`: `program_string.split(":")`, each
      token checked in order. */
  function ValidatePrograms(programString: string, psrtOutputExists: bool): Result<seq<Tool>, ConfigError> {
    ValidateTokens(SplitOn(programString, ":"), psrtOutputExists)
  }

  /** An empty program string is one empty token, which is no program. */
  lemma EmptyProgramStringAborts(psrtOutputExists: bool)
    ensures ValidatePrograms("", psrtOutputExists) == Err(UnknownProgram(""))
  {
    NoOccurrenceChar("", ':');
    assert SplitOn("", ":") == [""];
  }

  /** Any accepted program list is non-empty, in input order, duplicates kept. */
  lemma ValidatedPrograms(programString: string, psrtOutputExists: bool)
    requires ValidatePrograms(programString, psrtOutputExists).Ok?
    ensures var ts := ValidatePrograms(programString, psrtOutputExists).value;
      var tokens := SplitOn(programString, ":");
      && |ts| == |tokens| >= 1
      && (forall i :: 0 <= i < |ts| ==> ts[i] == ToolOfName(Upper(tokens[i])).value)
      && (Psrt in ts ==> psrtOutputExists)
  {
    var ts := ValidatePrograms(programString, psrtOutputExists).value;
    var tokens := SplitOn(programString, ":");
    forall i | 0 <= i < |ts| ensures ts[i] == ToolOfName(Upper(tokens[i])).value {
      ToolNamesDistinct(ts[i], ToolOfName(Upper(tokens[i])).value);
    }
    if Psrt in ts {
      var i :| 0 <= i < |ts| && ts[i] == Psrt;
      assert TokenAccepted(tokens[i], psrtOutputExists);
    }
  }

  // ---------------------------------------------------------------------------
  // Parameter reconciliation
  // ---------------------------------------------------------------------------

  /** `p.replace('"','').replace("'","")`. */
  function StripQuotes(p: string): (r: string)
    ensures '"' !in r && '\'' !in r
    ensures forall c :: c != '"' && c != '\'' ==> multiset(r)[c] == multiset(p)[c]
    ensures '"' !in p && '\'' !in p ==> r == p
  {
    var once := ReplaceAll(p, "\"", "");
    DeleteChar(p, '"');
    DeleteChar(once, '\'');
    NoOccurrenceChar(p, '"');
    NoOccurrenceChar(once, '\'');
    assert multiset(ReplaceAll(once, "'", ""))['"'] == multiset(once)['"'] == 0;
    ReplaceAll(once, "'", "")
  }

  /** The two warning lines logged when `n` programs meet `m` parameter lists,
      worded with `numToWords`, which raises for counts of 1000 or more. */
  function CountWarning(n: nat, m: nat): (r: Result<seq<string>, ConfigError>)
    ensures r.Ok? <==> n == m || (n < 1000 && m < 1000)
    ensures r.Ok? ==> (r.value == [] <==> n == m)
    ensures r.Ok? && n != m ==> |r.value| == 2
  {
    if n == m then Ok([])
    else
      var c: nat := if n > m then n - m else m - n;
      match (NumberWords.NumToWords(n), NumberWords.NumToWords(m), NumberWords.NumToWords(c))
      case (Ok(wstr), Ok(wpar), Ok(num)) =>
        Ok(["Given " + wpar + " list(s) of parameters for " + wstr + " program(s)!",
            if n > m then "The last " + num + " program(s) will use the default parameters."
            else "The last " + num + " list(s) will be ignored."])
      case _ => Err(CountNotWordable)
  }

  /** Parameter lists aligned with `n` programs. */
  datatype Reconciled = Reconciled(params: seq<string>, warnings: seq<string>)

  /** The reconciliation half of `args_check`: the colon-split parameter lists
      are padded with empty lists or truncated to the program count, then
      stripped of quote characters. */
  function Reconcile(n: nat, parameterString: string): (r: Result<Reconciled, ConfigError>)
    ensures var m := |SplitOn(parameterString, ":")|;
      r.Err? <==> n != m && (n >= 1000 || m >= 1000)
    ensures r.Ok? ==> |r.value.params| == n
    ensures r.Err? ==> r.error == CountNotWordable
    ensures r.Ok? ==> (r.value.warnings == [] <==> n == |SplitOn(parameterString, ":")|)
    ensures r.Ok? && n != |SplitOn(parameterString, ":")| ==> |r.value.warnings| == 2
    ensures r.Ok? ==> forall i :: 0 <= i < n && i < |SplitOn(parameterString, ":")| ==>
      r.value.params[i] == StripQuotes(SplitOn(parameterString, ":")[i])
    ensures r.Ok? ==> forall i :: |SplitOn(parameterString, ":")| <= i < n ==> r.value.params[i] == ""
  {
    var tokens := SplitOn(parameterString, ":");
    var m := |tokens|;
    match CountWarning(n, m)
    case Err(e) => Err(e)
    case Ok(warnings) =>
      var aligned := if n > m then tokens + seq(n - m, _ => "") else tokens[..n];
      assert StripQuotes("") == "";
      Ok(Reconciled(seq(n, i requires 0 <= i < n => StripQuotes(aligned[i])), warnings))
  }

  /** Three programs and the parameter string `x`: padded to `x`, ``, ``. */
  lemma ReconcilePadsExample()
    ensures Reconcile(3, "x").Ok?
    ensures Reconcile(3, "x").value.params == ["x", "", ""]
    ensures |Reconcile(3, "x").value.warnings| == 2
  {
    NoOccurrenceChar("x", ':');
    assert SplitOn("x", ":") == ["x"];
    assert StripQuotes("x") == "x";
  }

  // ---------------------------------------------------------------------------
  // args_check
  // ---------------------------------------------------------------------------

  /** The command-line arguments, with file existence as booleans. */
  datatype Arguments = Arguments(
    microRnaFileExists: bool,
    targetFileExists: bool,
    threads: string,
    programString: string,
    programParameters: string,
    psrtOutputExists: bool)

  datatype Config = Config(threads: int, programs: seq<Tool>, params: seq<string>, warnings: seq<string>)

  /** `args_check`: the input files, the thread count, the program list and
      the parameter lists, checked in that order. */
  function ArgsCheck(a: Arguments): (r: Result<Config, ConfigError>)
    ensures !a.microRnaFileExists ==> r == Err(MissingMicroRnaFile)
    ensures a.microRnaFileExists && !a.targetFileExists ==> r == Err(MissingTargetFile)
    ensures a.microRnaFileExists && a.targetFileExists && ParseInt(a.threads).None? ==> r == Err(ThreadsNotInteger)
    ensures r.Ok? ==> Some(r.value.threads) == ParseInt(a.threads)
    ensures r.Ok? ==> ValidatePrograms(a.programString, a.psrtOutputExists) == Ok(r.value.programs)
    ensures r.Ok? ==> |r.value.params| == |r.value.programs| >= 1
    ensures r.Ok? ==> Reconcile(|r.value.programs|, a.programParameters) == Ok(Reconciled(r.value.params, r.value.warnings))
    ensures a.microRnaFileExists && a.targetFileExists && ParseInt(a.threads).Some? ==>
      var v := ValidatePrograms(a.programString, a.psrtOutputExists);
      && (r.Ok? <==> v.Ok? && Reconcile(|v.value|, a.programParameters).Ok?)
      && (v.Err? ==> r == Err(v.error))
      && (v.Ok? && Reconcile(|v.value|, a.programParameters).Err? ==> r == Err(Reconcile(|v.value|, a.programParameters).error))
  {
    if !a.microRnaFileExists then Err(MissingMicroRnaFile)
    else if !a.targetFileExists then Err(MissingTargetFile)
    else match ParseInt(a.threads)
      case None => Err(ThreadsNotInteger)
      case Some(threads) =>
        match ValidatePrograms(a.programString, a.psrtOutputExists)
        case Err(e) => Err(e)
        case Ok(programs) =>
          ValidatedPrograms(a.programString, a.psrtOutputExists);
          match Reconcile(|programs|, a.programParameters)
          case Err(e) => Err(e)
          case Ok(rec) => Ok(Config(threads, programs, rec.params, rec.warnings))
  }

  /** The arguments are accepted exactly when both input files exist, the
      thread count is an integer, every colon token names a usable program,
      and the program and parameter counts agree or are both below 1000. */
  lemma ArgsCheckAccepts(a: Arguments)
    ensures ArgsCheck(a).Ok? <==>
      var tokens := SplitOn(a.programString, ":");
      var m := |SplitOn(a.programParameters, ":")|;
      && a.microRnaFileExists && a.targetFileExists && ParseInt(a.threads).Some?
      && (forall i :: 0 <= i < |tokens| ==> TokenAccepted(tokens[i], a.psrtOutputExists))
      && (|tokens| == m || (|tokens| < 1000 && m < 1000))
  {
    var v := ValidatePrograms(a.programString, a.psrtOutputExists);
    if v.Ok? {
      assert |v.value| == |SplitOn(a.programString, ":")|;
    }
  }

  // ---------------------------------------------------------------------------
  // Positional consensus threshold
  // ---------------------------------------------------------------------------

  /** A support threshold `t` for `n` programs that is at least one, at most
      the count, lets at most one program miss, and demands every program
      only when there is a single one. */
  predicate AllButOne(n: nat, t: nat) {
    1 <= t <= n && n - t <= 1 && (t == n <==> n == 1)
  }

  /** `nconsensus`: one less than the number of programs, unless only one ran. */
  function PositionalThreshold(n: nat): (r: nat)
    ensures n >= 1 ==> AllButOne(n, r)
  {
    if n > 1 then n - 1 else n
  }

  /** For every accepted configuration the threshold is `max(1, n - 1)` for its
      `n` programs: a pair needs the support of all programs but one, or of the
      only program. */
  lemma ThresholdOfConfig(a: Arguments)
    requires ArgsCheck(a).Ok?
    ensures var n := |ArgsCheck(a).value.programs|;
      && PositionalThreshold(n) >= 1
      && AllButOne(n, PositionalThreshold(n))
      && (forall t: nat :: AllButOne(n, t) ==> t == PositionalThreshold(n))
  {
  }

  /** The comma-joined per-tool output files given to the positional-consensus
      calculator, one per program run. */
  function PositionalFiles(programs: seq<Tool>): (r: string)
    requires programs != []
    ensures SplitOn(r, ",") == seq(|programs|, i requires 0 <= i < |programs| => ToolName(programs[i]) + ".txt")
  {
    var names := seq(|programs|, i requires 0 <= i < |programs| => ToolName(programs[i]) + ".txt");
    forall i | 0 <= i < |names| ensures ',' !in names[i] {
      assert ',' !in ToolName(programs[i]);
    }
    SplitOnJoin(names, ',');
    JoinWith(names, ",")
  }
}
