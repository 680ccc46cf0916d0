/**
 * The reserved flags `execute_programs` (exec/miRNAconsTargets_plants.py)
 * removes from a user's parameter list before building a tool's command line:
 * the pipeline sets psRobot's `-p`, `-s`, `-t` and tapir's `--mir_file`,
 * `--target_file` itself. Each flag is found with `re.search(flag\s+[class]+)`
 * and every copy of the matched text is then deleted with `str.replace`.
 */
module Flags {
  import opened Wrappers
  import opened Text

  /** The character class of a flag's argument: `\d` or `[0-9a-zA-Z_\.]`. */
  datatype ArgClass = Digits | Names

  predicate InClass(c: char, k: ArgClass) {
    match k
    case Digits => IsDigit(c)
    case Names => IsDigit(c) || ('a' <= c <= 'z') || ('A' <= c <= 'Z') || c == '_' || c == '.'
  }

  /** Length of the run of class characters that starts `s`. */
  function ClassRunLength(s: string, k: ArgClass): (n: nat)
    ensures n <= |s|
    ensures forall i :: 0 <= i < n ==> InClass(s[i], k)
    ensures n < |s| ==> !InClass(s[n], k)
  {
    if s == [] || !InClass(s[0], k) then 0 else 1 + ClassRunLength(s[1..], k)
  }

  /** The length of the match of `flag\s+[class]+` anchored at the front of
      `s`. Whitespace and the class are disjoint, so both greedy runs are
      maximal. */
  function MatchLength(s: string, flag: string, k: ArgClass): (r: Option<nat>)
    ensures r.Some? ==> |flag| + 2 <= r.value <= |s| && s[..|flag|] == flag
  {
    if |s| < |flag| || s[..|flag|] != flag then None
    else
      var w := WsRunLength(s[|flag|..]);
      if w == 0 then None
      else
        var a := ClassRunLength(s[|flag| + w..], k);
        if a == 0 then None
        else Some(|flag| + w + a)
  }

  /** The start of the leftmost match of `flag\s+[class]+` in `s`. */
  function SearchIndex(s: string, flag: string, k: ArgClass): (r: Option<nat>)
    ensures r.Some? ==> r.value <= |s| && MatchLength(s[r.value..], flag, k).Some?
    ensures r.Some? ==> forall i :: 0 <= i < r.value ==> MatchLength(s[i..], flag, k).None?
    ensures r.None? ==> forall i :: 0 <= i <= |s| ==> MatchLength(s[i..], flag, k).None?
    decreases |s|
  {
    if MatchLength(s, flag, k).Some? then Some(0)
    else if s == [] then None
    else
      var r := SearchIndex(s[1..], flag, k);
      forall i | 1 <= i <= |s|
        ensures MatchLength(s[i..], flag, k) == MatchLength(s[1..][i - 1..], flag, k)
      {
        assert s[i..] == s[1..][i - 1..];
      }
      match r
      case None => None
      case Some(i) => Some(i + 1)
  }

  /** `re.search(flag\s+[class]+, s).group(0)`: the text of the leftmost match. */
  function Search(s: string, flag: string, k: ArgClass): (r: Option<string>)
    ensures r.Some? <==> SearchIndex(s, flag, k).Some?
    ensures r.Some? ==> |r.value| >= |flag| + 2 && r.value[..|flag|] == flag
    ensures r.Some? ==> OccursAt(s, r.value, SearchIndex(s, flag, k).value)
  {
    match SearchIndex(s, flag, k)
    case None => None
    case Some(i) =>
      var n := MatchLength(s[i..], flag, k).value;
      MatchText(s, i, n, flag);
      Some(s[i..i + n])
  }

  lemma MatchText(s: string, i: nat, n: nat, flag: string)
    requires i <= |s| && n <= |s[i..]| && |flag| <= n && s[i..][..|flag|] == flag
    ensures s[i..i + n][..|flag|] == flag
    ensures OccursAt(s, s[i..i + n], i)
  {
    assert s[i..i + n] == s[i..][..n];
  }

  /** The search-then-replace step for one flag. */
  function RemoveMatch(par: string, flag: string, k: ArgClass): (r: string)
    ensures Search(par, flag, k).None? ==> r == par
    ensures Search(par, flag, k).Some? ==> |r| <= |par| - |Search(par, flag, k).value|
  {
    match Search(par, flag, k)
    case None => par
    case Some(m) =>
      Found(par, m, SearchIndex(par, flag, k).value);
      ReplaceAll(par, m, "")
  }

  lemma Found(s: string, m: string, i: nat)
    requires OccursAt(s, m, i)
    ensures !NoOccurrence(s, m)
  {
  }

  // ---------------------------------------------------------------------------
  // psRobot
  // ---------------------------------------------------------------------------

  /** The `AttributeError` of `p.group(0)` when the `-p` search found nothing. */
  datatype FlagError = NoPMatch

  /** psRobot's parameter clean-up exactly as written: when a `-t` flag is
      found it deletes the `-p` match again instead of the `-t` match, and
      crashes when there was no `-p` match. */
  function StripPsRobotParamsAsWritten(par: string): (r: Result<string, FlagError>)
    ensures var afterP := RemoveMatch(par, "-p", Digits);
      var afterS := RemoveMatch(afterP, "-s", Names);
      r.Err? <==> Search(par, "-p", Digits).None? && Search(afterS, "-t", Names).Some?
  {
    var p := Search(par, "-p", Digits);
    var afterP := RemoveMatch(par, "-p", Digits);
    var afterS := RemoveMatch(afterP, "-s", Names);
    if Search(afterS, "-t", Names).None? then Ok(afterS)
    else if p.None? then Err(NoPMatch)
    else Ok(ReplaceAll(afterS, p.value, ""))
  }

  /** The clean-up with the `-t` match deleted, as intended. */
  function StripPsRobotParams(par: string): (r: string)
    ensures |r| <= |par|
    ensures (Search(par, "-p", Digits).None? && Search(par, "-s", Names).None?
             && Search(par, "-t", Names).None?) ==> r == par
  {
    RemoveMatch(RemoveMatch(RemoveMatch(par, "-p", Digits), "-s", Names), "-t", Names)
  }

  /** Where the `-t` search finds nothing the two versions agree. */
  lemma PsRobotVersionsAgreeWithoutT(par: string)
    requires Search(RemoveMatch(RemoveMatch(par, "-p", Digits), "-s", Names), "-t", Names).None?
    ensures StripPsRobotParamsAsWritten(par) == Ok(StripPsRobotParams(par))
  {
  }

  /** As written, once the `-p` match is gone a found `-t` match is kept. */
  lemma PsRobotTKeptAsWritten(par: string)
    requires Search(par, "-p", Digits).Some?
    requires var afterS := RemoveMatch(RemoveMatch(par, "-p", Digits), "-s", Names);
      Search(afterS, "-t", Names).Some? && NoOccurrence(afterS, Search(par, "-p", Digits).value)
    ensures var afterS := RemoveMatch(RemoveMatch(par, "-p", Digits), "-s", Names);
      && StripPsRobotParamsAsWritten(par) == Ok(afterS)
      && !NoOccurrence(afterS, Search(afterS, "-t", Names).value)
  {
  }

  /** Corrected, a found `-t` match always shortens the parameters by at least
      its own length. */
  lemma PsRobotTRemoved(par: string)
    requires var afterS := RemoveMatch(RemoveMatch(par, "-p", Digits), "-s", Names);
      Search(afterS, "-t", Names).Some?
    ensures var afterS := RemoveMatch(RemoveMatch(par, "-p", Digits), "-s", Names);
      |StripPsRobotParams(par)| <= |afterS| - |Search(afterS, "-t", Names).value|
  {
  }

  /** `-t x` alone crashes the original; the corrected clean-up removes it. */
  lemma PsRobotTWithoutP()
    ensures StripPsRobotParamsAsWritten("-t x") == Err(NoPMatch)
    ensures StripPsRobotParams("-t x") == ""
  {
    var par := "-t x";
    assert par[0..] == par;
    assert par[..2] == "-t" && par[2..] == " x" && par[3..] == "x";
    assert " x"[1..] == "x" && "x"[1..] == [];
    assert WsRunLength(" x") == 1;
    assert ClassRunLength("x", Names) == 1;
    assert MatchLength(par, "-t", Names) == Some(4);
    assert par[0..4] == par;
    assert Search(par, "-t", Names) == Some(par);
    NoFlagIn(par, "-p", Digits);
    NoFlagIn(par, "-s", Names);
    assert OccursAt(par, par, 0);
    assert ReplaceAll(par, par, "") == "" + ReplaceAll([], par, "");
  }

  /** Neither `-p` nor `-s` occurs in `-t x`. */
  lemma NoFlagIn(par: string, flag: string, k: ArgClass)
    requires par == "-t x" && (flag == "-p" || flag == "-s")
    ensures Search(par, flag, k).None?
  {
    assert par[1..] == "t x" && par[2..] == " x" && par[3..] == "x" && par[4..] == [];
    assert par[..2] == "-t" && par[1..][..2] == "t " && par[2..][..2] == " x";
    assert flag[1] != 't' && flag[0] != 't' && flag[0] != ' ';
    assert MatchLength(par, flag, k).None?;
    assert MatchLength(par[1..], flag, k).None?;
    assert MatchLength(par[2..], flag, k).None?;
    assert MatchLength(par[3..], flag, k).None?;
    assert MatchLength(par[4..], flag, k).None?;
  }

  // ---------------------------------------------------------------------------
  // tapir
  // ---------------------------------------------------------------------------

  /** tapir_fasta's and tapir_hybrid's clean-up of `--mir_file` and
      `--target_file`. */
  function StripTapirParams(par: string): (r: string)
    ensures |r| <= |par|
    ensures Search(par, "--mir_file", Names).None? && Search(par, "--target_file", Names).None? ==> r == par
    ensures Search(par, "--mir_file", Names).Some? ==> |r| <= |par| - |Search(par, "--mir_file", Names).value|
  {
    RemoveMatch(RemoveMatch(par, "--mir_file", Names), "--target_file", Names)
  }
}
