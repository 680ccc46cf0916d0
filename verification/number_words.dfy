/**
 * `numToWords` (exec/miRNAconsTargets_plants.py), the integer-to-English
 * converter used to word the parameter-count warnings. Under Python 3 the
 * group index `g` is a float, so indexing the `thousands` table raises for
 * every number of four or more digits: the function only works for 0..999.
 */
module NumberWords {
  import opened Wrappers
  import opened Text

  const Units: seq<string> := ["", "one", "two", "three", "four", "five", "six", "seven", "eight", "nine"]
  const Teens: seq<string> := ["", "eleven", "twelve", "thirteen", "fourteen", "fifteen", "sixteen",
                               "seventeen", "eighteen", "nineteen"]
  const Tens: seq<string> := ["", "ten", "twenty", "thirty", "forty", "fifty", "sixty", "seventy",
                              "eighty", "ninety"]

  /** The `TypeError` raised by `thousands[g]` when `g` is a float. */
  datatype NumError = FloatIndex

  /** The words for a hundreds digit. */
  function HundredWords(h: nat): seq<string>
    requires h < 10
  {
    if h >= 1 then [Units[h], "hundred"] else []
  }

  /** The words for a tens digit `t` and a units digit `u`. */
  function BelowHundredWords(t: nat, u: nat): seq<string>
    requires t < 10 && u < 10
  {
    if t > 1 then [Tens[t]] + (if u >= 1 then [Units[u]] else [])
    else if t == 1 then (if u >= 1 then [Teens[u]] else [Tens[1]])
    else if u >= 1 then [Units[u]]
    else []
  }

  /** The word list `numToWords(n, join=False)` returns for `n < 1000`. */
  function Words(n: nat): (ws: seq<string>)
    requires n < 1000
    ensures ws != []
  {
    if n == 0 then ["zero"]
    else HundredWords(n / 100) + BelowHundredWords(n / 10 % 10, n % 10)
  }

  /** Every word is a non-empty run of non-space characters. */
  lemma WordsArePlain(n: nat)
    requires n < 1000
    ensures forall i :: 0 <= i < |Words(n)| ==> Words(n)[i] != [] && WsFree(Words(n)[i])
  {
    TableWordsArePlain();
  }

  /** `numToWords(n)`: the words joined by single spaces. */
  function NumToWords(n: nat): (r: Result<string, NumError>)
    ensures r.Ok? <==> n < 1000
    ensures n == 0 ==> r == Ok("zero")
    ensures r.Ok? ==> r.value != [] && !IsWs(r.value[0])
  {
    if n >= 1000 then Err(FloatIndex)
    else
      WordsArePlain(n);
      Ok(JoinWith(Words(n), " "))
  }

  lemma TableWordsArePlain()
    ensures forall d :: 1 <= d < 10 ==> Units[d] != [] && WsFree(Units[d])
    ensures forall d :: 1 <= d < 10 ==> Teens[d] != [] && WsFree(Teens[d])
    ensures forall d :: 1 <= d < 10 ==> Tens[d] != [] && WsFree(Tens[d])
  {
  }

  // ---------------------------------------------------------------------------
  // Reading the words back
  // ---------------------------------------------------------------------------

  /** The index `d >= 1` of `w` in a word table. */
  function Lookup(table: seq<string>, w: string, d: nat): Option<nat>
    decreases |table| - d
  {
    if d >= |table| then None
    else if table[d] == w then Some(d)
    else Lookup(table, w, d + 1)
  }

  function ParseBelowHundred(ws: seq<string>): Option<nat> {
    if ws == [] then Some(0)
    else if |ws| == 1 then
      match (Lookup(Units, ws[0], 1), Lookup(Teens, ws[0], 1), Lookup(Tens, ws[0], 1))
      case (Some(u), _, _) => Some(u)
      case (None, Some(u), _) => Some(10 + u)
      case (None, None, Some(t)) => Some(10 * t)
      case (None, None, None) => None
    else if |ws| == 2 then
      match (Lookup(Tens, ws[0], 1), Lookup(Units, ws[1], 1))
      case (Some(t), Some(u)) => if t >= 2 then Some(10 * t + u) else None
      case _ => None
    else None
  }

  /** The number a word list of `numToWords` names, if it names one. */
  function ParseWords(ws: seq<string>): Option<nat> {
    if ws == ["zero"] then Some(0)
    else if |ws| >= 2 && ws[1] == "hundred" then
      match (Lookup(Units, ws[0], 1), ParseBelowHundred(ws[2..]))
      case (Some(h), Some(v)) => Some(100 * h + v)
      case _ => None
    else ParseBelowHundred(ws)
  }

  lemma UnitWord(d: nat)
    requires 1 <= d < 10
    ensures Lookup(Units, Units[d], 1) == Some(d)
    ensures Lookup(Teens, Units[d], 1) == None && Lookup(Tens, Units[d], 1) == None
    ensures Units[d] != "zero" && Units[d] != "hundred"
  {
  }

  lemma TeenWord(d: nat)
    requires 1 <= d < 10
    ensures Lookup(Units, Teens[d], 1) == None && Lookup(Teens, Teens[d], 1) == Some(d)
    ensures Teens[d] != "zero"
  {
  }

  lemma TenWord(d: nat)
    requires 1 <= d < 10
    ensures Lookup(Units, Tens[d], 1) == None && Lookup(Teens, Tens[d], 1) == None
    ensures Lookup(Tens, Tens[d], 1) == Some(d)
    ensures Tens[d] != "zero"
  {
  }

  lemma BelowHundredRoundTrip(t: nat, u: nat)
    requires t < 10 && u < 10
    ensures ParseBelowHundred(BelowHundredWords(t, u)) == Some(10 * t + u)
  {
    if t >= 1 { TenWord(t); }
    if u >= 1 { UnitWord(u); TeenWord(u); }
  }

  lemma HundredsCase(h: nat, t: nat, u: nat)
    requires 1 <= h < 10 && t < 10 && u < 10
    ensures ParseWords(HundredWords(h) + BelowHundredWords(t, u)) == Some(100 * h + 10 * t + u)
  {
    var b := BelowHundredWords(t, u);
    BelowHundredRoundTrip(t, u);
    UnitWord(h);
    var ws := [Units[h], "hundred"] + b;
    assert HundredWords(h) + b == ws;
    assert ws[2..] == b;
  }

  lemma NoHundredsCase(t: nat, u: nat)
    requires t < 10 && u < 10 && (t > 0 || u > 0)
    ensures ParseWords(HundredWords(0) + BelowHundredWords(t, u)) == Some(10 * t + u)
  {
    var b := BelowHundredWords(t, u);
    assert HundredWords(0) + b == b;
    BelowHundredRoundTrip(t, u);
    if t >= 1 { TenWord(t); }
    if u >= 1 { UnitWord(u); TeenWord(u); }
  }

  lemma Digits(n: nat)
    requires n < 1000
    ensures n == 100 * (n / 100) + 10 * (n / 10 % 10) + n % 10
    ensures n / 100 < 10
  {
  }

  /** Every word list of `numToWords` names the number it was built from. */
  lemma {:induction false} WordsRoundTrip(n: nat)
    requires n < 1000
    ensures ParseWords(Words(n)) == Some(n)
  {
    if n > 0 {
      WordsShape(n);
      Digits(n);
      if n / 100 >= 1 {
        HundredsCase(n / 100, n / 10 % 10, n % 10);
      } else {
        NoHundredsCase(n / 10 % 10, n % 10);
      }
    }
  }

  lemma WordsShape(n: nat)
    requires 0 < n < 1000
    ensures Words(n) == HundredWords(n / 100) + BelowHundredWords(n / 10 % 10, n % 10)
  {
  }

  /** Reading `numToWords(n)` back word by word gives `n`: every number below
      1000 gets its own wording. */
  lemma NumToWordsRoundTrip(n: nat)
    requires n < 1000
    ensures NumToWords(n).Ok? && ParseWords(SplitWs(NumToWords(n).value)) == Some(n)
  {
    WordsArePlain(n);
    SplitWsOfJoin(Words(n));
    WordsRoundTrip(n);
  }

  lemma NumToWordsInjective(m: nat, n: nat)
    requires m < 1000 && n < 1000
    ensures NumToWords(m) == NumToWords(n) ==> m == n
  {
    NumToWordsRoundTrip(m);
    NumToWordsRoundTrip(n);
  }

  /** Sample wordings: a bare ten, a teen, a compound tens word, a round hundred. */
  lemma NumToWordsExamples()
    ensures NumToWords(10) == Ok("ten")
    ensures NumToWords(15) == Ok("fifteen")
    ensures NumToWords(1000) == Err(FloatIndex)
  {
    assert Words(10) == ["ten"];
    assert Words(15) == ["fifteen"];
  }

  lemma WordsExamples()
    ensures Words(21) == ["twenty", "one"]
    ensures Words(100) == ["one", "hundred"]
  {
  }
}
