/**
 * The Python string primitives the pipeline script is built from, with the
 * exact Python 3 semantics the script relies on: `re.split` on whitespace,
 * `str.split`, `str.join`, `str.replace`, `str.strip`, `str.upper`, iteration
 * over the lines of a text file, `int(...)` and `str(int)`.
 */
module Text {
  import opened Wrappers

  // ---------------------------------------------------------------------------
  // Whitespace
  // ---------------------------------------------------------------------------

  /** Whitespace as Python 3 classifies it, both for `str.strip()` and for `\s`
      in a `str` pattern: the ASCII controls 0x09-0x0D and 0x1C-0x1F, the space,
      and the Unicode spaces. */
  predicate IsWs(c: char) {
    || ('\t' <= c <= '\r')
    || ('\U{1c}' <= c <= ' ')
    || c == '\U{85}' || c == '\U{a0}' || c == '\U{1680}'
    || ('\U{2000}' <= c <= '\U{200a}')
    || c == '\U{2028}' || c == '\U{2029}' || c == '\U{202f}' || c == '\U{205f}' || c == '\U{3000}'
  }

  predicate WsFree(s: string) {
    forall i :: 0 <= i < |s| ==> !IsWs(s[i])
  }

  /** `t` is the longest prefix of `s` without whitespace. */
  predicate LongestWsFreePrefix(t: string, s: string) {
    && |t| <= |s|
    && t == s[..|t|]
    && WsFree(t)
    && (|t| == |s| || IsWs(s[|t|]))
  }

  /** Length of the longest whitespace-free prefix of `s`. */
  function WsFreeLength(s: string): (n: nat)
    ensures n <= |s|
    ensures forall i :: 0 <= i < n ==> !IsWs(s[i])
    ensures n < |s| ==> IsWs(s[n])
  {
    if s == [] || IsWs(s[0]) then 0 else 1 + WsFreeLength(s[1..])
  }

  /** Length of the run of whitespace that starts `s`. */
  function WsRunLength(s: string): (n: nat)
    ensures n <= |s|
    ensures forall i :: 0 <= i < n ==> IsWs(s[i])
    ensures n < |s| ==> !IsWs(s[n])
  {
    if s == [] || !IsWs(s[0]) then 0 else 1 + WsRunLength(s[1..])
  }

  /** `re.split(r'\s+| +|\t+', s)`. The first alternative already matches every
      run the other two could, so the pattern cuts `s` at each maximal run of
      whitespace; leading or trailing whitespace yields an empty first or last
      token, and the empty string yields one empty token. */
  function SplitWs(s: string): (r: seq<string>)
    ensures |r| >= 1
    decreases |s|
  {
    var n := WsFreeLength(s);
    if n == |s| then
      [s]
    else
      var m := WsRunLength(s[n..]);
      [s[..n]] + SplitWs(s[n + m..])
  }

  /** The first token is the longest whitespace-free prefix. */
  lemma SplitWsFirst(s: string)
    ensures LongestWsFreePrefix(SplitWs(s)[0], s)
  {
    var n := WsFreeLength(s);
    if n < |s| {
      SplitWsCut(s, n, WsRunLength(s[n..]));
    }
  }

  /** No token holds whitespace, only the first and the last may be empty,
      and there is a single token exactly when `s` holds no whitespace. */
  lemma {:induction false} SplitWsTokens(s: string)
    ensures forall i :: 0 <= i < |SplitWs(s)| ==> WsFree(SplitWs(s)[i])
    ensures forall i :: 0 < i < |SplitWs(s)| - 1 ==> SplitWs(s)[i] != []
    ensures |SplitWs(s)| == 1 <==> WsFree(s)
    decreases |s|
  {
    var n := WsFreeLength(s);
    if n < |s| {
      var m := WsRunLength(s[n..]);
      SplitWsCut(s, n, m);
      SplitWsTokens(s[n + m..]);
      assert n + m < |s| ==> !IsWs(s[n + m]);
    }
  }

  // ---------------------------------------------------------------------------
  // Substrings, splitting and joining
  // ---------------------------------------------------------------------------

  /** `pat` occurs in `s` starting at index `i`. */
  predicate OccursAt(s: string, pat: string, i: nat) {
    i + |pat| <= |s| && s[i..i + |pat|] == pat
  }

  predicate NoOccurrence(s: string, pat: string) {
    forall j: nat :: j <= |s| ==> !OccursAt(s, pat, j)
  }

  lemma OccursAtTail(s: string, pat: string, j: nat)
    requires s != []
    ensures OccursAt(s[1..], pat, j) <==> OccursAt(s, pat, j + 1)
  {
    if j + |pat| <= |s[1..]| {
      assert s[1..][j..j + |pat|] == s[j + 1..j + 1 + |pat|];
    }
  }

  lemma OccursAtPrefix(s: string, pat: string, n: nat, j: nat)
    requires n <= |s|
    ensures OccursAt(s[..n], pat, j) ==> OccursAt(s, pat, j)
  {
    if j + |pat| <= n {
      assert s[..n][j..j + |pat|] == s[j..j + |pat|];
    }
  }

  /** `str.find`: the leftmost index at which `pat` occurs in `s`. */
  function IndexOf(s: string, pat: string): (r: Option<nat>)
    requires pat != []
    ensures r.Some? ==> OccursAt(s, pat, r.value)
    ensures r.Some? ==> forall j: nat :: j < r.value ==> !OccursAt(s, pat, j)
    ensures r.None? ==> NoOccurrence(s, pat)
    decreases |s|
  {
    if |s| < |pat| then
      None
    else if OccursAt(s, pat, 0) then
      Some(0)
    else
      var r := IndexOf(s[1..], pat);
      forall j: nat | 1 <= j ensures OccursAt(s, pat, j) <==> OccursAt(s[1..], pat, j - 1) {
        OccursAtTail(s, pat, j - 1);
      }
      match r
      case None => None
      case Some(i) => Some(i + 1)
  }

  /** `sep.join(ts)`. */
  function JoinWith(ts: seq<string>, sep: string): (r: string)
    ensures ts != [] ==> |ts[0]| <= |r| && r[..|ts[0]|] == ts[0]
  {
    if ts == [] then []
    else if |ts| == 1 then ts[0]
    else ts[0] + sep + JoinWith(ts[1..], sep)
  }

  /** `s.split(sep)` for a non-empty separator: cut at every leftmost
      non-overlapping occurrence, so `k` occurrences give `k + 1` tokens and
      the empty string gives one empty token. */
  function SplitOn(s: string, sep: string): (r: seq<string>)
    requires sep != []
    ensures |r| >= 1
    ensures JoinWith(r, sep) == s
    decreases |s|
  {
    match IndexOf(s, sep)
    case None => [s]
    case Some(i) =>
      var rest := SplitOn(s[i + |sep|..], sep);
      SplitOnStep(s, sep, i, rest);
      [s[..i]] + rest
  }

  lemma SliceThree(s: string, a: nat, b: nat)
    requires a <= b <= |s|
    ensures s == s[..a] + s[a..b] + s[b..]
  {
  }

  /** One cut of `split`: the text before the first occurrence, the
      separator, and the join of the rest's tokens make up `s`. */
  lemma SplitOnStep(s: string, sep: string, i: nat, rest: seq<string>)
    requires sep != [] && IndexOf(s, sep) == Some(i)
    requires |rest| >= 1 && JoinWith(rest, sep) == s[i + |sep|..]
    ensures JoinWith([s[..i]] + rest, sep) == s
  {
    var head := s[..i];
    assert OccursAt(s, sep, i);
    var ts := [head] + rest;
    assert ts[0] == head && ts[1..] == rest;
    assert JoinWith(ts, sep) == head + sep + JoinWith(rest, sep);
    SliceThree(s, i, i + |sep|);
  }

  /** No token of `s.split(sep)` contains `sep`, and there is more than one
      token exactly when `sep` occurs in `s`. */
  lemma {:induction false} SplitOnTokens(s: string, sep: string)
    requires sep != []
    ensures forall i :: 0 <= i < |SplitOn(s, sep)| ==> NoOccurrence(SplitOn(s, sep)[i], sep)
    ensures NoOccurrence(s, sep) <==> |SplitOn(s, sep)| == 1
    decreases |s|
  {
    match IndexOf(s, sep)
    case None =>
      assert SplitOn(s, sep) == [s];
    case Some(i) =>
      var tail := s[i + |sep|..];
      SplitOnTokens(tail, sep);
      BeforeFirstOccurrence(s, sep, i);
      SplitOnAtFirst(s, sep, i);
  }

  /** What precedes the first occurrence holds none. */
  lemma BeforeFirstOccurrence(s: string, sep: string, i: nat)
    requires sep != [] && IndexOf(s, sep) == Some(i)
    ensures NoOccurrence(s[..i], sep)
    ensures !NoOccurrence(s, sep)
  {
    var head := s[..i];
    forall j: nat | j <= |head| ensures !OccursAt(head, sep, j) {
      OccursAtPrefix(s, sep, i, j);
    }
    assert OccursAt(s, sep, i);
  }

  lemma NoOccurrenceChar(s: string, c: char)
    ensures NoOccurrence(s, [c]) <==> c !in s
  {
    forall j: nat | j < |s| ensures OccursAt(s, [c], j) <==> s[j] == c {
      assert s[j..j + 1] == [s[j]];
    }
  }

  /** The first token of `s.split(c)` is what precedes the first `c`. */
  lemma FirstSplitToken(s: string, c: char, k: nat)
    requires k <= |s| && c !in s[..k] && (k == |s| || s[k] == c)
    ensures SplitOn(s, [c])[0] == s[..k]
  {
    if k < |s| {
      FirstSplitTokenBeforeSep(s, c, k);
    } else {
      assert s[..k] == s;
      SplitOnWithoutSep(s, c);
    }
  }

  /** An occurrence with none before it is what `IndexOf` finds. */
  lemma IndexOfIsFirst(s: string, pat: string, k: nat)
    requires pat != []
    requires OccursAt(s, pat, k)
    requires forall j: nat :: j < k ==> !OccursAt(s, pat, j)
    ensures IndexOf(s, pat) == Some(k)
  {
    var r := IndexOf(s, pat);
    assert r.value <= k;
  }

  lemma FirstSplitTokenBeforeSep(s: string, c: char, k: nat)
    requires k < |s| && c !in s[..k] && s[k] == c
    ensures IndexOf(s, [c]) == Some(k)
    ensures SplitOn(s, [c])[0] == s[..k]
  {
    FirstSepIndex(s, c, k);
    SplitOnAtFirst(s, [c], k);
  }

  /** The first `c` of `s` is where `IndexOf` stops. */
  lemma FirstSepIndex(s: string, c: char, k: nat)
    requires k < |s| && c !in s[..k] && s[k] == c
    ensures IndexOf(s, [c]) == Some(k)
  {
    forall j: nat | j < k ensures !OccursAt(s, [c], j) {
      assert s[..k][j] == s[j];
      assert s[j..j + 1] == [s[j]];
    }
    assert s[k..k + 1] == [c];
    IndexOfIsFirst(s, [c], k);
  }

  /** `split` cuts at the first occurrence and splits the rest. */
  lemma SplitOnAtFirst(s: string, sep: string, i: nat)
    requires sep != [] && IndexOf(s, sep) == Some(i)
    ensures i + |sep| <= |s|
    ensures SplitOn(s, sep) == [s[..i]] + SplitOn(s[i + |sep|..], sep)
  {
  }

  function Last(r: seq<string>): string
    requires r != []
  {
    r[|r| - 1]
  }

  /** The last token of `s.split(c)` is what follows the last `c`. */
  lemma {:induction false} LastSplitToken(s: string, c: char, k: nat)
    requires k < |s| && s[k] == c && c !in s[k + 1..]
    ensures Last(SplitOn(s, [c])) == s[k + 1..]
    decreases |s|
  {
    var i := FirstOccurrenceUpTo(s, c, k);
    LastAfterFirstCut(s, c, i);
    if i == k {
      SplitOnWithoutSep(s[i + 1..], c);
    } else {
      ShiftPastCut(s, c, k, i);
      LastSplitToken(s[i + 1..], c, k - i - 1);
    }
  }

  lemma LastAfterFirstCut(s: string, c: char, i: nat)
    requires IndexOf(s, [c]) == Some(i)
    ensures i < |s|
    ensures Last(SplitOn(s, [c])) == Last(SplitOn(s[i + 1..], [c]))
  {
    SplitOnAtFirst(s, [c], i);
    var tail := SplitOn(s[i + 1..], [c]);
    LastOfCons(s[..i], tail);
  }

  lemma LastOfCons(h: string, tail: seq<string>)
    requires tail != []
    ensures Last([h] + tail) == Last(tail)
  {
  }

  lemma ShiftPastCut(s: string, c: char, k: nat, i: nat)
    requires i < k < |s| && s[k] == c && c !in s[k + 1..]
    ensures k - i - 1 < |s[i + 1..]| && s[i + 1..][k - i - 1] == c
    ensures s[i + 1..][k - i..] == s[k + 1..]
  {
  }

  /** A `c` at `k` means `IndexOf` finds one at or before `k`. */
  lemma FirstOccurrenceUpTo(s: string, c: char, k: nat) returns (i: nat)
    requires k < |s| && s[k] == c
    ensures i <= k && IndexOf(s, [c]) == Some(i)
  {
    assert s[k..k + 1] == [c];
    assert OccursAt(s, [c], k);
    i := IndexOf(s, [c]).value;
  }

  /** Without the separator, `split` gives the whole string. */
  lemma SplitOnWithoutSep(s: string, c: char)
    requires c !in s
    ensures SplitOn(s, [c]) == [s]
  {
    NoOccurrenceChar(s, c);
    SplitOnTokens(s, [c]);
    var r := SplitOn(s, [c]);
    assert JoinWith(r, [c]) == r[0];
  }

  /** Splitting a join by a one-character separator that no token contains
      gives the tokens back. */
  lemma {:induction false} SplitOnJoin(ts: seq<string>, c: char)
    requires |ts| >= 1
    requires forall i :: 0 <= i < |ts| ==> c !in ts[i]
    ensures SplitOn(JoinWith(ts, [c]), [c]) == ts
    decreases |ts|
  {
    var s := JoinWith(ts, [c]);
    if |ts| == 1 {
      forall j: nat | j < |s| ensures !OccursAt(s, [c], j) {
        assert s[j..j + 1] == [s[j]];
      }
    } else {
      var t0 := ts[0];
      var rest := JoinWith(ts[1..], [c]);
      assert s == t0 + [c] + rest;
      assert OccursAt(s, [c], |t0|);
      forall j: nat | j < |t0| ensures !OccursAt(s, [c], j) {
        assert s[j..j + 1] == [t0[j]];
      }
      assert IndexOf(s, [c]) == Some(|t0|);
      assert s[|t0| + 1..] == rest;
      SplitOnJoin(ts[1..], c);
    }
  }

  /** A character that is neither in any token nor the separator is not in
      their join. */
  lemma {:induction false} CharNotInJoin(ts: seq<string>, sep: char, c: char)
    requires c != sep
    requires forall i :: 0 <= i < |ts| ==> c !in ts[i]
    ensures c !in JoinWith(ts, [sep])
    decreases |ts|
  {
    if |ts| >= 2 {
      CharNotInJoin(ts[1..], sep, c);
      JoinWithCons(ts, [sep]);
    }
  }

  /** No occurrence of `sep` starts inside `t` when `sep` follows it: the
      join cuts exactly at the separator placed after `t`. */
  predicate CutsCleanly(t: string, sep: string) {
    forall j :: 0 <= j < |t| ==> !OccursAt(t + sep, sep, j)
  }

  /** Splitting a join gives the tokens back when every cut is clean, for a
      separator of any length. */
  lemma {:induction false} SplitOnJoinClean(ts: seq<string>, sep: string)
    requires sep != [] && |ts| >= 1
    requires forall i :: 0 <= i < |ts| - 1 ==> CutsCleanly(ts[i], sep)
    requires NoOccurrence(Last(ts), sep)
    ensures SplitOn(JoinWith(ts, sep), sep) == ts
    decreases |ts|
  {
    var s := JoinWith(ts, sep);
    if |ts| == 1 {
      assert s == ts[0];
      assert IndexOf(s, sep).None?;
    } else {
      var t0 := ts[0];
      var rest := JoinWith(ts[1..], sep);
      JoinWithCons(ts, sep);
      FirstCut(t0, sep, rest);
      SplitOnAtFirst(s, sep, |t0|);
      assert s[..|t0|] == t0;
      assert s[|t0| + |sep|..] == rest;
      SplitOnJoinClean(ts[1..], sep);
      ConsTail(ts);
    }
  }

  lemma FirstCut(t: string, sep: string, rest: string)
    requires sep != [] && CutsCleanly(t, sep)
    ensures IndexOf(t + sep + rest, sep) == Some(|t|)
  {
    var s := t + sep + rest;
    assert s[|t|..|t| + |sep|] == sep;
    forall j: nat | j < |t| ensures !OccursAt(s, sep, j) {
      OccursInPrefix(t + sep, rest, sep, j);
    }
    IndexOfIsFirst(s, sep, |t|);
  }

  /** An occurrence that ends within `a` is an occurrence in `a`. */
  lemma OccursInPrefix(a: string, b: string, pat: string, j: nat)
    requires j + |pat| <= |a|
    ensures OccursAt(a + b, pat, j) ==> OccursAt(a, pat, j)
  {
    assert (a + b)[j..j + |pat|] == a[j..j + |pat|];
  }

  /** A join ends with its last token. */
  lemma {:induction false} JoinWithLast(ts: seq<string>, sep: string)
    requires ts != []
    ensures |Last(ts)| <= |JoinWith(ts, sep)|
    ensures JoinWith(ts, sep)[|JoinWith(ts, sep)| - |Last(ts)|..] == Last(ts)
    decreases |ts|
  {
    if |ts| >= 2 {
      JoinWithLast(ts[1..], sep);
      JoinWithCons(ts, sep);
      assert Last(ts[1..]) == Last(ts);
    }
  }

  /** Stripping a line whose text has no surrounding whitespace removes just
      its newline. */
  lemma StripNewline(s: string)
    requires s != [] && !IsWs(s[0]) && !IsWs(s[|s| - 1])
    ensures Strip(s + "\n") == s
  {
    var t := s + "\n";
    assert t[0] == s[0];
    assert WsRunLength(t) == 0;
    assert t[0..] == t;
    assert t[..|t| - 1] == s;
    assert TrailingWsLength(t) == 1;
  }

  /** The longest whitespace-free prefix is unique. */
  lemma LongestWsFreePrefixUnique(t: string, u: string, s: string)
    requires LongestWsFreePrefix(t, s) && LongestWsFreePrefix(u, s)
    ensures t == u
  {
  }

  /** Splitting words joined by single spaces gives the words back. */
  lemma {:induction false} SplitWsOfJoin(ts: seq<string>)
    requires |ts| >= 1
    requires forall i :: 0 <= i < |ts| ==> ts[i] != [] && WsFree(ts[i])
    ensures SplitWs(JoinWith(ts, " ")) == ts
    decreases |ts|
  {
    if |ts| == 1 {
      assert JoinWith(ts, " ") == ts[0];
    } else {
      var rest := JoinWith(ts[1..], " ");
      SplitWsOfJoin(ts[1..]);
      JoinWithCons(ts, " ");
      PrefixHead(rest, ts[1]);
      SplitWsWordThenSpace(ts[0], rest);
      ConsTail(ts);
    }
  }

  lemma JoinWithCons(ts: seq<string>, sep: string)
    requires |ts| >= 2
    ensures JoinWith(ts, sep) == ts[0] + sep + JoinWith(ts[1..], sep)
  {
  }

  lemma PrefixHead(a: string, b: string)
    requires b != [] && |b| <= |a| && a[..|b|] == b
    ensures a[0] == b[0]
  {
    assert a[..|b|][0] == a[0];
  }

  /** A prefix lacks whatever the whole lacks. */
  lemma PrefixLacks(a: string, b: string, c: char)
    requires |b| <= |a| && a[..|b|] == b && c !in a
    ensures c !in b
  {
    assert forall j :: 0 <= j < |b| ==> b[j] == a[j];
  }

  lemma ConsTail(ts: seq<string>)
    requires ts != []
    ensures ts == [ts[0]] + ts[1..]
  {
  }

  /** A word, one space and a text that starts with no space: the word is
      the first token and the text is split on its own. */
  lemma SplitWsWordThenSpace(w: string, rest: string)
    requires WsFree(w) && rest != [] && !IsWs(rest[0])
    ensures SplitWs(w + " " + rest) == [w] + SplitWs(rest)
  {
    var s := w + " " + rest;
    WordThenSpaceLengths(w, rest);
    SplitWsCut(s, |w|, 1);
    assert s[..|w|] == w;
    assert s[|w| + 1..] == rest;
  }

  lemma WordThenSpaceLengths(w: string, rest: string)
    requires WsFree(w) && rest != [] && !IsWs(rest[0])
    ensures WsFreeLength(w + " " + rest) == |w|
    ensures WsRunLength((w + " " + rest)[|w|..]) == 1
  {
    var s := w + " " + rest;
    assert forall i :: 0 <= i < |w| ==> s[i] == w[i];
    assert s[|w|] == ' ';
    var t := s[|w|..];
    assert t[0] == ' ' && t[1] == rest[0];
  }

  /** `SplitWs` cuts after the first word and its whitespace run. */
  lemma SplitWsCut(s: string, n: nat, m: nat)
    requires WsFreeLength(s) == n < |s|
    requires WsRunLength(s[n..]) == m
    ensures SplitWs(s) == [s[..n]] + SplitWs(s[n + m..])
  {
  }

  /** A word followed by a newline splits into the word and an empty token. */
  lemma SplitWsWordThenNewline(w: string)
    requires WsFree(w)
    ensures SplitWs(w + "\n") == [w, ""]
  {
    var s := w + "\n";
    assert forall i :: 0 <= i < |w| ==> s[i] == w[i];
    assert IsWs(s[|w|]);
    assert WsFreeLength(s) == |w|;
    assert s[|w|..] == "\n";
    assert WsRunLength("\n") == 1;
    SplitWsCut(s, |w|, 1);
    assert s[..|w|] == w && s[|w| + 1..] == [];
  }

  /** A word, one space, a second word and a newline: the two words and an
      empty token. */
  lemma SplitWsFieldLine(w: string, v: string)
    requires WsFree(w) && WsFree(v) && v != []
    ensures SplitWs(w + " " + v + "\n") == [w, v, ""]
  {
    FieldLineShape(w, v);
    SplitWsWordThenSpace(w, v + "\n");
    SplitWsWordThenNewline(v);
    assert [w] + [v, ""] == [w, v, ""];
  }

  lemma FieldLineShape(w: string, v: string)
    requires v != []
    ensures w + " " + v + "\n" == w + " " + (v + "\n")
    ensures (v + "\n")[0] == v[0]
  {
  }

  // ---------------------------------------------------------------------------
  // Lines of a text file
  // ---------------------------------------------------------------------------

  /** `"".join(ls)`. */
  function Concat(ls: seq<string>): string {
    if ls == [] then [] else ls[0] + Concat(ls[1..])
  }

  lemma {:induction false} ConcatAppend(a: seq<string>, b: seq<string>)
    ensures Concat(a + b) == Concat(a) + Concat(b)
    decreases |a|
  {
    if a == [] {
      assert a + b == b;
    } else {
      assert (a + b)[1..] == a[1..] + b;
      ConcatAppend(a[1..], b);
    }
  }

  /** The shape of what iterating over a text file yields: no line is empty, a
      newline can only end a line, and every line but the last ends with one. */
  predicate IsLineSeq(ls: seq<string>) {
    && (forall i :: 0 <= i < |ls| ==> ls[i] != [] && forall j :: 0 <= j < |ls[i]| - 1 ==> ls[i][j] != '\n')
    && (forall i :: 0 <= i < |ls| - 1 ==> ls[i][|ls[i]| - 1] == '\n')
  }

  /** `list(open(path))`, equally the successive `readline()` results before the
      first empty one: the text cut after every newline, each newline kept. */
  function Lines(text: string): (ls: seq<string>)
    ensures IsLineSeq(ls)
    ensures Concat(ls) == text
    decreases |text|
  {
    if text == [] then
      []
    else
      match IndexOf(text, "\n")
      case None =>
        assert forall j: nat :: j < |text| ==> text[j] != '\n' by {
          forall j: nat | j < |text| ensures text[j] != '\n' {
            assert !OccursAt(text, "\n", j);
            assert text[j..j + 1] == [text[j]];
          }
        }
        [text]
      case Some(i) =>
        var line := text[..i + 1];
        forall j: nat | j < i ensures line[j] != '\n' {
          assert !OccursAt(text, "\n", j);
          assert text[j..j + 1] == [line[j]];
        }
        assert text == line + text[i + 1..];
        [line] + Lines(text[i + 1..])
  }

  /** A line as file iteration yields it when it is not the last: one
      newline, at the end. */
  predicate ClosedLine(l: string) {
    l != [] && l[|l| - 1] == '\n' && forall j :: 0 <= j < |l| - 1 ==> l[j] != '\n'
  }

  lemma ClosedLinesAreLines(ls: seq<string>)
    requires forall i :: 0 <= i < |ls| ==> ClosedLine(ls[i])
    ensures IsLineSeq(ls)
  {
  }

  /** A text with no newline, closed by one. */
  lemma CloseLine(t: string)
    requires '\n' !in t
    ensures ClosedLine(t + "\n")
  {
    var l := t + "\n";
    forall j | 0 <= j < |l| - 1 ensures l[j] != '\n' {
      assert l[j] == t[j];
    }
  }

  /** Reading back the concatenation of a well-formed line sequence gives the
      same lines: `Lines` and `Concat` are inverse bijections. */
  lemma {:induction false} LinesOfConcat(ls: seq<string>)
    requires IsLineSeq(ls)
    ensures Lines(Concat(ls)) == ls
    decreases |ls|
  {
    if ls != [] {
      var l := ls[0];
      var rest := Concat(ls[1..]);
      assert Concat(ls) == l + rest;
      assert IsLineSeq(ls[1..]) by {
        forall i | 0 <= i < |ls[1..]| ensures ls[1..][i] == ls[i + 1] { }
      }
      LinesOfConcat(ls[1..]);
      if l[|l| - 1] == '\n' {
        LinesOfLineThen(l, rest);
      } else {
        assert |ls| == 1 && rest == [];
        assert l + rest == l;
        assert '\n' !in l by {
          forall j | 0 <= j < |l| ensures l[j] != '\n' { }
        }
        LinesOfLastLine(l);
      }
    }
  }

  /** A first line that ends at its only newline is read off on its own. */
  lemma LinesOfLineThen(l: string, rest: string)
    requires l != [] && l[|l| - 1] == '\n'
    requires forall j :: 0 <= j < |l| - 1 ==> l[j] != '\n'
    ensures Lines(l + rest) == [l] + Lines(rest)
  {
    var text := l + rest;
    forall j: nat | j < |l| - 1 ensures !OccursAt(text, "\n", j) {
      assert text[j..j + 1] == [l[j]];
    }
    assert text[|l| - 1..|l|] == "\n";
    assert OccursAt(text, "\n", |l| - 1);
    assert IndexOf(text, "\n") == Some(|l| - 1);
    assert text[..|l|] == l;
    assert text[|l|..] == rest;
  }

  /** A last line without a newline is one line. */
  lemma LinesOfLastLine(l: string)
    requires l != [] && '\n' !in l
    ensures Lines(l) == [l]
  {
    NoOccurrenceChar(l, '\n');
    assert IndexOf(l, "\n").None?;
  }

  // ---------------------------------------------------------------------------
  // str.replace, str.strip, str.upper
  // ---------------------------------------------------------------------------

  /** `s.replace(pat, rep)` for a non-empty pattern: every leftmost
      non-overlapping occurrence of `pat` is replaced. */
  function ReplaceAll(s: string, pat: string, rep: string): (r: string)
    requires pat != []
    ensures NoOccurrence(s, pat) ==> r == s
    ensures rep == [] ==> |r| <= |s|
    ensures rep == [] && !NoOccurrence(s, pat) ==> |r| <= |s| - |pat|
    decreases |s|
  {
    if OccursAt(s, pat, 0) then
      rep + ReplaceAll(s[|pat|..], pat, rep)
    else if s == [] then
      []
    else
      var rest := ReplaceAll(s[1..], pat, rep);
      forall j: nat | 1 <= j ensures OccursAt(s, pat, j) <==> OccursAt(s[1..], pat, j - 1) {
        OccursAtTail(s, pat, j - 1);
      }
      assert NoOccurrence(s, pat) ==> NoOccurrence(s[1..], pat) by {
        if NoOccurrence(s, pat) {
          forall j: nat | j <= |s[1..]| ensures !OccursAt(s[1..], pat, j) {
            assert !OccursAt(s, pat, j + 1);
          }
        }
      }
      assert !NoOccurrence(s, pat) ==> !NoOccurrence(s[1..], pat) by {
        if !NoOccurrence(s, pat) {
          var j: nat :| j <= |s| && OccursAt(s, pat, j);
          assert OccursAt(s[1..], pat, j - 1);
        }
      }
      [s[0]] + rest
  }

  /** Replacing a pattern that occurs only as the suffix swaps that suffix. */
  lemma {:induction false} ReplaceTrailing(s: string, pat: string, rep: string)
    requires pat != [] && CutsCleanly(s, pat)
    ensures ReplaceAll(s + pat, pat, rep) == s + rep
    decreases |s|
  {
    if s == [] {
      assert (s + pat)[0..|pat|] == pat && (s + pat)[|pat|..] == [];
    } else {
      CutsCleanlyTail(s, pat);
      ReplaceTrailing(s[1..], pat, rep);
      ReplaceSkip(s + pat, pat, rep);
      ConsSplit(s, pat);
      ConsSplit(s, rep);
    }
  }

  lemma ConsSplit<T>(a: seq<T>, b: seq<T>)
    requires a != []
    ensures (a + b)[0] == a[0] && (a + b)[1..] == a[1..] + b
    ensures [a[0]] + (a[1..] + b) == a + b
  {
  }

  /** A clean cut stays clean after dropping the first character. */
  lemma CutsCleanlyTail(s: string, pat: string)
    requires s != [] && CutsCleanly(s, pat)
    ensures CutsCleanly(s[1..], pat)
  {
    var t := s + pat;
    assert t[1..] == s[1..] + pat;
    forall j | 0 <= j < |s[1..]| ensures !OccursAt(s[1..] + pat, pat, j) {
      OccursAtTail(t, pat, j);
    }
  }

  /** Where no match starts at the front, `replace` keeps the first character. */
  lemma ReplaceSkip(s: string, pat: string, rep: string)
    requires pat != [] && s != [] && !OccursAt(s, pat, 0)
    ensures ReplaceAll(s, pat, rep) == [s[0]] + ReplaceAll(s[1..], pat, rep)
  {
  }

  /** Up to the leftmost occurrence `replace` copies the text, and there it
      writes the replacement. */
  lemma ReplaceAtFirst(s: string, pat: string, rep: string, j: nat)
    requires pat != [] && OccursAt(s, pat, j)
    requires forall i: nat :: i < j ==> !OccursAt(s, pat, i)
    ensures ReplaceAll(s, pat, rep) == s[..j] + rep + ReplaceAll(s[j + |pat|..], pat, rep)
  {
    ReplaceCopiesPrefix(s, pat, rep, j);
    ReplaceAtFront(s[j..], pat, rep);
    assert s[j..][|pat|..] == s[j + |pat|..];
  }

  lemma ReplaceAtFront(s: string, pat: string, rep: string)
    requires pat != [] && OccursAt(s, pat, 0)
    ensures ReplaceAll(s, pat, rep) == rep + ReplaceAll(s[|pat|..], pat, rep)
  {
  }

  /** Where no occurrence starts before `j`, `replace` copies the first `j`
      characters. */
  lemma {:induction false} ReplaceCopiesPrefix(s: string, pat: string, rep: string, j: nat)
    requires pat != [] && j <= |s|
    requires forall i: nat :: i < j ==> !OccursAt(s, pat, i)
    ensures ReplaceAll(s, pat, rep) == s[..j] + ReplaceAll(s[j..], pat, rep)
    decreases j
  {
    if j > 0 {
      var t := s[1..];
      assert !OccursAt(s, pat, 0);
      ReplaceSkip(s, pat, rep);
      forall i: nat | i < j - 1 ensures !OccursAt(t, pat, i) {
        OccursAtTail(s, pat, i);
      }
      ReplaceCopiesPrefix(t, pat, rep, j - 1);
      assert t[j - 1..] == s[j..];
      ConsPrefix(s, j, ReplaceAll(s[j..], pat, rep));
    }
  }

  lemma ConsPrefix<T>(s: seq<T>, j: nat, u: seq<T>)
    requires 0 < j <= |s|
    ensures [s[0]] + (s[1..][..j - 1] + u) == s[..j] + u
  {
    assert [s[0]] + s[1..][..j - 1] == s[..j];
  }

  /** Deleting a pattern that occurs only at the front leaves the rest. */
  lemma RemoveLeading(pat: string, s: string)
    requires pat != [] && NoOccurrence(s, pat)
    ensures ReplaceAll(pat + s, pat, []) == s
  {
    var t := pat + s;
    assert t[0..|pat|] == pat;
    assert t[|pat|..] == s;
  }

  /** Deleting a single character with `replace(c, "")` removes every copy of
      it and keeps every other character with its multiplicity. */
  lemma {:induction false} DeleteChar(s: string, c: char)
    ensures c !in ReplaceAll(s, [c], [])
    ensures forall d :: d != c ==> multiset(ReplaceAll(s, [c], []))[d] == multiset(s)[d]
    decreases |s|
  {
    if s != [] {
      DeleteChar(s[1..], c);
      assert s == [s[0]] + s[1..];
      if s[0] == c {
        assert OccursAt(s, [c], 0);
        assert ReplaceAll(s, [c], []) == ReplaceAll(s[1..], [c], []);
      } else {
        assert !OccursAt(s, [c], 0);
        assert ReplaceAll(s, [c], []) == [s[0]] + ReplaceAll(s[1..], [c], []);
      }
    }
  }

  /** `s.strip()`: drops leading and trailing whitespace. */
  function Strip(s: string): (r: string)
    ensures r == [] || (!IsWs(r[0]) && !IsWs(r[|r| - 1]))
    ensures exists i: nat :: IsStripWindow(s, r, i)
    ensures |s| == 0 || (!IsWs(s[0]) && !IsWs(s[|s| - 1])) ==> r == s
  {
    var i := WsRunLength(s);
    var t := s[i..];
    var k := TrailingWsLength(t);
    var r := t[..|t| - k];
    assert r == s[i..i + |r|];
    assert IsStripWindow(s, r, i);
    r
  }

  /** `r` is `s[i..i + |r|]` and only whitespace lies outside that window. */
  predicate IsStripWindow(s: string, r: string, i: nat) {
    && i + |r| <= |s|
    && r == s[i..i + |r|]
    && (forall k :: 0 <= k < i ==> IsWs(s[k]))
    && (forall k :: i + |r| <= k < |s| ==> IsWs(s[k]))
  }

  /** Length of the run of whitespace that ends `s`. */
  function TrailingWsLength(s: string): (n: nat)
    ensures n <= |s|
    ensures forall i :: |s| - n <= i < |s| ==> IsWs(s[i])
    ensures n < |s| ==> !IsWs(s[|s| - n - 1])
  {
    if s == [] || !IsWs(s[|s| - 1]) then 0 else 1 + TrailingWsLength(s[..|s| - 1])
  }

  predicate IsAsciiLower(c: char) {
    'a' <= c <= 'z'
  }

  /** The characters outside ASCII whose Python upper case is pure ASCII. */
  predicate UpperToAscii(c: char) {
    c == '\U{df}' || c == '\U{131}' || c == '\U{17f}' || ('\U{fb00}' <= c <= '\U{fb06}')
  }

  /** `c.upper()`, for ASCII and for the characters whose upper case is ASCII;
      every other character is left as it is. */
  function UpperChar(c: char): (r: string)
    ensures r != []
    ensures forall i :: 0 <= i < |r| ==> !IsAsciiLower(r[i])
    ensures !IsAsciiLower(c) && !UpperToAscii(c) ==> r == [c]
  {
    if IsAsciiLower(c) then [(c as int - 32) as char]
    else if c == '\U{df}' then "SS"
    else if c == '\U{131}' then "I"
    else if c == '\U{17f}' then "S"
    else if c == '\U{fb00}' then "FF"
    else if c == '\U{fb01}' then "FI"
    else if c == '\U{fb02}' then "FL"
    else if c == '\U{fb03}' then "FFI"
    else if c == '\U{fb04}' then "FFL"
    else if c == '\U{fb05}' || c == '\U{fb06}' then "ST"
    else [c]
  }

  /** `s.upper()`. */
  function Upper(s: string): (r: string)
    ensures |r| >= |s|
    ensures forall i :: 0 <= i < |r| ==> !IsAsciiLower(r[i])
    ensures (forall i :: 0 <= i < |s| ==> !IsAsciiLower(s[i]) && !UpperToAscii(s[i])) ==> r == s
    decreases |s|
  {
    if s == [] then [] else UpperChar(s[0]) + Upper(s[1..])
  }

  // ---------------------------------------------------------------------------
  // Integers as text
  // ---------------------------------------------------------------------------

  predicate IsDigit(c: char) {
    '0' <= c <= '9'
  }

  predicate AllDigits(s: string) {
    forall i :: 0 <= i < |s| ==> IsDigit(s[i])
  }

  function DigitChar(d: nat): (c: char)
    requires d < 10
    ensures IsDigit(c)
  {
    ('0' as int + d) as char
  }

  /** The value of a string of decimal digits. */
  function DigitsValue(s: string): nat
    requires AllDigits(s)
  {
    if s == [] then 0 else 10 * DigitsValue(s[..|s| - 1]) + (s[|s| - 1] as int - '0' as int)
  }

  /** `str(n)` for a non-negative integer: decimal digits without leading zeros. */
  function NatToString(n: nat): (s: string)
    ensures s != [] && AllDigits(s)
    ensures |s| > 1 ==> s[0] != '0'
  {
    if n < 10 then [DigitChar(n)] else NatToString(n / 10) + [DigitChar(n % 10)]
  }

  lemma {:induction false} NatToStringRoundTrip(n: nat)
    ensures DigitsValue(NatToString(n)) == n
  {
    if n >= 10 {
      var s := NatToString(n);
      assert s[..|s| - 1] == NatToString(n / 10);
      NatToStringRoundTrip(n / 10);
    }
  }

  /** `str(i)`. */
  function IntToString(i: int): (s: string)
    ensures s != [] && !IsWs(s[0]) && !IsWs(s[|s| - 1])
    ensures i >= 0 ==> AllDigits(s)
  {
    if i < 0 then "-" + NatToString(-i) else NatToString(i)
  }

  /** The digit part Python's `int()` accepts: digits, with single underscores
      allowed between two digits. */
  predicate IsDigitGroup(s: string) {
    && s != []
    && IsDigit(s[0]) && IsDigit(s[|s| - 1])
    && (forall i :: 0 <= i < |s| ==> IsDigit(s[i]) || s[i] == '_')
    && (forall i :: 0 <= i < |s| - 1 ==> !(s[i] == '_' && s[i + 1] == '_'))
  }

  function DropUnderscores(s: string): (r: string)
    requires forall i :: 0 <= i < |s| ==> IsDigit(s[i]) || s[i] == '_'
    ensures AllDigits(r)
    ensures AllDigits(s) ==> r == s
  {
    if s == [] then [] else (if s[0] == '_' then [] else [s[0]]) + DropUnderscores(s[1..])
  }

  function ParseNat(s: string): (r: Option<nat>)
    ensures r.Some? <==> IsDigitGroup(s)
  {
    if IsDigitGroup(s) then Some(DigitsValue(DropUnderscores(s))) else None
  }

  /** `int(s)` for a decimal string: surrounding whitespace, an optional sign,
      then digits with optional single underscores between them. */
  function ParseInt(s: string): (r: Option<int>)
    ensures r.Some? ==> Strip(s) != []
    ensures r.Some? && r.value < 0 ==> Strip(s)[0] == '-'
  {
    var t := Strip(s);
    if t != [] && (t[0] == '+' || t[0] == '-') then
      match ParseNat(t[1..])
      case None => None
      case Some(v) => var x: int := if t[0] == '-' then 0 - v else v; Some(x)
    else
      match ParseNat(t)
      case None => None
      case Some(v) => Some(v)
  }

  lemma ParseNatOfNatToString(n: nat)
    ensures ParseNat(NatToString(n)) == Some(n)
  {
    var s := NatToString(n);
    assert IsDigitGroup(s);
    assert DropUnderscores(s) == s;
    NatToStringRoundTrip(n);
  }

  /** `int(str(i)) == i`. */
  lemma IntToStringRoundTrip(i: int)
    ensures ParseInt(IntToString(i)) == Some(i)
  {
    if i < 0 {
      NegativeRoundTrip(i);
    } else {
      NonNegativeRoundTrip(i);
    }
  }

  lemma NegativeRoundTrip(i: int)
    requires i < 0
    ensures ParseInt(IntToString(i)) == Some(i)
  {
    var d := NatToString(-i);
    var s := "-" + d;
    assert IntToString(i) == s;
    assert IsDigit(d[|d| - 1]) && s[|s| - 1] == d[|d| - 1];
    assert Strip(s) == s;
    assert s[1..] == d;
    ParseNatOfNatToString(-i);
    assert ParseNat(Strip(s)[1..]) == Some(-i);
  }

  lemma NonNegativeRoundTrip(i: int)
    requires i >= 0
    ensures ParseInt(IntToString(i)) == Some(i)
  {
    var s := NatToString(i);
    assert IntToString(i) == s;
    assert !IsWs(s[0]) && !IsWs(s[|s| - 1]);
    assert Strip(s) == s;
    assert IsDigit(s[0]);
    assert s[0] != '+' && s[0] != '-';
    ParseNatOfNatToString(i);
  }

  /** Distinct integers are printed differently. */
  lemma NatToStringInjective(m: nat, n: nat)
    ensures NatToString(m) == NatToString(n) ==> m == n
  {
    NatToStringRoundTrip(m);
    NatToStringRoundTrip(n);
  }
}
