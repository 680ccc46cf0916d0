/**
 * The consensus fold of `make_consensus` (exec/miRNAconsTargets_plants.py):
 * every record a tool emits appends that tool's name to the entry of its
 * (microRNA, target) key in an insertion-ordered dictionary; at the end each
 * entry becomes one row whose support is the number of distinct tools.
 *
 * The fold is generic in the key so that the same definition serves the
 * pair key and the `@`-joined string key the script actually uses.
 */
module Consensus {
  import opened Programs

  /** The identity of a predicted interaction. */
  datatype Key = Key(mirna: string, target: string)

  /** One emitted record, as far as the consensus sees it. */
  datatype Hit<K> = Hit(tool: Tool, key: K)

  /** `miR_Target`: the keys in first-insertion order, and for each key the
      list of tool names appended for it. */
  datatype Tally<K> = Tally(order: seq<K>, tools: map<K, seq<Tool>>)

  predicate Distinct<K(==)>(s: seq<K>) {
    forall i, j :: 0 <= i < j < |s| ==> s[i] != s[j]
  }

  /** The order lists exactly the keys of the map, once each, and every key
      has at least one tool. */
  ghost predicate WellFormed<K>(t: Tally<K>) {
    && Distinct(t.order)
    && (forall k :: k in t.tools ==> k in t.order)
    && (forall i :: 0 <= i < |t.order| ==> t.order[i] in t.tools && t.tools[t.order[i]] != [])
  }

  const Empty: Tally<Key> := Tally([], map[])

  /** The `if not mRT in miR_Target ... else ... append` step. */
  function Add<K(==)>(t: Tally<K>, h: Hit<K>): (r: Tally<K>)
    ensures h.key in t.tools ==> r.order == t.order
    ensures h.key !in t.tools ==> r.order == t.order + [h.key]
    ensures r.tools.Keys == t.tools.Keys + {h.key}
    ensures r.tools[h.key] == (if h.key in t.tools then t.tools[h.key] else []) + [h.tool]
    ensures forall k :: k in t.tools && k != h.key ==> r.tools[k] == t.tools[k]
  {
    if h.key in t.tools then Tally(t.order, t.tools[h.key := t.tools[h.key] + [h.tool]])
    else Tally(t.order + [h.key], t.tools[h.key := [h.tool]])
  }

  /** The fold over the hits in emission order. */
  function Collect<K(==)>(hs: seq<Hit<K>>): (t: Tally<K>)
    decreases |hs|
  {
    if hs == [] then Tally([], map[]) else Add(Collect(hs[..|hs| - 1]), hs[|hs| - 1])
  }

  /** One step keeps a tally well formed, and the added key is listed. */
  lemma AddWellFormed<K>(t: Tally<K>, h: Hit<K>)
    requires WellFormed(t)
    ensures WellFormed(Add(t, h))
    ensures h.key in Add(t, h).order
  {
    var r := Add(t, h);
    if h.key !in t.tools {
      forall i, j | 0 <= i < j < |r.order| ensures r.order[i] != r.order[j] {
        if j == |t.order| {
          assert r.order[i] == t.order[i];
        }
      }
    }
  }

  /** The fold only builds well-formed tallies. */
  lemma {:induction false} CollectWellFormed<K>(hs: seq<Hit<K>>)
    ensures WellFormed(Collect(hs))
    decreases |hs|
  {
    if hs != [] {
      CollectWellFormed(hs[..|hs| - 1]);
      AddWellFormed(Collect(hs[..|hs| - 1]), hs[|hs| - 1]);
    }
  }

  lemma CollectSnoc<K>(hs: seq<Hit<K>>, h: Hit<K>)
    ensures Collect(hs + [h]) == Add(Collect(hs), h)
  {
    assert (hs + [h])[..|hs|] == hs;
  }

  // ---------------------------------------------------------------------------
  // Reference definitions
  // ---------------------------------------------------------------------------

  /** The keys some hit carries. */
  function KeysOf<K(==)>(hs: seq<Hit<K>>): (ks: set<K>)
    ensures forall h :: h in hs ==> h.key in ks
    ensures forall k :: k in ks ==> exists u :: Hit(u, k) in hs
    decreases |hs|
  {
    if hs == [] then {}
    else
      var init := hs[..|hs| - 1];
      var ks := KeysOf(init);
      assert forall h :: h in init ==> h in hs;
      assert hs == init + [hs[|hs| - 1]];
      ks + {hs[|hs| - 1].key}
  }

  /** The tools of the hits on `k`, in emission order, repeats kept. */
  function ToolsOf<K(==)>(hs: seq<Hit<K>>, k: K): (ts: seq<Tool>)
    ensures forall u :: u in ts <==> Hit(u, k) in hs
    decreases |hs|
  {
    if hs == [] then []
    else
      var init := hs[..|hs| - 1];
      var last := hs[|hs| - 1];
      assert hs == init + [last];
      ToolsOf(init, k) + (if last.key == k then [last.tool] else [])
  }

  /** The position of the first hit on `k`. */
  function FirstIndex<K(==)>(hs: seq<Hit<K>>, k: K): (n: nat)
    requires k in KeysOf(hs)
    ensures n < |hs| && hs[n].key == k
    ensures forall j :: 0 <= j < n ==> hs[j].key != k
    decreases |hs|
  {
    var init := hs[..|hs| - 1];
    if k in KeysOf(init) then FirstIndex(init, k) else |hs| - 1
  }

  // ---------------------------------------------------------------------------
  // What the fold computes
  // ---------------------------------------------------------------------------

  /** The dictionary holds exactly the emitted keys, and each key's list is
      the tools of the hits on it in emission order. */
  lemma {:induction false} CollectContents<K>(hs: seq<Hit<K>>)
    ensures Collect(hs).tools.Keys == KeysOf(hs)
    ensures forall k :: k in Collect(hs).tools ==> Collect(hs).tools[k] == ToolsOf(hs, k)
    decreases |hs|
  {
    if hs != [] {
      var init := hs[..|hs| - 1];
      var last := hs[|hs| - 1];
      CollectContents(init);
      var t := Collect(init);
      var t' := Collect(hs);
      assert t' == Add(t, last);
      assert KeysOf(hs) == KeysOf(init) + {last.key};
      forall k | k in t'.tools ensures t'.tools[k] == ToolsOf(hs, k) {
        CollectStep(hs, init, t, k);
      }
    }
  }

  /** One step of the fold on the entry of `k`. */
  lemma CollectStep<K>(hs: seq<Hit<K>>, init: seq<Hit<K>>, t: Tally<K>, k: K)
    requires hs != [] && init == hs[..|hs| - 1] && t == Collect(init)
    requires t.tools.Keys == KeysOf(init)
    requires forall j :: j in t.tools ==> t.tools[j] == ToolsOf(init, j)
    requires k in Collect(hs).tools
    ensures Collect(hs).tools[k] == ToolsOf(hs, k)
  {
    var last := hs[|hs| - 1];
    assert ToolsOf(hs, k) == ToolsOf(init, k) + (if last.key == k then [last.tool] else []);
    if k == last.key && k !in t.tools {
      NoToolsWithoutKey(init, k);
    }
  }

  lemma NoToolsWithoutKey<K>(hs: seq<Hit<K>>, k: K)
    requires k !in KeysOf(hs)
    ensures ToolsOf(hs, k) == []
  {
  }

  /** Every key of the order is an emitted key. */
  lemma OrderKeys<K>(hs: seq<Hit<K>>)
    ensures forall i :: 0 <= i < |Collect(hs).order| ==> Collect(hs).order[i] in KeysOf(hs)
  {
    CollectWellFormed(hs);
    CollectContents(hs);
  }

  /** The rows follow first-insertion order: a key listed earlier was first
      emitted earlier. */
  lemma {:induction false} CollectOrder<K>(hs: seq<Hit<K>>)
    ensures forall i :: 0 <= i < |Collect(hs).order| ==> Collect(hs).order[i] in KeysOf(hs)
    ensures forall p, q :: 0 <= p < q < |Collect(hs).order| ==>
      FirstIndex(hs, Collect(hs).order[p]) < FirstIndex(hs, Collect(hs).order[q])
    decreases |hs|
  {
    OrderKeys(hs);
    if hs != [] {
      var init := hs[..|hs| - 1];
      var last := hs[|hs| - 1];
      CollectOrder(init);
      OrderKeys(init);
      CollectContents(init);
      var o := Collect(init).order;
      var o' := Collect(hs).order;
      forall i | 0 <= i < |o| ensures FirstIndex(hs, o[i]) == FirstIndex(init, o[i]) {
        FirstIndexOfInit(hs, o[i]);
      }
      if o' != o {
        assert last.key !in KeysOf(init);
        assert o' == o + [last.key];
        forall p | 0 <= p < |o| ensures FirstIndex(hs, o'[p]) < FirstIndex(hs, o'[|o|]) {
          assert o'[p] == o[p];
          assert FirstIndex(hs, last.key) == |hs| - 1;
        }
      }
    }
  }

  lemma FirstIndexOfInit<K>(hs: seq<Hit<K>>, k: K)
    requires hs != [] && k in KeysOf(hs[..|hs| - 1])
    ensures k in KeysOf(hs) && FirstIndex(hs, k) == FirstIndex(hs[..|hs| - 1], k)
  {
  }

  /** The order only ever grows at its end: the order after a prefix of the
      hits is a prefix of the final order. */
  lemma {:induction false} OrderAppendOnly<K>(hs: seq<Hit<K>>, n: nat)
    requires n <= |hs|
    ensures Collect(hs[..n]).order <= Collect(hs).order
    decreases |hs|
  {
    if n == |hs| {
      assert hs[..n] == hs;
    } else {
      var init := hs[..|hs| - 1];
      OrderAppendOnly(init, n);
      assert init[..n] == hs[..n];
      assert Collect(hs) == Add(Collect(init), hs[|hs| - 1]);
      PrefixTransitive(Collect(hs[..n]).order, Collect(init).order, Collect(hs).order);
    }
  }

  lemma PrefixTransitive<K>(a: seq<K>, b: seq<K>, c: seq<K>)
    requires a <= b && b <= c
    ensures a <= c
  {
    assert a == b[..|a|] && b == c[..|b|];
    assert c[..|b|][..|a|] == c[..|a|];
  }

  // ---------------------------------------------------------------------------
  // Rows
  // ---------------------------------------------------------------------------

  /** `list(set(...))` of a key's tool list; its rendering order is not modelled. */
  function ToolSet(ts: seq<Tool>): set<Tool> {
    set u | u in ts
  }

  /** One line of consensus.txt: microRNA, target, support, tools. */
  datatype Row = Row(mirna: string, target: string, support: nat, tools: set<Tool>)

  function RowKey(r: Row): Key {
    Key(r.mirna, r.target)
  }

  function RowOf(k: Key, ts: seq<Tool>): Row {
    Row(k.mirna, k.target, |ToolSet(ts)|, ToolSet(ts))
  }

  function Rows(t: Tally<Key>): (rs: seq<Row>)
    requires forall i :: 0 <= i < |t.order| ==> t.order[i] in t.tools
    ensures |rs| == |t.order|
    ensures forall i :: 0 <= i < |rs| ==> RowKey(rs[i]) == t.order[i]
  {
    seq(|t.order|, i requires 0 <= i < |t.order| => RowOf(t.order[i], t.tools[t.order[i]]))
  }

  /** The rows of consensus.txt for the hits in emission order. */
  function ConsensusRows(hs: seq<Hit<Key>>): (rs: seq<Row>)
    ensures |rs| == |Collect(hs).order|
  {
    CollectWellFormed(hs);
    Rows(Collect(hs))
  }

  /** Each emitted key has exactly one row, and every row's key was emitted. */
  lemma RowsCoverKeys(hs: seq<Hit<Key>>)
    ensures forall i :: 0 <= i < |ConsensusRows(hs)| ==> RowKey(ConsensusRows(hs)[i]) in KeysOf(hs)
    ensures forall h :: h in hs ==> exists i :: 0 <= i < |ConsensusRows(hs)| && RowKey(ConsensusRows(hs)[i]) == h.key
    ensures forall i, j :: 0 <= i < j < |ConsensusRows(hs)| ==> RowKey(ConsensusRows(hs)[i]) != RowKey(ConsensusRows(hs)[j])
  {
    var t := Collect(hs);
    var rs := ConsensusRows(hs);
    CollectWellFormed(hs);
    CollectContents(hs);
    forall h | h in hs ensures exists i :: 0 <= i < |rs| && RowKey(rs[i]) == h.key {
      assert h.key in t.tools;
      assert h.key in t.order;
      var i :| 0 <= i < |t.order| && t.order[i] == h.key;
      assert RowKey(rs[i]) == h.key;
    }
  }

  /** A row's tools are exactly the tools that emitted its key, and its
      support is their number, between one and four. */
  lemma RowSupport(hs: seq<Hit<Key>>, i: nat)
    requires i < |ConsensusRows(hs)|
    ensures forall u :: u in ConsensusRows(hs)[i].tools <==> Hit(u, RowKey(ConsensusRows(hs)[i])) in hs
    ensures ConsensusRows(hs)[i].support == |ConsensusRows(hs)[i].tools|
    ensures 1 <= ConsensusRows(hs)[i].support <= 4
  {
    var t := Collect(hs);
    CollectWellFormed(hs);
    var k := t.order[i];
    CollectContents(hs);
    var ts := t.tools[k];
    assert ts[0] in ToolSet(ts);
    AtMostFourTools(ToolSet(ts));
  }

  /** The rows appear in the order their keys were first emitted. */
  lemma RowsInFirstSeenOrder(hs: seq<Hit<Key>>)
    ensures forall i :: 0 <= i < |ConsensusRows(hs)| ==> RowKey(ConsensusRows(hs)[i]) in KeysOf(hs)
    ensures forall i, j :: 0 <= i < j < |ConsensusRows(hs)| ==>
      FirstIndex(hs, RowKey(ConsensusRows(hs)[i])) < FirstIndex(hs, RowKey(ConsensusRows(hs)[j]))
  {
    CollectOrder(hs);
  }

  /** A hit that repeats an earlier one (same tool, same key) changes no row:
      repeats from one tool do not inflate the support. */
  lemma RepeatedHitChangesNothing(hs: seq<Hit<Key>>, h: Hit<Key>)
    requires h in hs
    ensures ConsensusRows(hs + [h]) == ConsensusRows(hs)
  {
    var hs' := hs + [h];
    assert hs'[..|hs'| - 1] == hs;
    CollectContents(hs);
    CollectWellFormed(hs);
    var t := Collect(hs);
    assert Collect(hs') == Add(t, h);
    RepeatedAdd(t, h);
  }

  /** Adding a tool a key already lists leaves the tally's rows as they are. */
  lemma RepeatedAdd(t: Tally<Key>, h: Hit<Key>)
    requires WellFormed(t) && h.key in t.tools && h.tool in t.tools[h.key]
    ensures Rows(Add(t, h)) == Rows(t)
  {
    var t' := Add(t, h);
    assert ToolSet(t'.tools[h.key]) == ToolSet(t.tools[h.key]);
    forall i | 0 <= i < |t.order| ensures Rows(t')[i] == Rows(t)[i] {
      if t.order[i] != h.key {
        assert t'.tools[t.order[i]] == t.tools[t.order[i]];
      }
    }
  }

  const AllTools: set<Tool> := {Psrt, PsRobot, TapirFasta, TapirHybrid}

  lemma AtMostFourTools(s: set<Tool>)
    ensures |s| <= 4
  {
    assert s <= AllTools by {
      forall u | u in s ensures u in AllTools {
        match u
        case Psrt =>
        case PsRobot =>
        case TapirFasta =>
        case TapirHybrid =>
      }
    }
    assert AllTools == s + (AllTools - s);
    assert |AllTools| == 4;
  }
}
