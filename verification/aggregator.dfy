/**
 * `to_graph` of app.py: group the relation by the ordered pair (From, To),
 * skip pairs with a blank endpoint, add one directed edge per remaining
 * pair with its transfer count, amount total and tooltip, then give every
 * node its weighted degree.
 *
 * The directed graph is a set of nodes, a map from the ordered pair
 * (source, destination) to the edge's attributes, and a map from node to
 * its `degree` attribute.
 */
module Aggregator {
  import opened Wrappers
  import opened Text
  import opened Normalizer

  /** An ordered pair (source, destination): the grouping key and the edge key. */
  type Pair = (string, string)

  /** Count and sum accumulated for one group while grouping. */
  datatype Tally = Tally(count: nat, sum: int)

  /** One row of the grouped frame, without its key: `tx_count` and `amount_sum`. */
  datatype Agg = Agg(txCount: nat, amountSum: Option<int>)

  /** The attributes of an edge: `weight`, `tx_count`, `amount_sum` and `title`. */
  datatype Edge = Edge(weight: nat, txCount: nat, amountSum: Option<int>, title: string)

  /** `"Amount" in df.columns` */
  predicate HasAmount(rel: Relation)
  {
    "Amount" in rel.columns
  }

  function KeyOf(row: Row): Pair
  {
    (row.from, row.to)
  }

  function KeysOf(rows: seq<Row>): set<Pair>
  {
    set row | row in rows :: KeyOf(row)
  }

  // ---------------------------------------------------------------------
  // Grouping

  /**
   * Whether a row counts in group `k`. Without an Amount column every row
   * of the group counts (`size()`); with one, pandas' `count` counts only
   * the rows whose amount is present.
   */
  function RowCount(row: Row, k: Pair, hasAmount: bool): nat
  {
    if KeyOf(row) == k && (!hasAmount || row.amount.Some?) then 1 else 0
  }

  /** What a row adds to the `sum` of group `k`: its amount when present. */
  function RowAmount(row: Row, k: Pair): int
  {
    if KeyOf(row) == k && row.amount.Some? then row.amount.value else 0
  }

  /** Reference definition of a group's `tx_count`, read off the rows one by one. */
  function GroupCount(rows: seq<Row>, k: Pair, hasAmount: bool): nat
  {
    if rows == [] then 0 else RowCount(rows[0], k, hasAmount) + GroupCount(rows[1..], k, hasAmount)
  }

  /** Reference definition of a group's amount sum: the present amounts added up. */
  function GroupSum(rows: seq<Row>, k: Pair): int
  {
    if rows == [] then 0 else RowAmount(rows[0], k) + GroupSum(rows[1..], k)
  }

  /** The groupby as one pass over the rows, updating the group of each row's pair. */
  function AddRow(m: map<Pair, Tally>, row: Row, hasAmount: bool): map<Pair, Tally>
  {
    var k := KeyOf(row);
    var t := if k in m then m[k] else Tally(0, 0);
    m[k := Tally(t.count + RowCount(row, k, hasAmount), t.sum + RowAmount(row, k))]
  }

  function GroupFold(rows: seq<Row>, hasAmount: bool): map<Pair, Tally>
  {
    if rows == [] then map[]
    else AddRow(GroupFold(rows[..|rows| - 1], hasAmount), rows[|rows| - 1], hasAmount)
  }

  /**
   * The grouped frame: `agg(["count", "sum"])` on Amount when the column
   * exists, else `size()` with `amount_sum` None. An all-missing group sums
   * to 0, as pandas' `sum` does.
   */
  function Grouped(rel: Relation): map<Pair, Agg>
  {
    var h := HasAmount(rel);
    var m := GroupFold(rel.rows, h);
    map k | k in m :: Agg(m[k].count, if h then Some(m[k].sum) else None)
  }

  lemma {:induction false} GroupConcat(a: seq<Row>, b: seq<Row>, k: Pair, h: bool)
    ensures GroupCount(a + b, k, h) == GroupCount(a, k, h) + GroupCount(b, k, h)
    ensures GroupSum(a + b, k) == GroupSum(a, k) + GroupSum(b, k)
  {
    if a == [] {
      assert a + b == b;
    } else {
      assert (a + b)[0] == a[0] && (a + b)[1..] == a[1..] + b;
      GroupConcat(a[1..], b, k, h);
    }
  }

  lemma {:induction false} GroupOutside(rows: seq<Row>, k: Pair, h: bool)
    requires k !in KeysOf(rows)
    ensures GroupCount(rows, k, h) == 0 && GroupSum(rows, k) == 0
  {
    if rows != [] {
      assert rows[0] in rows;
      assert KeysOf(rows[1..]) <= KeysOf(rows) by {
        forall x | x in KeysOf(rows[1..]) ensures x in KeysOf(rows) {
          var row :| row in rows[1..] && KeyOf(row) == x;
          assert row in rows;
        }
      }
      GroupOutside(rows[1..], k, h);
    }
  }

  /**
   * The one-pass groupby agrees with the reference: its groups are exactly
   * the pairs occurring in the rows, and each group's count and sum are
   * that pair's GroupCount and GroupSum.
   */
  lemma {:induction false} GroupFoldTotals(rows: seq<Row>, h: bool)
    ensures GroupFold(rows, h).Keys == KeysOf(rows)
    ensures forall k :: k in GroupFold(rows, h) ==>
      GroupFold(rows, h)[k].count == GroupCount(rows, k, h) && GroupFold(rows, h)[k].sum == GroupSum(rows, k)
  {
    if rows != [] {
      var init, last := rows[..|rows| - 1], rows[|rows| - 1];
      assert rows == init + [last];
      GroupFoldTotals(init, h);
      var m := GroupFold(init, h);
      assert KeysOf(rows) == KeysOf(init) + {KeyOf(last)} by {
        forall x | x in KeysOf(rows) ensures x in KeysOf(init) + {KeyOf(last)} {
          var row :| row in rows && KeyOf(row) == x;
          assert row in init || row == last;
        }
        forall x | x in KeysOf(init) ensures x in KeysOf(rows) {
          var row :| row in init && KeyOf(row) == x;
          assert row in rows;
        }
        assert last in rows;
      }
      forall k | k in GroupFold(rows, h)
        ensures GroupFold(rows, h)[k].count == GroupCount(rows, k, h)
        ensures GroupFold(rows, h)[k].sum == GroupSum(rows, k)
      {
        GroupConcat(init, [last], k, h);
        assert GroupCount([last], k, h) == RowCount(last, k, h);
        assert GroupSum([last], k) == RowAmount(last, k);
        if k !in m {
          GroupOutside(init, k, h);
        }
      }
    }
  }

  lemma GroupRemove(b: seq<Row>, i: nat, k: Pair, h: bool)
    requires i < |b|
    ensures GroupCount(b, k, h) == RowCount(b[i], k, h) + GroupCount(b[..i] + b[i + 1..], k, h)
    ensures GroupSum(b, k) == RowAmount(b[i], k) + GroupSum(b[..i] + b[i + 1..], k)
  {
    assert b == b[..i] + ([b[i]] + b[i + 1..]);
    GroupConcat(b[..i], [b[i]] + b[i + 1..], k, h);
    GroupConcat([b[i]], b[i + 1..], k, h);
    GroupConcat(b[..i], b[i + 1..], k, h);
    assert GroupCount([b[i]], k, h) == RowCount(b[i], k, h);
    assert GroupSum([b[i]], k) == RowAmount(b[i], k);
  }

  /** Taking the first element of `a` and a matching element of `b` out keeps them permutations. */
  lemma RemoveMatching<T>(a: seq<T>, b: seq<T>, i: nat)
    requires multiset(a) == multiset(b) && a != [] && i < |b| && b[i] == a[0]
    ensures multiset(a[1..]) == multiset(b[..i] + b[i + 1..])
  {
    assert a == [a[0]] + a[1..];
    assert b == b[..i] + [b[i]] + b[i + 1..];
    assert multiset(b) == multiset(b[..i]) + multiset([b[i]]) + multiset(b[i + 1..]);
    assert multiset(a[1..]) == multiset(a) - multiset([a[0]]);
  }

  /** A group's count and sum do not depend on the order of the rows. */
  lemma {:induction false} GroupPermutation(a: seq<Row>, b: seq<Row>, k: Pair, h: bool)
    requires multiset(a) == multiset(b)
    ensures GroupCount(a, k, h) == GroupCount(b, k, h)
    ensures GroupSum(a, k) == GroupSum(b, k)
    decreases |a|
  {
    if a == [] {
      assert |b| == |multiset(b)| == 0;
    } else {
      assert a[0] in multiset(b);
      var i :| 0 <= i < |b| && b[i] == a[0];
      var rest := b[..i] + b[i + 1..];
      RemoveMatching(a, b, i);
      GroupPermutation(a[1..], rest, k, h);
      GroupRemove(b, i, k, h);
    }
  }

  /**
   * Grouping is order-independent: two relations with the same columns and
   * the same rows in any order have the same grouped frame.
   */
  lemma GroupedPermutation(r1: Relation, r2: Relation)
    requires r1.columns == r2.columns
    requires multiset(r1.rows) == multiset(r2.rows)
    ensures Grouped(r1) == Grouped(r2)
  {
    var h := HasAmount(r1);
    GroupFoldTotals(r1.rows, h);
    GroupFoldTotals(r2.rows, h);
    assert KeysOf(r1.rows) == KeysOf(r2.rows) by {
      forall x | x in KeysOf(r1.rows) ensures x in KeysOf(r2.rows) {
        var row :| row in r1.rows && KeyOf(row) == x;
        assert row in multiset(r2.rows);
      }
      forall x | x in KeysOf(r2.rows) ensures x in KeysOf(r1.rows) {
        var row :| row in r2.rows && KeyOf(row) == x;
        assert row in multiset(r1.rows);
      }
    }
    forall k | k in KeysOf(r1.rows)
      ensures GroupCount(r1.rows, k, h) == GroupCount(r2.rows, k, h)
      ensures GroupSum(r1.rows, k) == GroupSum(r2.rows, k)
    {
      GroupPermutation(r1.rows, r2.rows, k, h);
    }
  }

  // ---------------------------------------------------------------------
  // Edges

  /**
   * A pair that survives the blank-endpoint filter `str(x).strip() == ''`,
   * which holds exactly for all-whitespace strings (Text.StripEmptyIff).
   */
  predicate Kept(k: Pair)
  {
    !AllSpace(k.0) && !AllSpace(k.1)
  }

  /** `amount_sum` rendered with `:.2f`; amounts are whole numbers here. */
  function Fixed2(a: int): string
  {
    IntToString(a) + ".00"
  }

  /** The edge tooltip. */
  function Title(src: string, dst: string, count: nat, amountSum: Option<int>): string
  {
    "From: " + src + "->To: " + dst + "; Transfers: " + NatToString(count)
      + (if amountSum.Some? then "; Total amount: " + Fixed2(amountSum.value) else "")
  }

  function EdgeFor(k: Pair, a: Agg): Edge
  {
    Edge(a.txCount, a.txCount, a.amountSum, Title(k.0, k.1, a.txCount, a.amountSum))
  }

  /** The edges added for the groups in `ks`. */
  function EdgesFor(grouped: map<Pair, Agg>, ks: set<Pair>): map<Pair, Edge>
  {
    map k | k in ks && k in grouped && Kept(k) :: EdgeFor(k, grouped[k])
  }

  /** The edges `to_graph` builds for the relation. */
  function Expected(rel: Relation): map<Pair, Edge>
  {
    EdgesFor(Grouped(rel), Grouped(rel).Keys)
  }

  /** Every source and destination of the given edge keys. */
  function Endpoints(ks: set<Pair>): set<string>
  {
    (set k | k in ks :: k.0) + (set k | k in ks :: k.1)
  }

  /**
   * There is an edge for an ordered pair exactly when some row carries that
   * pair and neither endpoint is blank; its weight is its transfer count;
   * without an Amount column that count is the number of rows with the
   * pair and there is no amount total; with one, the count is the number of
   * those rows whose amount is present and the total is their sum; and the
   * tooltip is built from these values.
   */
  lemma ExpectedEdge(rel: Relation, k: Pair)
    ensures k in Expected(rel) <==> (exists row :: row in rel.rows && KeyOf(row) == k) && Kept(k)
    ensures k in Expected(rel) ==>
      var e := Expected(rel)[k];
      && e.weight == e.txCount == GroupCount(rel.rows, k, HasAmount(rel))
      && e.amountSum == (if HasAmount(rel) then Some(GroupSum(rel.rows, k)) else None)
      && e.title == Title(k.0, k.1, e.txCount, e.amountSum)
  {
    GroupFoldTotals(rel.rows, HasAmount(rel));
    if (exists row :: row in rel.rows && KeyOf(row) == k) {
      assert k in KeysOf(rel.rows);
    }
  }

  /**
   * A blank endpoint never becomes a node: its pair adds no edge, and the
   * nodes are the endpoints of the edges.
   */
  lemma NodesNotBlank(rel: Relation)
    ensures forall n :: n in Endpoints(Expected(rel).Keys) ==> !AllSpace(n)
  {
    forall n | n in Endpoints(Expected(rel).Keys) ensures !AllSpace(n) {
      var k :| k in Expected(rel) && (n == k.0 || n == k.1);
      assert Kept(k);
    }
  }

  /** Without an Amount column a group's count is the number of rows with its pair. */
  lemma {:induction false} GroupCountRows(rows: seq<Row>, k: Pair)
    ensures GroupCount(rows, k, false) == |set i | 0 <= i < |rows| && KeyOf(rows[i]) == k|
  {
    if rows != [] {
      var n := |rows| - 1;
      var init := rows[..n];
      assert rows == init + [rows[n]];
      GroupCountRows(init, k);
      GroupConcat(init, [rows[n]], k, false);
      var before := set i | 0 <= i < n && KeyOf(init[i]) == k;
      var all := set i | 0 <= i < |rows| && KeyOf(rows[i]) == k;
      assert before == set i | 0 <= i < n && KeyOf(rows[i]) == k;
      if KeyOf(rows[n]) == k {
        assert all == before + {n};
      } else {
        assert all == before;
      }
    }
  }

  // ---------------------------------------------------------------------
  // Weighted degree

  /** The end of an edge key on the given side. */
  function End(k: Pair, incoming: bool): string
  {
    if incoming then k.1 else k.0
  }

  /** The keys in `ks` whose end on the given side is `n`. */
  ghost function Among(ks: set<Pair>, n: string, incoming: bool): set<Pair>
  {
    set k | k in ks && End(k, incoming) == n
  }

  /** The total weight of the edges with keys `ks`. */
  ghost function SumWeight(edges: map<Pair, Edge>, ks: set<Pair>): int
    requires ks <= edges.Keys
    decreases ks
  {
    if ks == {} then 0
    else
      var k :| k in ks;
      edges[k].weight + SumWeight(edges, ks - {k})
  }

  /** `in_degree(n, weight='weight')` */
  ghost function InWeight(edges: map<Pair, Edge>, n: string): int
  {
    SumWeight(edges, Among(edges.Keys, n, true))
  }

  /** `out_degree(n, weight='weight')` */
  ghost function OutWeight(edges: map<Pair, Edge>, n: string): int
  {
    SumWeight(edges, Among(edges.Keys, n, false))
  }

  /** The `degree` attribute: weighted in-degree plus weighted out-degree. */
  ghost function Degree(edges: map<Pair, Edge>, n: string): int
  {
    InWeight(edges, n) + OutWeight(edges, n)
  }

  /** Any edge can be taken out of a weight sum first. */
  lemma {:induction false} SumWeightPeel(edges: map<Pair, Edge>, ks: set<Pair>, k: Pair)
    requires ks <= edges.Keys && k in ks
    ensures SumWeight(edges, ks) == edges[k].weight + SumWeight(edges, ks - {k})
    decreases ks
  {
    var j :| j in ks && SumWeight(edges, ks) == edges[j].weight + SumWeight(edges, ks - {j});
    if j != k {
      SumWeightPeel(edges, ks - {j}, k);
      SumWeightPeel(edges, ks - {k}, j);
      assert ks - {j} - {k} == ks - {k} - {j};
    }
  }

  /** A weight sum depends only on the weights of the edges summed. */
  lemma {:induction false} SumWeightFrame(e1: map<Pair, Edge>, e2: map<Pair, Edge>, ks: set<Pair>)
    requires ks <= e1.Keys && ks <= e2.Keys
    requires forall k :: k in ks ==> e1[k].weight == e2[k].weight
    ensures SumWeight(e1, ks) == SumWeight(e2, ks)
    decreases ks
  {
    if ks != {} {
      var k :| k in ks;
      SumWeightPeel(e1, ks, k);
      SumWeightPeel(e2, ks, k);
      SumWeightFrame(e1, e2, ks - {k});
    }
  }

  /**
   * A self-loop is both an incoming and an outgoing edge of its node, so
   * its weight counts twice in that node's degree.
   */
  lemma SelfLoopCountsTwice(edges: map<Pair, Edge>, n: string)
    requires (n, n) in edges
    ensures Degree(edges, n) == 2 * edges[(n, n)].weight + Degree(edges - {(n, n)}, n)
  {
    var rest := edges - {(n, n)};
    forall incoming: bool
      ensures SumWeight(edges, Among(edges.Keys, n, incoming))
           == edges[(n, n)].weight + SumWeight(rest, Among(rest.Keys, n, incoming))
    {
      var side := Among(edges.Keys, n, incoming);
      SumWeightPeel(edges, side, (n, n));
      assert side - {(n, n)} == Among(rest.Keys, n, incoming);
      SumWeightFrame(edges, rest, side - {(n, n)});
    }
  }

  // ---------------------------------------------------------------------
  // The graph

  /** The directed graph `G` that `to_graph` fills. */
  class TransferGraph {
    var nodes: set<string>
    var edges: map<Pair, Edge>
    var degree: map<string, int>

    /** Every edge joins two nodes; only nodes carry a degree. */
    ghost predicate Valid()
      reads this
    {
      && (forall k :: k in edges ==> k.0 in nodes && k.1 in nodes)
      && degree.Keys <= nodes
    }

    /** `nx.DiGraph()` */
    constructor ()
      ensures Valid()
      ensures nodes == {} && edges == map[] && degree == map[]
    {
      nodes, edges, degree := {}, map[], map[];
    }

    /** `G.add_node(n)`: a node already present keeps its attributes. */
    method AddNode(n: string)
      requires Valid()
      modifies this
      ensures Valid()
      ensures nodes == old(nodes) + {n} && edges == old(edges) && degree == old(degree)
    {
      nodes := nodes + {n};
    }

    /** `G.add_edge(src, dst, ...)`: adds both ends and sets the edge's attributes. */
    method AddEdge(src: string, dst: string, e: Edge)
      requires Valid()
      modifies this
      ensures Valid()
      ensures nodes == old(nodes) + {src, dst}
      ensures edges == old(edges)[(src, dst) := e] && degree == old(degree)
    {
      nodes := nodes + {src, dst};
      edges := edges[(src, dst) := e];
    }

    /** `G.nodes[n]['degree'] = d` */
    method SetDegree(n: string, d: int)
      requires Valid() && n in nodes
      modifies this
      ensures Valid()
      ensures nodes == old(nodes) && edges == old(edges) && degree == old(degree)[n := d]
    {
      degree := degree[n := d];
    }

    /** The weighted in-degree (`incoming`) or out-degree of `n`, one edge at a time. */
    method SideWeight(n: string, incoming: bool) returns (w: int)
      ensures w == SumWeight(edges, Among(edges.Keys, n, incoming))
    {
      w := 0;
      var rest := edges.Keys;
      while rest != {}
        invariant rest <= edges.Keys
        invariant w + SumWeight(edges, Among(rest, n, incoming)) == SumWeight(edges, Among(edges.Keys, n, incoming))
        decreases rest
      {
        var k :| k in rest;
        if End(k, incoming) == n {
          SumWeightPeel(edges, Among(rest, n, incoming), k);
          assert Among(rest - {k}, n, incoming) == Among(rest, n, incoming) - {k};
          w := w + edges[k].weight;
        } else {
          assert Among(rest - {k}, n, incoming) == Among(rest, n, incoming);
        }
        rest := rest - {k};
      }
      assert Among(rest, n, incoming) == {};
    }

    /** The loop over `G.nodes` that stores each node's weighted degree. */
    method SetDegrees()
      requires Valid()
      modifies this
      ensures Valid()
      ensures nodes == old(nodes) && edges == old(edges)
      ensures degree.Keys == nodes
      ensures forall n :: n in nodes ==> degree[n] == Degree(edges, n)
    {
      degree := map[];
      var pending := nodes;
      while pending != {}
        invariant pending <= nodes
        invariant Valid()
        invariant nodes == old(nodes) && edges == old(edges)
        invariant degree.Keys == nodes - pending
        invariant forall n :: n in degree ==> degree[n] == Degree(edges, n)
        decreases pending
      {
        var n :| n in pending;
        var d := WeightedDegree(n);
        SetDegree(n, d);
        pending := pending - {n};
      }
    }

    /** `G.in_degree(n, weight='weight') + G.out_degree(n, weight='weight')` */
    method WeightedDegree(n: string) returns (d: int)
      ensures d == Degree(edges, n)
    {
      var inW := SideWeight(n, true);
      var outW := SideWeight(n, false);
      d := inW + outW;
    }
  }

  lemma EdgesForStep(grouped: map<Pair, Agg>, done: set<Pair>, k: Pair)
    requires k in grouped
    ensures EdgesFor(grouped, done + {k}) ==
      if Kept(k) then EdgesFor(grouped, done)[k := EdgeFor(k, grouped[k])] else EdgesFor(grouped, done)
  {
    var after, before := EdgesFor(grouped, done + {k}), EdgesFor(grouped, done);
    if Kept(k) {
      assert after.Keys == before.Keys + {k};
      forall j | j in after ensures after[j] == before[k := EdgeFor(k, grouped[k])][j] {
      }
    } else {
      assert after.Keys == before.Keys;
      forall j | j in after ensures after[j] == before[j] {
      }
    }
  }

  lemma EndpointsAdd(ks: set<Pair>, k: Pair)
    ensures Endpoints(ks + {k}) == Endpoints(ks) + {k.0, k.1}
  {
    var l, r := set j | j in ks + {k} :: j.0, set j | j in ks + {k} :: j.1;
    assert l == (set j | j in ks :: j.0) + {k.0};
    assert r == (set j | j in ks :: j.1) + {k.1};
  }

  /**
   * One iteration of the loop over the grouped rows: both endpoints become
   * nodes and the edge carries the group's count, amount and tooltip.
   */
  method AddGroup(g: TransferGraph, src: string, dst: string, agg: Agg)
    requires g.Valid()
    modifies g
    ensures g.Valid()
    ensures g.nodes == old(g.nodes) + {src, dst}
    ensures g.edges == old(g.edges)[(src, dst) := EdgeFor((src, dst), agg)]
    ensures g.degree == old(g.degree)
  {
    g.AddNode(src);
    g.AddNode(dst);
    var title := Title(src, dst, agg.txCount, agg.amountSum);
    g.AddEdge(src, dst, Edge(agg.txCount, agg.txCount, agg.amountSum, title));
  }

  /**
   * The loop over the grouped rows: one edge per group whose endpoints are
   * not blank, with both endpoints added as nodes.
   */
  method AddGroups(g: TransferGraph, grouped: map<Pair, Agg>)
    requires g.Valid() && g.nodes == {} && g.edges == map[] && g.degree == map[]
    modifies g
    ensures g.Valid()
    ensures g.edges == EdgesFor(grouped, grouped.Keys)
    ensures g.nodes == Endpoints(g.edges.Keys)
    ensures g.degree == map[]
  {
    var todo := grouped.Keys;
    assert EdgesFor(grouped, grouped.Keys - todo) == map[];
    while todo != {}
      invariant todo <= grouped.Keys
      invariant g.Valid()
      invariant g.edges == EdgesFor(grouped, grouped.Keys - todo)
      invariant g.nodes == Endpoints(g.edges.Keys)
      invariant g.degree == map[]
      decreases todo
    {
      var k :| k in todo;
      var src, dst := k.0, k.1;
      EdgesForStep(grouped, grouped.Keys - todo, k);
      assert grouped.Keys - (todo - {k}) == (grouped.Keys - todo) + {k};
      if !(AllSpace(src) || AllSpace(dst)) {
        EndpointsAdd(g.edges.Keys, k);
        AddGroup(g, src, dst, grouped[k]);
        assert k == (src, dst);
      }
      todo := todo - {k};
    }
    assert grouped.Keys - todo == grouped.Keys;
  }

  /**
   * `to_graph(df)`: the edges are exactly those of the kept groups, the
   * nodes exactly their endpoints, and every node's degree is its weighted
   * in-degree plus out-degree; a relation without rows gives the empty graph.
   */
  method ToGraph(rel: Relation) returns (g: TransferGraph)
    ensures fresh(g) && g.Valid()
    ensures g.edges == Expected(rel)
    ensures g.nodes == Endpoints(g.edges.Keys)
    ensures g.degree.Keys == g.nodes
    ensures forall n :: n in g.nodes ==> g.degree[n] == Degree(g.edges, n)
    ensures rel.rows == [] ==> g.nodes == {} && g.edges == map[]
  {
    g := new TransferGraph();
    var grouped := Grouped(rel);
    if rel.rows == [] {
      assert grouped == map[];
    }
    if |grouped| == 0 {
      assert Expected(rel) == map[];
      return;
    }
    AddGroups(g, grouped);
    g.SetDegrees();
  }
}
