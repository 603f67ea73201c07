/** What the edges of the transaction graph promise, derived from the
    grouping description of `EdgeProperties`: which transactions take part,
    what each edge holds, that every interaction is counted exactly once,
    that later transactions never reorder earlier edges, and when edge keys
    identify the ordered pair of endpoints. */
module EdgeResults {
  import opened Wrappers
  import opened Text
  import opened Decimal
  import opened Networks
  import opened EtherFormat
  import opened GraphEdges
  import opened EdgeProperties

  /** `address` is one of the tracked wallets, ignoring case. */
  predicate Tracked(wallets: seq<string>, address: string) {
    exists i | 0 <= i < |wallets| :: Lower(wallets[i]) == Lower(address)
  }

  /** A `find` result is truthy exactly when the address is non-empty and
      tracked: the first match has the same length as the address, so only
      an empty address can find an empty (falsy) wallet. */
  lemma TruthyFindIff(wallets: seq<string>, address: string)
    ensures Truthy(FindWallet(wallets, address)) <==> address != "" && Tracked(wallets, address)
  {
    var found := FindWallet(wallets, address);
    if found.Some? {
      var i :| 0 <= i < |wallets| && wallets[i] == found.value && Lower(wallets[i]) == Lower(address);
      LowerLength(wallets[i]);
      LowerLength(address);
    }
  }

  /** A transaction becomes part of an edge exactly when it has a non-empty
      sender and a non-empty receiver that are both tracked wallets. */
  lemma QualifiesIff(wallets: seq<string>, tx: Tx)
    ensures Qualifies(wallets, tx) <==>
      && tx.from != "" && Tracked(wallets, tx.from)
      && tx.to.Some? && tx.to.value != "" && Tracked(wallets, tx.to.value)
  {
    TruthyFindIff(wallets, tx.from);
    if tx.to.Some? {
      TruthyFindIff(wallets, tx.to.value);
    }
  }

  /** Transactions that do not qualify leave no trace: the edge map is the
      one built from the interactions alone. */
  lemma {:induction false} OnlyInteractionsCount(wallets: seq<string>, txs: seq<Tx>)
    ensures Aggregate(wallets, txs) == Aggregate(wallets, Qualifying(wallets, txs))
  {
    if txs != [] {
      var p := txs[..|txs| - 1];
      var tx := txs[|txs| - 1];
      OnlyInteractionsCount(wallets, p);
      var q := Qualifying(wallets, p);
      if Qualifies(wallets, tx) {
        assert (q + [tx])[..|q + [tx]| - 1] == q;
      }
    }
  }

  /** Later transactions never reorder or drop edges: the edge keys after
      the first `n` transactions are a prefix of the final ones. */
  lemma {:induction false} OrderIsStable(wallets: seq<string>, txs: seq<Tx>, n: nat)
    requires n <= |txs|
    ensures Aggregate(wallets, txs[..n]).order <= Aggregate(wallets, txs).order
    decreases |txs| - n
  {
    if n < |txs| {
      OrderIsStable(wallets, txs, n + 1);
      assert txs[..n + 1][..n] == txs[..n];
    } else {
      assert txs[..n] == txs;
    }
  }

  /** The edges, in order, are the relabelled edges of the groups of the
      interactions, one per distinct key in order of first occurrence. */
  lemma EdgesAreGroups(wallets: seq<string>, txs: seq<Tx>)
    ensures var q := Qualifying(wallets, txs);
      var keys := DistinctKeys(KeysOf(q));
      var edges := Output(Aggregate(wallets, txs));
      && |edges| == |keys|
      && forall i | 0 <= i < |edges| ::
           Group(q, keys[i]) != [] && edges[i] == Relabel(GroupEdge(Group(q, keys[i])))
  {
    var m := Aggregate(wallets, txs);
    var q := Qualifying(wallets, txs);
    var keys := DistinctKeys(KeysOf(q));
    AggregateIsGrouping(wallets, txs);
    forall i | 0 <= i < |keys|
      ensures Group(q, keys[i]) != [] && Output(m)[i] == Relabel(GroupEdge(Group(q, keys[i])))
    {
      assert keys[i] == m.order[i] && m.order[i] in m.entries;
    }
  }

  /** Each edge joins the lower-cased endpoints of its first transaction,
      its id is "source-target", and every transaction it holds is an input
      interaction with that same key. */
  lemma EdgeEndpoints(wallets: seq<string>, txs: seq<Tx>)
    ensures var edges := Output(Aggregate(wallets, txs));
      forall i | 0 <= i < |edges| ::
        && edges[i].transactions != []
        && edges[i].source == Lower(edges[i].transactions[0].from)
        && edges[i].target == Lower(Receiver(edges[i].transactions[0]))
        && edges[i].id == edges[i].source + "-" + edges[i].target
        && forall t | t in edges[i].transactions :: EdgeKey(t) == edges[i].id && Qualifies(wallets, t) && t in txs
  {
    EdgesAreGroups(wallets, txs);
    var q := Qualifying(wallets, txs);
    var keys := DistinctKeys(KeysOf(q));
    forall i | 0 <= i < |keys|
      ensures forall t | t in Group(q, keys[i]) :: EdgeKey(t) == keys[i] && Qualifies(wallets, t) && t in txs
    {
      GroupFromInput(wallets, txs, keys[i]);
    }
  }

  /** A group holds input interactions of its key. */
  lemma GroupFromInput(wallets: seq<string>, txs: seq<Tx>, key: string)
    ensures var g := Group(Qualifying(wallets, txs), key);
      forall t | t in g :: EdgeKey(t) == key && Qualifies(wallets, t) && t in txs
  {
    var q := Qualifying(wallets, txs);
    var g := Group(q, key);
    QualifyingFromInput(wallets, txs);
    forall t | t in g ensures EdgeKey(t) == key && Qualifies(wallets, t) && t in txs {
      var j :| 0 <= j < |g| && g[j] == t;
      var k :| 0 <= k < |q| && q[k] == t;
    }
  }

  /** The interactions are input transactions. */
  lemma {:induction false} QualifyingFromInput(wallets: seq<string>, txs: seq<Tx>)
    ensures forall t | t in Qualifying(wallets, txs) :: t in txs
  {
    if txs != [] {
      var p := txs[..|txs| - 1];
      QualifyingFromInput(wallets, p);
      assert forall t | t in p :: t in txs;
    }
  }

  /** An edge's network is that of its first transaction and its colour is
      that network's colour. */
  lemma EdgeStyle(wallets: seq<string>, txs: seq<Tx>)
    ensures forall e | e in Output(Aggregate(wallets, txs)) ::
      && e.transactions != []
      && e.network == e.transactions[0].network
      && e.color == NetworkColor(e.network)
  {
    EdgesAreGroups(wallets, txs);
  }

  /** The closed-form total: when the first value parses, the total is the
      exact sum of every value that parses; otherwise it stays the raw first
      value. */
  lemma TotalMeaning(g: seq<Tx>)
    requires g != []
    ensures Parse(g[0].value).Some? ==> Parse(TotalOf(g)) == Some(SumParsed(g))
    ensures Parse(g[0].value).None? ==> TotalOf(g) == g[0].value
  {
    if Parse(g[0].value).Some? && !SomeParses(g[1..]) {
      SumParsedOfUnparsed(g[1..]);
    }
  }

  /** The totals of the edges, and the caption computed from each total. */
  lemma EdgeTotals(wallets: seq<string>, txs: seq<Tx>)
    ensures forall e | e in Output(Aggregate(wallets, txs)) ::
      && e.transactions != []
      && (Parse(e.transactions[0].value).Some? ==> Parse(e.totalValue) == Some(SumParsed(e.transactions)))
      && (Parse(e.transactions[0].value).None? ==> e.totalValue == e.transactions[0].value)
      && e.caption == FormatEtherValue(e.totalValue)
  {
    EdgesAreGroups(wallets, txs);
    var q := Qualifying(wallets, txs);
    var keys := DistinctKeys(KeysOf(q));
    var edges := Output(Aggregate(wallets, txs));
    forall i | 0 <= i < |edges|
      ensures Parse(edges[i].transactions[0].value).Some? ==>
        Parse(edges[i].totalValue) == Some(SumParsed(edges[i].transactions))
      ensures Parse(edges[i].transactions[0].value).None? ==>
        edges[i].totalValue == edges[i].transactions[0].value
    {
      TotalMeaning(Group(q, keys[i]));
    }
  }

  /** All transactions held by a sequence of edges. */
  function TxBag(edges: seq<Edge>): multiset<Tx> {
    if edges == [] then multiset{}
    else TxBag(edges[..|edges| - 1]) + multiset(edges[|edges| - 1].transactions)
  }

  /** All transactions of the groups of `keys`. */
  function GroupsBag(q: seq<Tx>, keys: seq<string>): multiset<Tx> {
    if keys == [] then multiset{}
    else GroupsBag(q, keys[..|keys| - 1]) + multiset(Group(q, keys[|keys| - 1]))
  }

  /** One more interaction lands in exactly one of a list of distinct keys'
      groups, or in none when its key is not listed. */
  lemma {:induction false} GroupsBagStep(q: seq<Tx>, tx: Tx, keys: seq<string>)
    requires forall i, j | 0 <= i < j < |keys| :: keys[i] != keys[j]
    ensures GroupsBag(q + [tx], keys) ==
      GroupsBag(q, keys) + if EdgeKey(tx) in keys then multiset{tx} else multiset{}
  {
    if keys != [] {
      var p := keys[..|keys| - 1];
      var k := keys[|keys| - 1];
      assert keys == p + [k];
      GroupsBagStep(q, tx, p);
      GroupSnoc(q, tx, k);
      if EdgeKey(tx) == k {
        assert k !in p;
        assert multiset(Group(q + [tx], k)) == multiset(Group(q, k)) + multiset{tx};
      } else {
        assert EdgeKey(tx) in keys <==> EdgeKey(tx) in p;
      }
    }
  }

  /** The distinct keys after one more interaction. */
  lemma DistinctKeysStep(p: seq<Tx>, tx: Tx)
    ensures var keys := DistinctKeys(KeysOf(p));
      DistinctKeys(KeysOf(p + [tx])) == if EdgeKey(tx) in keys then keys else keys + [EdgeKey(tx)]
  {
    var q := p + [tx];
    assert q[..|q| - 1] == p;
    assert KeysOf(q) == KeysOf(p) + [EdgeKey(tx)];
    assert KeysOf(q)[..|KeysOf(q)| - 1] == KeysOf(p);
  }

  /** The group of a key first seen with `tx` is just `tx`. */
  lemma NewKeyBag(p: seq<Tx>, tx: Tx, keys: seq<string>)
    requires EdgeKey(tx) !in KeysOf(p)
    ensures GroupsBag(p + [tx], keys + [EdgeKey(tx)]) == GroupsBag(p + [tx], keys) + multiset{tx}
  {
    var q := p + [tx];
    assert q[..|q| - 1] == p;
    GroupEmptyIff(p, EdgeKey(tx));
    assert Group(q, EdgeKey(tx)) == [tx];
    var keys' := keys + [EdgeKey(tx)];
    assert keys'[..|keys'| - 1] == keys;
  }

  /** The groups of the distinct keys of `q` hold every interaction of `q`
      exactly once. */
  ghost predicate GroupsCover(q: seq<Tx>) {
    GroupsBag(q, DistinctKeys(KeysOf(q))) == multiset(q)
  }

  lemma {:induction false} GroupsCoverInteractions(q: seq<Tx>)
    ensures GroupsCover(q)
  {
    if q != [] {
      var p := q[..|q| - 1];
      var tx := q[|q| - 1];
      GroupsCoverInteractions(p);
      GroupsCoverStep(p, tx);
      SplitLast(q);
    }
  }

  lemma GroupsCoverStep(p: seq<Tx>, tx: Tx)
    requires GroupsCover(p)
    ensures GroupsCover(p + [tx])
  {
    var keys := DistinctKeys(KeysOf(p));
    var key := EdgeKey(tx);
    assert GroupsBag(p + [tx], keys) == multiset(p) + if key in keys then multiset{tx} else multiset{} by {
      GroupsBagStep(p, tx, keys);
    }
    DistinctKeysStep(p, tx);
    if key !in keys {
      NewKeyBag(p, tx, keys);
    }
  }

  lemma {:induction false} TxBagOfGroups(edges: seq<Edge>, q: seq<Tx>, keys: seq<string>)
    requires |edges| == |keys|
    requires forall i | 0 <= i < |edges| :: edges[i].transactions == Group(q, keys[i])
    ensures TxBag(edges) == GroupsBag(q, keys)
  {
    if edges != [] {
      TxBagOfGroups(edges[..|edges| - 1], q, keys[..|keys| - 1]);
    }
  }

  /** Every interaction is in exactly one edge, once, and the edges hold
      nothing else: the transactions of all edges together are the
      qualifying transactions, with multiplicity. */
  lemma TransactionsCountedOnce(wallets: seq<string>, txs: seq<Tx>)
    ensures TxBag(Output(Aggregate(wallets, txs))) == multiset(Qualifying(wallets, txs))
  {
    var q := Qualifying(wallets, txs);
    var keys := DistinctKeys(KeysOf(q));
    EdgesAreGroups(wallets, txs);
    TxBagOfGroups(Output(Aggregate(wallets, txs)), q, keys);
    GroupsCoverInteractions(q);
  }

  /** An interaction belongs to the group of its own key. */
  lemma {:induction false} InOwnGroup(q: seq<Tx>, i: nat)
    requires i < |q|
    ensures q[i] in Group(q, EdgeKey(q[i]))
  {
    var p := q[..|q| - 1];
    if i < |p| {
      InOwnGroup(p, i);
      assert p[i] == q[i];
    }
  }

  /** Each interaction is held by the edge whose id is its own edge key. */
  lemma InteractionInItsEdge(wallets: seq<string>, txs: seq<Tx>, i: nat)
    requires i < |Qualifying(wallets, txs)|
    ensures var tx := Qualifying(wallets, txs)[i];
      exists e | e in Output(Aggregate(wallets, txs)) :: e.id == EdgeKey(tx) && tx in e.transactions
  {
    var q := Qualifying(wallets, txs);
    var keys := DistinctKeys(KeysOf(q));
    var edges := Output(Aggregate(wallets, txs));
    EdgesAreGroups(wallets, txs);
    InOwnGroup(q, i);
    assert EdgeKey(q[i]) in KeysOf(q);
    var j :| 0 <= j < |keys| && keys[j] == EdgeKey(q[i]);
    assert edges[j].transactions == Group(q, keys[j]);
    assert edges[j].id == EdgeKey(Group(q, keys[j])[0]);
  }

  /** Index of the first '-' of `s`, or |s| when there is none. */
  function DashIndex(s: string): (n: nat)
    ensures n <= |s|
  {
    if s == [] || s[0] == '-' then 0 else 1 + DashIndex(s[1..])
  }

  lemma {:induction false} DashAfter(x: string, y: string)
    requires '-' !in x
    ensures DashIndex(x + "-" + y) == |x|
  {
    if x != [] {
      assert (x + "-" + y)[1..] == x[1..] + "-" + y;
      DashAfter(x[1..], y);
    }
  }

  /** A "x-y" string with no '-' in `x` determines both halves. */
  lemma SplitAtDash(x1: string, y1: string, x2: string, y2: string)
    requires '-' !in x1 && '-' !in x2
    requires x1 + "-" + y1 == x2 + "-" + y2
    ensures x1 == x2 && y1 == y2
  {
    var s := x1 + "-" + y1;
    DashAfter(x1, y1);
    DashAfter(x2, y2);
    assert x1 == s[..|x1|] == x2;
    assert y1 == s[|x1| + 1..] == y2;
  }

  lemma NoDashLower(s: string)
    requires '-' !in s
    ensures '-' !in Lower(s)
  {
    LowerKeepsDash(s);
  }

  /** For senders without '-' (as hexadecimal addresses are), two
      transactions share an edge key exactly when they have the same sender
      and the same receiver, ignoring case. */
  lemma KeyInjective(a: Tx, b: Tx)
    requires '-' !in a.from && '-' !in b.from
    ensures EdgeKey(a) == EdgeKey(b) <==>
      Lower(a.from) == Lower(b.from) && Lower(Receiver(a)) == Lower(Receiver(b))
  {
    NoDashLower(a.from);
    NoDashLower(b.from);
    if EdgeKey(a) == EdgeKey(b) {
      SplitAtDash(Lower(a.from), Lower(Receiver(a)), Lower(b.from), Lower(Receiver(b)));
    }
  }

  /** Transfers in the two directions between the same two distinct
      wallets make two different edges. */
  lemma OppositeDirectionsDistinct(a: Tx, b: Tx)
    requires '-' !in a.from && '-' !in b.from
    requires Lower(a.from) == Lower(Receiver(b)) && Lower(Receiver(a)) == Lower(b.from)
    requires Lower(a.from) != Lower(Receiver(a))
    ensures EdgeKey(a) != EdgeKey(b)
  {
    KeyInjective(a, b);
  }

  /** The key is not injective once a sender contains '-': "a-b" paying
      "c" and "a" paying "b-c" share the key "a-b-c" and so one edge. */
  lemma KeyCollision(a: Tx, b: Tx)
    requires a.from == "a-b" && a.to == Some("c")
    requires b.from == "a" && b.to == Some("b-c")
    ensures EdgeKey(a) == EdgeKey(b) && Lower(a.from) != Lower(b.from)
  {
    assert Lower("a-b") == "a-b";
    assert Lower("c") == "c";
    assert Lower("a") == "a";
    assert Lower("b-c") == "b-c";
  }

  /** Two interactions with the same key make one edge: the second is
      added to the edge the first one created. */
  lemma SameKeyOneEdge(wallets: seq<string>, t1: Tx, t2: Tx)
    requires Qualifies(wallets, t1) && Qualifies(wallets, t2) && EdgeKey(t1) == EdgeKey(t2)
    ensures Aggregate(wallets, [t1, t2]) ==
      EdgeMap([EdgeKey(t1)], map[EdgeKey(t1) := AddToEdge(NewEdge(t1), t2)])
  {
    var key := EdgeKey(t1);
    var m1 := EdgeMap([key], map[key := NewEdge(t1)]);
    assert Aggregate(wallets, [t1]) == m1 by {
      FirstEdge(wallets, t1);
    }
    AggregatePair(wallets, t1, t2);
    assert Step(wallets, m1, t2) == EdgeMap([key], map[key := AddToEdge(NewEdge(t1), t2)]) by {
      StepExtendsEdge(wallets, m1, t2);
      Overwrite(key, NewEdge(t1), AddToEdge(NewEdge(t1), t2));
    }
  }

  lemma Overwrite(key: string, first: Edge, second: Edge)
    ensures map[key := first][key := second] == map[key := second]
  {
  }

  /** A single interaction makes a single new edge. */
  lemma FirstEdge(wallets: seq<string>, t1: Tx)
    requires Qualifies(wallets, t1)
    ensures Aggregate(wallets, [t1]) == EdgeMap([EdgeKey(t1)], map[EdgeKey(t1) := NewEdge(t1)])
  {
    AggregateSnoc(wallets, [], t1);
    assert [] + [t1] == [t1];
    StepAddsEdge(wallets, EdgeMap([], map[]), t1);
  }

  /** When the total and the value both parse, the new total is their sum. */
  lemma AddParsed(edge: Edge, tx: Tx, a: int, b: int)
    requires edge.totalValue == ToDecimal(a) && tx.value == ToDecimal(b)
    ensures AddToEdge(edge, tx) ==
      edge.(transactions := edge.transactions + [tx], totalValue := ToDecimal(a + b))
  {
    assert Parse(edge.totalValue) == Some(a);
    assert Parse(tx.value) == Some(b);
  }

  /** Two transfers with the same key make one edge holding both,
      coloured after the network of the first, whose total is the exact sum
      of their values. */
  lemma TwoTransfersOneEdge(wallets: seq<string>, t1: Tx, t2: Tx, a: int, b: int)
    requires Qualifies(wallets, t1) && Qualifies(wallets, t2) && EdgeKey(t1) == EdgeKey(t2)
    requires t1.value == ToDecimal(a) && t2.value == ToDecimal(b)
    ensures var edges := Output(Aggregate(wallets, [t1, t2]));
      && |edges| == 1
      && edges[0].id == EdgeKey(t1)
      && edges[0].transactions == [t1, t2]
      && edges[0].totalValue == ToDecimal(a + b)
      && edges[0].color == NetworkColor(t1.network)
      && edges[0].caption == FormatEtherValue(ToDecimal(a + b))
  {
    var key := EdgeKey(t1);
    var e := NewEdge(t1).(transactions := [t1, t2], totalValue := ToDecimal(a + b));
    assert AddToEdge(NewEdge(t1), t2) == e by {
      AddParsed(NewEdge(t1), t2, a, b);
    }
    assert Output(Aggregate(wallets, [t1, t2])) == [Relabel(e)] by {
      SameKeyOneEdge(wallets, t1, t2);
      SingleEdgeOutput(key, e);
    }
  }

  lemma SingleEdgeOutput(key: string, e: Edge)
    ensures Output(EdgeMap([key], map[key := e])) == [Relabel(e)]
  {
  }

  /** Transfers of 1 and 0.5 ether between the same two tracked wallets
      make one edge whose total is 1.5 ether and whose label reads
      "1.5 ETH". */
  lemma OneAndAHalfEtherEdge(wallets: seq<string>, t1: Tx, t2: Tx, one: int, half: int)
    requires one == 1_000_000_000_000_000_000 && half == 500_000_000_000_000_000
    requires Qualifies(wallets, t1) && Qualifies(wallets, t2) && EdgeKey(t1) == EdgeKey(t2)
    requires t1.value == ToDecimal(one) && t2.value == ToDecimal(half)
    ensures var edges := Output(Aggregate(wallets, [t1, t2]));
      && |edges| == 1
      && Parse(edges[0].totalValue) == Some(one + half)
      && edges[0].caption == "1.5" + Unit
  {
    TwoTransfersOneEdge(wallets, t1, t2, one, half);
    OneAndAHalfEtherLabel(one + half);
  }
}
