/** The `edges` memo of the transaction graph: transactions between two
    tracked wallets are grouped by edge key `lower(from)-lower(to)` (one key
    per ordered pair for senders without '-') into one edge each, with the
    running total of their values. */
module GraphEdges {
  import opened Wrappers
  import opened Text
  import opened Decimal
  import opened Networks
  import opened EtherFormat

  /** A transaction as the graph receives it; `to` is absent for contract
      creations. `value` is wei as decimal text. */
  datatype Tx = Tx(hash: string, from: string, to: Option<string>, value: string,
                   network: string, networkName: string)

  /** A graph edge: `id` is the edge key, `source`/`target` the lower-cased
      endpoints, `color` the stroke and arrow colour, `transactions`,
      `totalValue` and `network` its data, `caption` its label. */
  datatype Edge = Edge(id: string, source: string, target: string, color: string,
                       transactions: seq<Tx>, totalValue: string, network: string,
                       caption: string)

  /** The JavaScript `Map` of edges: the keys in insertion order and the
      entry of each key. */
  datatype EdgeMap = EdgeMap(order: seq<string>, entries: map<string, Edge>)

  /** What a `Map` of edges always is: every key once, and the entries are
      exactly those of the listed keys. */
  predicate WellFormed(m: EdgeMap) {
    && (forall i, j | 0 <= i < j < |m.order| :: m.order[i] != m.order[j])
    && (forall k | k in m.order :: k in m.entries)
    && (forall k | k in m.entries :: k in m.order)
  }

  /** `wallets.find(w => w.toLowerCase() === address.toLowerCase())`: the
      first wallet equal to `address` ignoring case. */
  function FindWallet(wallets: seq<string>, address: string): (found: Option<string>)
    ensures found.None? <==> forall i | 0 <= i < |wallets| :: Lower(wallets[i]) != Lower(address)
    ensures found.Some? ==> exists i | 0 <= i < |wallets| ::
      && wallets[i] == found.value
      && Lower(wallets[i]) == Lower(address)
      && forall j | 0 <= j < i :: Lower(wallets[j]) != Lower(address)
  {
    if wallets == [] then None
    else if Lower(wallets[0]) == Lower(address) then Some(wallets[0])
    else
      var found := FindWallet(wallets[1..], address);
      assert forall i | 1 <= i < |wallets| :: wallets[i] == wallets[1..][i - 1];
      found
  }

  /** The wallet matching the receiver; `tx.to?.toLowerCase()` makes it
      `undefined` when there is no receiver. */
  function ReceiverWallet(wallets: seq<string>, tx: Tx): Option<string> {
    match tx.to
    case None => None
    case Some(to) => FindWallet(wallets, to)
  }

  /** JavaScript truthiness of a `find` result: `undefined` and "" are false. */
  predicate Truthy(found: Option<string>) {
    found.Some? && found.value != ""
  }

  /** `if (fromWallet && toWallet)`: the transaction becomes part of an edge. */
  predicate Qualifies(wallets: seq<string>, tx: Tx) {
    Truthy(FindWallet(wallets, tx.from)) && Truthy(ReceiverWallet(wallets, tx))
  }

  /** The receiver address; only consulted for qualifying transactions,
      which always have one. */
  function Receiver(tx: Tx): string {
    tx.to.GetOr("")
  }

  /** `${tx.from.toLowerCase()}-${tx.to.toLowerCase()}`. */
  function EdgeKey(tx: Tx): string {
    Lower(tx.from) + "-" + Lower(Receiver(tx))
  }

  /** The edge `edgeMap.set` creates for the first transaction of a key. */
  function NewEdge(tx: Tx): Edge {
    Edge(EdgeKey(tx), Lower(tx.from), Lower(Receiver(tx)), NetworkColor(tx.network),
         [tx], tx.value, tx.network, FormatEtherValue(tx.value))
  }

  /** A later transaction of an existing edge: always appended; the total
      becomes the exact sum only when both the total and the value parse. */
  function AddToEdge(edge: Edge, tx: Tx): Edge {
    match (Parse(edge.totalValue), Parse(tx.value))
    case (Some(current), Some(amount)) =>
      edge.(transactions := edge.transactions + [tx], totalValue := ToDecimal(current + amount))
    case _ =>
      edge.(transactions := edge.transactions + [tx])
  }

  /** One iteration of `transactions.forEach`. */
  function Step(wallets: seq<string>, m: EdgeMap, tx: Tx): EdgeMap {
    if !Qualifies(wallets, tx) then m
    else
      var key := EdgeKey(tx);
      if key in m.entries then m.(entries := m.entries[key := AddToEdge(m.entries[key], tx)])
      else EdgeMap(m.order + [key], m.entries[key := NewEdge(tx)])
  }

  /** Every entry of the map is an edge under its own key with at least one
      transaction. */
  predicate EntriesKeyed(m: EdgeMap) {
    forall k | k in m.entries :: m.entries[k].id == k && m.entries[k].transactions != []
  }

  /** One iteration keeps the map well formed and its entries keyed. */
  lemma StepKeepsShape(wallets: seq<string>, m: EdgeMap, tx: Tx)
    requires WellFormed(m) && EntriesKeyed(m)
    ensures WellFormed(Step(wallets, m, tx)) && EntriesKeyed(Step(wallets, m, tx))
  {
    if Qualifies(wallets, tx) {
      var key := EdgeKey(tx);
      if key in m.entries {
        ExtendKeepsShape(m, key, AddToEdge(m.entries[key], tx));
      } else {
        AppendKeepsShape(m, key, NewEdge(tx));
      }
    }
  }

  /** Replacing the edge of a listed key by one with the same id. */
  lemma ExtendKeepsShape(m: EdgeMap, key: string, edge: Edge)
    requires WellFormed(m) && EntriesKeyed(m) && key in m.entries
    requires edge.id == key && edge.transactions != []
    ensures WellFormed(m.(entries := m.entries[key := edge]))
    ensures EntriesKeyed(m.(entries := m.entries[key := edge]))
  {
  }

  /** Listing a new key with its edge. */
  lemma AppendKeepsShape(m: EdgeMap, key: string, edge: Edge)
    requires WellFormed(m) && EntriesKeyed(m) && key !in m.entries
    requires edge.id == key && edge.transactions != []
    ensures WellFormed(EdgeMap(m.order + [key], m.entries[key := edge]))
    ensures EntriesKeyed(EdgeMap(m.order + [key], m.entries[key := edge]))
  {
    var order := m.order + [key];
    assert forall i | 0 <= i < |m.order| :: order[i] == m.order[i];
    assert key !in m.order;
  }

  /** The edge map after the first |txs| iterations. */
  function Aggregate(wallets: seq<string>, txs: seq<Tx>): (m: EdgeMap)
    ensures WellFormed(m) && EntriesKeyed(m)
  {
    if txs == [] then EdgeMap([], map[])
    else
      var m := Aggregate(wallets, txs[..|txs| - 1]);
      StepKeepsShape(wallets, m, txs[|txs| - 1]);
      Step(wallets, m, txs[|txs| - 1])
  }

  /** The edge map after one more transaction is one more step. */
  lemma AggregateSnoc(wallets: seq<string>, txs: seq<Tx>, tx: Tx)
    ensures Aggregate(wallets, txs + [tx]) == Step(wallets, Aggregate(wallets, txs), tx)
  {
    assert (txs + [tx])[..|txs + [tx]| - 1] == txs;
  }

  /** Folding one more element of a prefix is one more step. */
  lemma AggregatePrefixStep(wallets: seq<string>, txs: seq<Tx>, n: nat)
    requires n < |txs|
    ensures Aggregate(wallets, txs[..n + 1]) == Step(wallets, Aggregate(wallets, txs[..n]), txs[n])
  {
    assert txs[..n + 1][..n] == txs[..n];
  }

  /** Two transactions: the step of the second after the first. */
  lemma AggregatePair(wallets: seq<string>, t1: Tx, t2: Tx)
    ensures Aggregate(wallets, [t1, t2]) == Step(wallets, Aggregate(wallets, [t1]), t2)
  {
    assert [t1, t2][..1] == [t1];
  }

  /** A step touches only the entry of the transaction's own key. */
  lemma StepKeepsOtherKeys(wallets: seq<string>, m: EdgeMap, tx: Tx, k: string)
    requires k != EdgeKey(tx)
    ensures k in Step(wallets, m, tx).entries <==> k in m.entries
    ensures k in m.entries ==> Step(wallets, m, tx).entries[k] == m.entries[k]
  {
  }

  /** A qualifying transaction with a known key is added to that edge. */
  lemma StepExtendsEdge(wallets: seq<string>, m: EdgeMap, tx: Tx)
    requires Qualifies(wallets, tx) && EdgeKey(tx) in m.entries
    ensures Step(wallets, m, tx) ==
      m.(entries := m.entries[EdgeKey(tx) := AddToEdge(m.entries[EdgeKey(tx)], tx)])
  {
  }

  /** The two cases of `AddToEdge`, as the loop of `BuildEdges` takes them. */
  lemma AddToEdgeCases(edge: Edge, tx: Tx)
    ensures Parse(edge.totalValue).Some? && Parse(tx.value).Some? ==>
      AddToEdge(edge, tx) == edge.(transactions := edge.transactions + [tx],
        totalValue := ToDecimal(Parse(edge.totalValue).value + Parse(tx.value).value))
    ensures !(Parse(edge.totalValue).Some? && Parse(tx.value).Some?) ==>
      AddToEdge(edge, tx) == edge.(transactions := edge.transactions + [tx])
  {
  }

  /** A qualifying transaction with a new key appends a new edge. */
  lemma StepAddsEdge(wallets: seq<string>, m: EdgeMap, tx: Tx)
    requires Qualifies(wallets, tx) && EdgeKey(tx) !in m.entries
    ensures Step(wallets, m, tx) ==
      EdgeMap(m.order + [EdgeKey(tx)], m.entries[EdgeKey(tx) := NewEdge(tx)])
  {
  }

  /** The final pass: every edge relabelled from its final total. */
  function Relabel(edge: Edge): Edge {
    edge.(caption := FormatEtherValue(edge.totalValue))
  }

  /** `Array.from(edgeMap.values()).map(...)`, in insertion order. */
  function Output(m: EdgeMap): seq<Edge>
    requires WellFormed(m)
  {
    seq(|m.order|, i requires 0 <= i < |m.order| => Relabel(m.entries[m.order[i]]))
  }

  /** The `edges` memo: the loop over the transactions with the edge map as
      its state, then the relabelling pass. */
  method BuildEdges(wallets: seq<string>, transactions: seq<Tx>) returns (edges: seq<Edge>)
    ensures edges == Output(Aggregate(wallets, transactions))
    ensures forall i | 0 <= i < |edges| :: edges[i].caption == FormatEtherValue(edges[i].totalValue)
    ensures forall i, j | 0 <= i < j < |edges| :: edges[i].id != edges[j].id
  {
    var order: seq<string> := [];
    var edgeMap: map<string, Edge> := map[];
    var n := 0;
    while n < |transactions|
      invariant 0 <= n <= |transactions|
      invariant EdgeMap(order, edgeMap) == Aggregate(wallets, transactions[..n])
    {
      var tx := transactions[n];
      AggregatePrefixStep(wallets, transactions, n);
      ghost var next := Step(wallets, EdgeMap(order, edgeMap), tx);
      var fromWallet := FindWallet(wallets, tx.from);
      var toWallet := ReceiverWallet(wallets, tx);
      if Truthy(fromWallet) && Truthy(toWallet) {
        var edgeId := EdgeKey(tx);
        if edgeId in edgeMap {
          StepExtendsEdge(wallets, EdgeMap(order, edgeMap), tx);
          var existing := edgeMap[edgeId];
          var currentTotal := Parse(existing.totalValue);
          var newValue := Parse(tx.value);
          var updated;
          AddToEdgeCases(existing, tx);
          if currentTotal.Some? && newValue.Some? {
            updated := existing.(transactions := existing.transactions + [tx],
                                 totalValue := ToDecimal(currentTotal.value + newValue.value));
          } else {
            updated := existing.(transactions := existing.transactions + [tx]);
          }
          edgeMap := edgeMap[edgeId := updated];
          assert EdgeMap(order, edgeMap) == next;
        } else {
          StepAddsEdge(wallets, EdgeMap(order, edgeMap), tx);
          order := order + [edgeId];
          edgeMap := edgeMap[edgeId := NewEdge(tx)];
          assert EdgeMap(order, edgeMap) == next;
        }
      }
      n := n + 1;
    }
    assert transactions[..n] == transactions;
    var result := EdgeMap(order, edgeMap);
    edges := Output(result);
    forall i, j | 0 <= i < j < |edges|
      ensures edges[i].id != edges[j].id
    {
      assert edges[i].id == order[i] && edges[j].id == order[j];
    }
  }
}
