/** What the edge aggregation computes, stated independently of the loop:
    the interactions (qualifying transactions) are grouped by edge key, each
    group becomes one edge, and the edges come in order of first occurrence
    of their key. The lemmas below connect `Aggregate` (and so `BuildEdges`)
    to this description and derive the promised properties from it. */
module EdgeProperties {
  import opened Wrappers
  import opened Text
  import opened Decimal
  import opened Networks
  import opened EtherFormat
  import opened GraphEdges

  /** The interactions: the qualifying transactions, in input order. */
  function Qualifying(wallets: seq<string>, txs: seq<Tx>): (q: seq<Tx>)
    ensures |q| <= |txs|
    ensures forall i | 0 <= i < |q| :: Qualifies(wallets, q[i])
  {
    if txs == [] then []
    else
      var q := Qualifying(wallets, txs[..|txs| - 1]);
      var tx := txs[|txs| - 1];
      if Qualifies(wallets, tx) then q + [tx] else q
  }

  /** The edge key of every interaction, in order. */
  function KeysOf(q: seq<Tx>): (keys: seq<string>)
    ensures |keys| == |q|
    ensures forall i | 0 <= i < |q| :: keys[i] == EdgeKey(q[i])
  {
    if q == [] then [] else KeysOf(q[..|q| - 1]) + [EdgeKey(q[|q| - 1])]
  }

  /** The keys without repetitions, each where it first occurs. */
  function DistinctKeys(keys: seq<string>): (r: seq<string>)
    ensures forall i, j | 0 <= i < j < |r| :: r[i] != r[j]
    ensures forall k :: k in r <==> k in keys
  {
    if keys == [] then []
    else
      var r := DistinctKeys(keys[..|keys| - 1]);
      var last := keys[|keys| - 1];
      assert keys == keys[..|keys| - 1] + [last];
      if last in r then r else r + [last]
  }

  /** The index where `k` first occurs in `keys`. */
  function FirstIndex(keys: seq<string>, k: string): (p: nat)
    requires k in keys
    ensures p < |keys| && keys[p] == k
    ensures forall q | 0 <= q < p :: keys[q] != k
  {
    var prefix := keys[..|keys| - 1];
    assert keys == prefix + [keys[|keys| - 1]];
    if k in prefix then FirstIndex(prefix, k) else |keys| - 1
  }

  /** `DistinctKeys` lists the keys in the order of their first occurrence. */
  lemma {:induction false} DistinctKeysInOrder(keys: seq<string>)
    ensures forall i, j | 0 <= i < j < |DistinctKeys(keys)| ::
      FirstIndex(keys, DistinctKeys(keys)[i]) < FirstIndex(keys, DistinctKeys(keys)[j])
  {
    if keys != [] {
      var prefix := keys[..|keys| - 1];
      var last := keys[|keys| - 1];
      var r := DistinctKeys(keys);
      var r' := DistinctKeys(prefix);
      DistinctKeysInOrder(prefix);
      forall k | k in prefix ensures FirstIndex(keys, k) == FirstIndex(prefix, k) { }
      forall i, j | 0 <= i < j < |r|
        ensures FirstIndex(keys, r[i]) < FirstIndex(keys, r[j])
      {
        if last in r' {
          assert r == r';
        } else {
          assert r == r' + [last];
        }
        assert r[i] == r'[i] && r'[i] in prefix;
        if j < |r'| {
          assert r[j] == r'[j] && r'[j] in prefix;
          assert FirstIndex(prefix, r'[i]) < FirstIndex(prefix, r'[j]);
        } else {
          assert r[j] == last && last !in prefix;
          assert FirstIndex(keys, last) == |keys| - 1;
        }
      }
    }
  }

  /** The interactions with edge key `key`, in input order. */
  function Group(q: seq<Tx>, key: string): (g: seq<Tx>)
    ensures forall i | 0 <= i < |g| :: EdgeKey(g[i]) == key && g[i] in q
  {
    if q == [] then []
    else
      var g := Group(q[..|q| - 1], key);
      var tx := q[|q| - 1];
      if EdgeKey(tx) == key then g + [tx] else g
  }

  /** The value of a transaction when it parses, otherwise nothing. */
  function ValueOrZero(tx: Tx): int {
    Parse(tx.value).GetOr(0)
  }

  /** The exact sum of the values that parse. */
  function SumParsed(txs: seq<Tx>): int {
    if txs == [] then 0 else ValueOrZero(txs[0]) + SumParsed(txs[1..])
  }

  predicate SomeParses(txs: seq<Tx>) {
    exists i | 0 <= i < |txs| :: Parse(txs[i].value).Some?
  }

  /** The total an edge of group `g` ends with, in closed form: the raw first
      value when it does not parse or nothing after it parses, otherwise the
      exact sum of the first value and every later value that parses. */
  function TotalOf(g: seq<Tx>): string
    requires g != []
  {
    match Parse(g[0].value)
    case None => g[0].value
    case Some(first) =>
      if SomeParses(g[1..]) then ToDecimal(first + SumParsed(g[1..])) else g[0].value
  }

  /** The edge a group of interactions stands for: identity, colour and
      network from its first transaction, all its transactions, its total. */
  function GroupEdge(g: seq<Tx>): Edge
    requires g != []
  {
    var first := g[0];
    Edge(EdgeKey(first), Lower(first.from), Lower(Receiver(first)), NetworkColor(first.network),
         g, TotalOf(g), first.network, FormatEtherValue(first.value))
  }

  lemma {:induction false} SumParsedAppend(txs: seq<Tx>, tx: Tx)
    ensures SumParsed(txs + [tx]) == SumParsed(txs) + ValueOrZero(tx)
  {
    if txs != [] {
      assert (txs + [tx])[1..] == txs[1..] + [tx];
      SumParsedAppend(txs[1..], tx);
    }
  }

  lemma {:induction false} SumParsedOfUnparsed(txs: seq<Tx>)
    requires !SomeParses(txs)
    ensures SumParsed(txs) == 0
  {
    if txs != [] {
      assert !SomeParses(txs[1..]) by {
        forall i | 0 <= i < |txs[1..]| ensures Parse(txs[1..][i].value).None? {
          assert txs[1..][i] == txs[i + 1];
        }
      }
      SumParsedOfUnparsed(txs[1..]);
    }
  }

  /** One more transaction moves the closed-form total exactly as the loop
      body does. */
  lemma TotalStep(g: seq<Tx>, tx: Tx)
    requires g != []
    ensures TotalOf(g + [tx]) ==
      match (Parse(TotalOf(g)), Parse(tx.value))
      case (Some(current), Some(amount)) => ToDecimal(current + amount)
      case _ => TotalOf(g)
  {
    var g' := g + [tx];
    assert g'[0] == g[0];
    assert g'[1..] == g[1..] + [tx];
    SumParsedAppend(g[1..], tx);
    match Parse(g[0].value)
    case None =>
    case Some(first) =>
      if !SomeParses(g[1..]) {
        SumParsedOfUnparsed(g[1..]);
        if Parse(tx.value).Some? {
          assert Parse(g'[|g'| - 1].value).Some?;
        } else {
          assert !SomeParses(g'[1..]) by {
            forall i | 0 <= i < |g'[1..]| ensures Parse(g'[1..][i].value).None? {
              if i < |g[1..]| {
                assert g'[1..][i] == g[1..][i];
              }
            }
          }
        }
      } else {
        var i :| 0 <= i < |g[1..]| && Parse(g[1..][i].value).Some?;
        assert g'[1..][i] == g[1..][i];
      }
  }

  lemma GroupEdgeStep(g: seq<Tx>, tx: Tx)
    requires g != []
    ensures GroupEdge(g + [tx]) == AddToEdge(GroupEdge(g), tx)
  {
    assert (g + [tx])[0] == g[0];
    TotalStep(g, tx);
    AddToEdgeCases(GroupEdge(g), tx);
  }

  lemma GroupEdgeSingle(tx: Tx)
    ensures GroupEdge([tx]) == NewEdge(tx)
  {
    assert !SomeParses([tx][1..]);
  }

  /** A key has a non-empty group exactly when some interaction has it. */
  lemma {:induction false} GroupEmptyIff(q: seq<Tx>, key: string)
    ensures Group(q, key) == [] <==> key !in KeysOf(q)
  {
    if q != [] {
      var p := q[..|q| - 1];
      GroupEmptyIff(p, key);
      assert KeysOf(q) == KeysOf(p) + [EdgeKey(q[|q| - 1])];
    }
  }

  /** The grouping description of an edge map: the keys of the
      interactions `q` in order of first occurrence, each mapped to the edge
      of its group. */
  ghost predicate DescribesGroups(m: EdgeMap, q: seq<Tx>) {
    && m.order == DistinctKeys(KeysOf(q))
    && forall k | k in m.entries :: Group(q, k) != [] && m.entries[k] == GroupEdge(Group(q, k))
  }

  /** One more interaction joins the group of its own key only. */
  lemma GroupSnoc(q: seq<Tx>, tx: Tx, k: string)
    ensures Group(q + [tx], k) == if EdgeKey(tx) == k then Group(q, k) + [tx] else Group(q, k)
  {
    assert (q + [tx])[..|q + [tx]| - 1] == q;
  }

  /** The entry of one key after a qualifying step. */
  lemma StepEntry(wallets: seq<string>, m0: EdgeMap, q0: seq<Tx>, tx: Tx, k: string)
    requires WellFormed(m0) && DescribesGroups(m0, q0) && Qualifies(wallets, tx)
    requires k in Step(wallets, m0, tx).entries
    ensures var q := q0 + [tx];
      Group(q, k) != [] && Step(wallets, m0, tx).entries[k] == GroupEdge(Group(q, k))
  {
    if k != EdgeKey(tx) {
      StepEntryOther(wallets, m0, q0, tx, k);
    } else if k in m0.entries {
      StepEntryExisting(wallets, m0, q0, tx);
    } else {
      StepEntryNew(wallets, m0, q0, tx);
    }
  }

  lemma StepEntryOther(wallets: seq<string>, m0: EdgeMap, q0: seq<Tx>, tx: Tx, k: string)
    requires WellFormed(m0) && DescribesGroups(m0, q0) && Qualifies(wallets, tx)
    requires k in Step(wallets, m0, tx).entries && k != EdgeKey(tx)
    ensures var q := q0 + [tx];
      Group(q, k) != [] && Step(wallets, m0, tx).entries[k] == GroupEdge(Group(q, k))
  {
    StepKeepsOtherKeys(wallets, m0, tx, k);
    GroupSnoc(q0, tx, k);
  }

  lemma StepEntryExisting(wallets: seq<string>, m0: EdgeMap, q0: seq<Tx>, tx: Tx)
    requires WellFormed(m0) && DescribesGroups(m0, q0) && Qualifies(wallets, tx)
    requires EdgeKey(tx) in m0.entries
    ensures var q := q0 + [tx];
      Group(q, EdgeKey(tx)) != [] && Step(wallets, m0, tx).entries[EdgeKey(tx)] == GroupEdge(Group(q, EdgeKey(tx)))
  {
    var key := EdgeKey(tx);
    GroupSnoc(q0, tx, key);
    GroupEdgeStep(Group(q0, key), tx);
  }

  lemma StepEntryNew(wallets: seq<string>, m0: EdgeMap, q0: seq<Tx>, tx: Tx)
    requires WellFormed(m0) && DescribesGroups(m0, q0) && Qualifies(wallets, tx)
    requires EdgeKey(tx) !in m0.entries
    ensures var q := q0 + [tx];
      Group(q, EdgeKey(tx)) != [] && Step(wallets, m0, tx).entries[EdgeKey(tx)] == GroupEdge(Group(q, EdgeKey(tx)))
  {
    var key := EdgeKey(tx);
    assert key !in DistinctKeys(KeysOf(q0));
    GroupEmptyIff(q0, key);
    GroupSnoc(q0, tx, key);
    assert Group(q0, key) + [tx] == [tx];
    GroupEdgeSingle(tx);
  }

  /** A qualifying step keeps the description, with the transaction added. */
  lemma StepKeepsGroups(wallets: seq<string>, m0: EdgeMap, q0: seq<Tx>, tx: Tx)
    requires WellFormed(m0) && DescribesGroups(m0, q0) && Qualifies(wallets, tx)
    ensures DescribesGroups(Step(wallets, m0, tx), q0 + [tx])
  {
    var key := EdgeKey(tx);
    var q := q0 + [tx];
    assert q[..|q| - 1] == q0;
    assert KeysOf(q) == KeysOf(q0) + [key];
    forall k | k in Step(wallets, m0, tx).entries
      ensures Group(q, k) != [] && Step(wallets, m0, tx).entries[k] == GroupEdge(Group(q, k))
    {
      StepEntry(wallets, m0, q0, tx, k);
    }
  }

  /** The edge map the loop builds is the grouping of the interactions:
      keys in order of first occurrence, and the entry of each key is the
      edge of its group. */
  lemma {:induction false} AggregateIsGrouping(wallets: seq<string>, txs: seq<Tx>)
    ensures Aggregate(wallets, txs).order == DistinctKeys(KeysOf(Qualifying(wallets, txs)))
    ensures forall k | k in Aggregate(wallets, txs).entries ::
      && Group(Qualifying(wallets, txs), k) != []
      && Aggregate(wallets, txs).entries[k] == GroupEdge(Group(Qualifying(wallets, txs), k))
  {
    if txs != [] {
      var p := txs[..|txs| - 1];
      var tx := txs[|txs| - 1];
      AggregateIsGrouping(wallets, p);
      if Qualifies(wallets, tx) {
        StepKeepsGroups(wallets, Aggregate(wallets, p), Qualifying(wallets, p), tx);
      }
    }
  }
}
