/** The `nodes` memo of the transaction graph: one node per wallet entry
    that is not blank, laid out on one horizontal row. */
module GraphNodes {
  import opened Wrappers
  import opened Text
  import opened Decimal

  datatype Position = Position(x: real, y: real)

  /** A graph node: `id` is the lower-cased address, `caption` the display label
      name ("Wallet k"), `address` the wallet entry as typed. */
  datatype Node = Node(id: string, caption: string, address: string, position: Position)

  const Spacing: real := 250.0
  const RowY: real := 100.0

  predicate IsBlank(wallet: string) {
    Trim(wallet) == []
  }

  /** `wallets.filter(wallet => wallet.trim() !== '')`. */
  function NonBlank(wallets: seq<string>): (kept: seq<string>)
    ensures |kept| <= |wallets|
    ensures forall w | w in kept :: w in wallets && !IsBlank(w)
    ensures forall w | w in wallets && !IsBlank(w) :: w in kept
  {
    if wallets == [] then []
    else
      var rest := NonBlank(wallets[..|wallets| - 1]);
      var last := wallets[|wallets| - 1];
      assert wallets == wallets[..|wallets| - 1] + [last];
      if IsBlank(last) then rest else rest + [last]
  }

  /** Filtering keeps the relative order: it distributes over concatenation. */
  lemma {:induction false} NonBlankAppend(a: seq<string>, b: seq<string>)
    ensures NonBlank(a + b) == NonBlank(a) + NonBlank(b)
  {
    if b != [] {
      var b' := b[..|b| - 1];
      assert (a + b)[..|a + b| - 1] == a + b';
      NonBlankAppend(a, b');
    } else {
      assert a + b == a;
    }
  }

  /** With no blank entry nothing is dropped. */
  lemma {:induction false} NonBlankOfFull(wallets: seq<string>)
    requires forall i | 0 <= i < |wallets| :: !IsBlank(wallets[i])
    ensures NonBlank(wallets) == wallets
  {
    if wallets != [] {
      var p := wallets[..|wallets| - 1];
      var last := wallets[|wallets| - 1];
      NonBlankOfFull(p);
      SplitLast(wallets);
      NonBlankAppend(p, [last]);
      assert NonBlank([last]) == [last] by {
        assert !IsBlank(last);
        assert [last][..0] == [];
      }
    }
  }

  /** x of the node at `index`, where `count` is the length of the whole
      wallet list, blank entries included. */
  function NodeX(index: nat, count: nat): real {
    Spacing * (index as real - (count as real - 1.0) / 2.0)
  }

  /** The label of the node at `index`: "Wallet 1", "Wallet 2", ... */
  function WalletLabel(index: nat): string {
    "Wallet " + ToDecimal(index + 1)
  }

  /** `wallets.filter(...).map((wallet, index) => ...)`. */
  function Nodes(wallets: seq<string>): (nodes: seq<Node>)
    ensures |nodes| == |NonBlank(wallets)|
    ensures forall k | 0 <= k < |nodes| ::
      && nodes[k].address == NonBlank(wallets)[k]
      && nodes[k].id == Lower(nodes[k].address)
      && nodes[k].caption == WalletLabel(k)
      && nodes[k].position.x == NodeX(k, |wallets|)
      && nodes[k].position.y == RowY
  {
    var kept := NonBlank(wallets);
    seq(|kept|, k requires 0 <= k < |kept| =>
      Node(Lower(kept[k]), WalletLabel(k), kept[k], Position(NodeX(k, |wallets|), RowY)))
  }

  /** Labels number the kept wallets from 1 and no two nodes share one. */
  lemma NodeLabelsDistinct(wallets: seq<string>)
    ensures forall k | 0 <= k < |Nodes(wallets)| :: Nodes(wallets)[k].caption == WalletLabel(k)
    ensures forall j, k | 0 <= j < k < |Nodes(wallets)| ::
      Nodes(wallets)[j].caption != Nodes(wallets)[k].caption
  {
    var nodes := Nodes(wallets);
    forall j, k | 0 <= j < k < |nodes|
      ensures nodes[j].caption != nodes[k].caption
    {
      assert nodes[j].caption[7..] == ToDecimal(j + 1);
      assert nodes[k].caption[7..] == ToDecimal(k + 1);
    }
  }

  /** Neighbouring nodes are 250 apart, left to right. */
  lemma NodeSpacing(wallets: seq<string>)
    ensures forall k | 0 <= k < |Nodes(wallets)| - 1 ::
      Nodes(wallets)[k + 1].position.x - Nodes(wallets)[k].position.x == Spacing
  {
  }

  function SumX(nodes: seq<Node>): real {
    if nodes == [] then 0.0 else SumX(nodes[..|nodes| - 1]) + nodes[|nodes| - 1].position.x
  }

  /** The sum of the first m of n centred positions is 125 m (m - n). */
  lemma {:induction false} SumOfPositions(nodes: seq<Node>, n: nat)
    requires forall k | 0 <= k < |nodes| :: nodes[k].position.x == NodeX(k, n)
    ensures SumX(nodes) == 125.0 * ((|nodes| - n) * |nodes|) as real
  {
    if nodes != [] {
      var m := |nodes| - 1;
      SumOfPositions(nodes[..m], n);
      var mr := m as real;
      var nr := n as real;
      assert ((m + 1 - n) * (m + 1)) as real == ((m - n) * m) as real + 2.0 * mr - nr + 1.0 by {
        assert (m + 1 - n) * (m + 1) == (m - n) * m + 2 * m - n + 1;
      }
    }
  }

  /** With no blank entry every wallet has its node at x = NodeX(k, n). */
  lemma FullRowPositions(wallets: seq<string>)
    requires forall i | 0 <= i < |wallets| :: !IsBlank(wallets[i])
    ensures |Nodes(wallets)| == |wallets|
    ensures forall k | 0 <= k < |wallets| :: Nodes(wallets)[k].position.x == NodeX(k, |wallets|)
  {
    NonBlankOfFull(wallets);
  }

  /** With no blank entry the row is centred on x = 0: positions mirror each
      other about the middle. */
  lemma NodesMirrored(wallets: seq<string>)
    requires forall i | 0 <= i < |wallets| :: !IsBlank(wallets[i])
    ensures |Nodes(wallets)| == |wallets|
    ensures forall k | 0 <= k < |wallets| ::
      Nodes(wallets)[k].position.x + Nodes(wallets)[|wallets| - 1 - k].position.x == 0.0
  {
    FullRowPositions(wallets);
  }

  /** With no blank entry the positions add up to zero. */
  lemma NodesSumToZero(wallets: seq<string>)
    requires forall i | 0 <= i < |wallets| :: !IsBlank(wallets[i])
    ensures SumX(Nodes(wallets)) == 0.0
  {
    var nodes := Nodes(wallets);
    var n := |wallets|;
    assert |nodes| == n && forall k | 0 <= k < |nodes| :: nodes[k].position.x == NodeX(k, n) by {
      FullRowPositions(wallets);
    }
    assert SumX(nodes) == 125.0 * ((|nodes| - n) * |nodes|) as real by {
      SumOfPositions(nodes, n);
    }
    assert (|nodes| - n) * |nodes| == 0;
  }

  /** A blank entry still counts in the centring, so the kept nodes are off
      centre: ["0xab", " "] puts its only node at x = -125. */
  lemma BlankEntryShiftsRow(wallets: seq<string>)
    requires wallets == ["0xab", " "]
    ensures |Nodes(wallets)| == 1 && Nodes(wallets)[0].position.x == -125.0
  {
    KeptOfExample(wallets);
    assert Nodes(wallets)[0].position.x == NodeX(0, 2);
  }

  lemma KeptOfExample(wallets: seq<string>)
    requires wallets == ["0xab", " "]
    ensures NonBlank(wallets) == ["0xab"]
  {
    NonBlankAppend(["0xab"], [" "]);
    assert wallets == ["0xab"] + [" "];
    assert NonBlank(["0xab"]) == ["0xab"] by {
      assert ["0xab"][..0] == [];
      HexIsNotBlank();
    }
    assert NonBlank([" "]) == [] by {
      assert [" "][..0] == [];
      assert TrimStart(" ") == [];
    }
  }

  lemma HexIsNotBlank()
    ensures !IsBlank("0xab")
  {
    assert TrimStart("0xab") == "0xab";
    assert TrimEnd("0xab") == "0xab";
  }
}
