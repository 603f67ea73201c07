# Transaction graph of the wallet analyzer

This project models the graph construction of the wallet analyzer's
transaction graph (`src/app/wallet-analyzer/TransactionGraph.tsx`). The
component takes the tracked wallet addresses and the fetched transactions.
It builds:

- **nodes**: one per wallet entry that is not blank. Each node has the
  lower-cased address as its id and "Wallet k" (counting from 1) as its
  label. The nodes sit 250 apart on a horizontal row at y = 100: node k
  (the k-th kept wallet) sits at x = 250·(k − (n−1)/2), with n the length
  of the whole list, blank entries included. The kept nodes therefore fill
  the leftmost of n centred slots, and the row is centred on x = 0 only
  when no entry is blank;
- **edges**: one per edge key, the text `lower(from) + "-" + lower(to)` of
  a transaction between two tracked wallets. For senders without '-' (as
  hexadecimal addresses are) this is one edge per ordered (sender,
  receiver) pair. An edge collects every such transaction, in input order.
  When the value of its first transaction is an integer, the edge's total
  is the exact sum of the values that are integers, and the other values
  are skipped. When the first value is not an integer, the total stays
  that raw text. The colour comes from the network of the first
  transaction, and the label is the formatted final total.

It also models the three helpers: `getNetworkColor`, `getExplorerUrl` and
`formatEtherValue`.

Layout:

| file | module | what it holds |
|---|---|---|
| `wrappers.dfy` | `Wrappers` | `Option` (JavaScript `undefined` and thrown parse errors) |
| `text.dfy` | `Text` | `toLowerCase` (ASCII) and `trim` |
| `decimal.dfy` | `Decimal` | `BigInt(string)` on decimal text and `BigInt.prototype.toString()` |
| `networks.dfy` | `Networks` | the colour and explorer tables and their lookups |
| `ether_format.dfy` | `EtherFormat` | `formatEther` (wei to ether text) and `formatEtherValue` |
| `graph_nodes.dfy` | `GraphNodes` | the `nodes` memo |
| `graph_edges.dfy` | `GraphEdges` | the `edges` memo, two ways. `BuildEdges` is the imperative loop over the transactions with the edge `Map` as its state. `Aggregate`/`Step` are the same fold as a function, and `BuildEdges` is proved equal to it |
| `edge_properties.dfy` | `EdgeProperties` | an independent description of the edges as a group-by: the qualifying transactions grouped by key, in order of first occurrence. It also proves that the fold computes exactly that grouping |
| `edge_results.dfy` | `EdgeResults` | the promised properties, derived from the grouping |

How the model represents the source:

- **The edge `Map`.** It is an `EdgeMap`: the keys in insertion order plus a Dafny `map` from key to edge. Iterating `edgeMap.values()` means reading the entries in key order.
- **Changing an existing edge.** The source pushes onto an edge's transaction list and reassigns its total in place. The model replaces the map entry with the updated edge instead. Nothing else refers to that edge object during the loop, so the result is the same.
- **`BigInt(...)` that throws.** A thrown parse is `None`. The `try`/`catch` of the loop and of `formatEtherValue` becomes a match on the parse result.
- **Truthiness.** JavaScript truthiness of a `find` result is modelled exactly, so a found wallet `""` is falsy.
- **Undefined receiver.** A transaction whose `to` is undefined never qualifies.

Two behaviours of the code worth noting:

- **Label of 1.5 ether.** The label is not a four-decimal "1.5000 ETH": the code keeps the first six characters of `formatEther`'s text, which drops trailing zeros, so the label is "1.5 ETH". `EtherFormat.OneAndAHalfEtherLabel` and `EdgeResults.OneAndAHalfEtherEdge` prove this.
- **Node positions.** The x position of a node uses the length of the unfiltered wallet list. A blank entry therefore shifts the row off centre (`GraphNodes.BlankEntryShiftsRow`).
- **A malformed first value sticks.** When the value of an edge's first transaction is not an integer (for example "1.5" or "abc"), the edge's total stays that raw text for good: each later `BigInt` of the total throws, so no later value is ever added, and the label is "0.0000 ETH". A malformed later value, by contrast, is only skipped. `EdgeResults.TotalMeaning` and `EdgeProperties.TotalStep` state this, and `EtherFormat.EtherLabelShape` gives the label.

## Model

| member | source | states |
|---|---|---|
| Networks.NetworkColorSpec | src/app/wallet-analyzer/TransactionGraph.tsx:31-46 | `getNetworkColor` returns "#646cff" for an unlisted network; its result is always a colour of the table, in "#rrggbb" form |
| Networks.ListedNetworkColor | src/app/wallet-analyzer/TransactionGraph.tsx:32-45 | each listed network gets exactly its own table colour; the fallback to the default never replaces an entry |
| Networks.ExplorerUrlSpec | src/app/wallet-analyzer/TransactionGraph.tsx:49-64 | `getExplorerUrl` returns Etherscan for an unlisted network; its result is always an explorer of the table and starts with "https://" |
| Networks.ListedNetworkExplorer | src/app/wallet-analyzer/TransactionGraph.tsx:50-63 | each listed network gets exactly its own explorer URL |
| Networks.ExplorersAreHttps | src/app/wallet-analyzer/TransactionGraph.tsx:50-61 | every explorer base URL in the table is an https URL |
| Networks.TablesCoverSameNetworks | src/app/wallet-analyzer/TransactionGraph.tsx:32-43 | the colour table and the explorer table list the same ten networks, in the same order |
| Networks.Lookup | src/app/wallet-analyzer/TransactionGraph.tsx:45 | reading an own entry of the table object: nothing is found exactly when no entry has the key, and a found value belongs to an entry with that key |
| Networks.NetworkColor | src/app/wallet-analyzer/TransactionGraph.tsx:31-46 | `getNetworkColor`; specified by `Networks.NetworkColorSpec` and `Networks.ListedNetworkColor` |
| Networks.ExplorerUrl | src/app/wallet-analyzer/TransactionGraph.tsx:49-64 | `getExplorerUrl`; specified by `Networks.ExplorerUrlSpec`, `Networks.ListedNetworkExplorer` and `Networks.ExplorersAreHttps` |
| Decimal.Parse | src/app/wallet-analyzer/TransactionGraph.tsx:116-117 | `BigInt(text)` on decimal text, `None` where it throws; `Decimal.ToDecimal` and `Decimal.CanonicalRoundTrip` state its round trips with `toString()` |
| Decimal.ToDecimal | src/app/wallet-analyzer/TransactionGraph.tsx:119 | `toString()` of a BigInt is non-empty text that `BigInt` parses back to the same integer |
| Decimal.CanonicalRoundTrip | src/app/wallet-analyzer/TransactionGraph.tsx:116-119 | canonical decimal text (no '+', no leading zero, no "-0") survives `BigInt(s).toString()` unchanged |
| Decimal.ToDecimalCanonical | src/app/wallet-analyzer/TransactionGraph.tsx:119 | the text `toString()` writes for a total is canonical: no '+', no leading zero, no "-0" |
| Decimal.ToDecimalInjective | src/app/wallet-analyzer/TransactionGraph.tsx:119 | different totals are written as different text |
| EtherFormat.Fraction | src/app/wallet-analyzer/TransactionGraph.tsx:69 | the fraction digits of `formatEther`: 1 to 18 digits, no trailing zero unless the fraction is "0", and they denote exactly the remainder below one ether |
| EtherFormat.FormatEther | src/app/wallet-analyzer/TransactionGraph.tsx:69 | `ethers.formatEther`; specified by `EtherFormat.Fraction` and the round trip `EtherFormat.FormatEtherExact` |
| EtherFormat.FormatEtherValue | src/app/wallet-analyzer/TransactionGraph.tsx:67-73 | `formatEtherValue`; specified by `EtherFormat.EtherLabelShape`, `EtherFormat.LabelShowsWholeEther` and `EtherFormat.LabelOfLargeAmount` |
| EtherFormat.FormatEtherExact | src/app/wallet-analyzer/TransactionGraph.tsx:69 | `formatEther` loses nothing: reading its "[-]whole.fraction" text back as ether gives the same wei |
| EtherFormat.EtherLabelShape | src/app/wallet-analyzer/TransactionGraph.tsx:67-73 | `formatEtherValue` never fails. Its result ends in " ETH" and is at most 10 characters. It is "0.0000 ETH" when the value is not an integer; otherwise the shown part is a prefix of `formatEther`'s text, cut only at 6 characters |
| EtherFormat.LabelShowsWholeEther | src/app/wallet-analyzer/TransactionGraph.tsx:69 | below 100000 ether the label starts with the exact whole number of ethers and the point |
| EtherFormat.LabelOfLargeAmount | src/app/wallet-analyzer/TransactionGraph.tsx:69 | from 100000 ether up, the label is the first six digits of the whole ethers, with no point, so the magnitude is not visible |
| EtherFormat.FormatOneAndAHalfEther | src/app/wallet-analyzer/TransactionGraph.tsx:69 | `formatEther` of 1.5·10^18 wei is "1.5" |
| EtherFormat.OneAndAHalfEtherLabel | src/app/wallet-analyzer/TransactionGraph.tsx:67-73 | the label of 1.5·10^18 wei is "1.5 ETH" |
| Text.Lower | src/app/wallet-analyzer/TransactionGraph.tsx:80 | `toLowerCase` on ASCII letters; `Text.LowerLength` and `Text.LowerKeepsDash` state that it keeps the length and every '-', which `EdgeResults.KeyInjective` relies on |
| Text.Trim | src/app/wallet-analyzer/TransactionGraph.tsx:78 | `trim`; specified by `Text.TrimEmptyIffBlank` |
| Text.TrimEmptyIffBlank | src/app/wallet-analyzer/TransactionGraph.tsx:78 | `wallet.trim() !== ''` holds exactly when the entry has a character that is not JavaScript white space |
| GraphNodes.NonBlank | src/app/wallet-analyzer/TransactionGraph.tsx:78 | the kept wallets are exactly the entries that are not blank, and no more entries than the input |
| GraphNodes.NonBlankAppend | src/app/wallet-analyzer/TransactionGraph.tsx:78 | filtering distributes over concatenation, so it keeps the input order |
| GraphNodes.NonBlankOfFull | src/app/wallet-analyzer/TransactionGraph.tsx:78 | with no blank entry the filter keeps the whole list |
| GraphNodes.Nodes | src/app/wallet-analyzer/TransactionGraph.tsx:77-88 | one node per kept wallet, in order. Node k has the k-th kept wallet as its address, the lower-cased address as its id and "Wallet k+1" as its label, and it sits at x = 250·(k − (n−1)/2), y = 100, where n is the length of the unfiltered wallet list |
| GraphNodes.NodeLabelsDistinct | src/app/wallet-analyzer/TransactionGraph.tsx:82 | node k is labelled "Wallet k+1" and no two nodes share a label |
| GraphNodes.NodeSpacing | src/app/wallet-analyzer/TransactionGraph.tsx:86 | neighbouring nodes are 250 apart, left to right |
| GraphNodes.FullRowPositions | src/app/wallet-analyzer/TransactionGraph.tsx:85-88 | with no blank entry there is one node per wallet, and node k sits at x = 250·(k − (n−1)/2) |
| GraphNodes.NodesMirrored | src/app/wallet-analyzer/TransactionGraph.tsx:86 | with no blank entry the positions mirror each other about x = 0 |
| GraphNodes.NodesSumToZero | src/app/wallet-analyzer/TransactionGraph.tsx:86 | with no blank entry the x positions sum to zero |
| GraphNodes.BlankEntryShiftsRow | src/app/wallet-analyzer/TransactionGraph.tsx:78-86 | a blank entry still counts in the centring: ["0xab", " "] gives one node, at x = −125 |
| GraphEdges.FindWallet | src/app/wallet-analyzer/TransactionGraph.tsx:104-105 | `find` gives undefined exactly when no wallet matches ignoring case; otherwise it gives the first wallet that does |
| GraphEdges.Qualifies | src/app/wallet-analyzer/TransactionGraph.tsx:104-107 | `fromWallet && toWallet`; specified by `EdgeResults.QualifiesIff` |
| GraphEdges.EdgeKey | src/app/wallet-analyzer/TransactionGraph.tsx:108 | the edge id; specified by `EdgeResults.KeyInjective`, `EdgeResults.OppositeDirectionsDistinct` and `EdgeResults.KeyCollision` |
| GraphEdges.NewEdge | src/app/wallet-analyzer/TransactionGraph.tsx:124-142 | the edge `edgeMap.set` stores for a new key; specified by `EdgeProperties.GroupEdgeSingle` |
| GraphEdges.AddToEdge | src/app/wallet-analyzer/TransactionGraph.tsx:111-123 | the push onto an existing edge and its new total; specified by `EdgeProperties.TotalStep` and `EdgeProperties.GroupEdgeStep` |
| GraphEdges.Step | src/app/wallet-analyzer/TransactionGraph.tsx:103-144 | one iteration of `forEach`; specified by `GraphEdges.StepKeepsShape` and `EdgeProperties.StepKeepsGroups` |
| GraphEdges.StepKeepsShape | src/app/wallet-analyzer/TransactionGraph.tsx:103-143 | one iteration keeps the Map well formed: each key is listed once, and each entry is an edge under its own id with at least one transaction |
| GraphEdges.Aggregate | src/app/wallet-analyzer/TransactionGraph.tsx:102-145 | the edge Map after any prefix of the transactions is well formed, and every entry is keyed by its own id |
| GraphEdges.BuildEdges | src/app/wallet-analyzer/TransactionGraph.tsx:101-151 | the loop computes the fold of `Step` over the transactions, followed by the relabelling. Every output label is `formatEtherValue` of its final total, and no two edges share an id |
| GraphEdges.Relabel | src/app/wallet-analyzer/TransactionGraph.tsx:148-149 | the label recomputed from the final total; stated by `GraphEdges.BuildEdges` and `EdgeResults.EdgeTotals` |
| GraphEdges.Output | src/app/wallet-analyzer/TransactionGraph.tsx:147-150 | the edges in insertion order; specified by `EdgeResults.EdgesAreGroups` and `GraphEdges.BuildEdges` |
| EdgeProperties.TotalStep | src/app/wallet-analyzer/TransactionGraph.tsx:111-123 | one more transaction moves the closed-form total of a group exactly as the loop body moves the running total. The total becomes the sum when both parse and stays unchanged otherwise |
| EdgeProperties.GroupEdgeStep | src/app/wallet-analyzer/TransactionGraph.tsx:111-123 | updating the edge of a group with one more transaction gives the edge of the larger group |
| EdgeProperties.GroupEdgeSingle | src/app/wallet-analyzer/TransactionGraph.tsx:124-142 | the edge created for a first transaction is the edge of its one-element group |
| EdgeProperties.StepKeepsGroups | src/app/wallet-analyzer/TransactionGraph.tsx:103-145 | a qualifying iteration keeps the grouping description, with the transaction added |
| EdgeProperties.DistinctKeysInOrder | src/app/wallet-analyzer/TransactionGraph.tsx:124-147 | the distinct keys come in the order of their first occurrence among the interactions, which is the insertion order `Map.prototype.values` iterates in |
| EdgeProperties.AggregateIsGrouping | src/app/wallet-analyzer/TransactionGraph.tsx:101-145 | the loop's Map lists the distinct keys of the qualifying transactions in order of first occurrence, and the entry of each key is the edge of its group |
| EdgeResults.TruthyFindIff | src/app/wallet-analyzer/TransactionGraph.tsx:104-107 | a `find` result is truthy exactly when the address is non-empty and matches a tracked wallet ignoring case |
| EdgeResults.QualifiesIff | src/app/wallet-analyzer/TransactionGraph.tsx:104-107 | a transaction joins an edge exactly when its sender and its receiver are non-empty, present and tracked |
| EdgeResults.OnlyInteractionsCount | src/app/wallet-analyzer/TransactionGraph.tsx:103-107 | transactions that do not qualify leave the edge Map unchanged: the Map equals the one built from the qualifying transactions alone |
| EdgeResults.OrderIsStable | src/app/wallet-analyzer/TransactionGraph.tsx:125 | later transactions never reorder or drop edges: the keys after any prefix are a prefix of the final keys |
| EdgeResults.EdgesAreGroups | src/app/wallet-analyzer/TransactionGraph.tsx:101-151 | the output edges are, in order, the relabelled edges of the groups of the distinct keys, one per key in order of first occurrence |
| EdgeResults.EdgeEndpoints | src/app/wallet-analyzer/TransactionGraph.tsx:108-128 | each edge holds at least one transaction, and its source and target are the lower-cased endpoints of its first transaction. Its id is "source-target", and every transaction it holds is an input transaction that qualifies and has that key |
| EdgeResults.EdgeStyle | src/app/wallet-analyzer/TransactionGraph.tsx:131-139 | an edge's network is that of its first transaction, and its colour is that network's colour |
| EdgeResults.TotalMeaning | src/app/wallet-analyzer/TransactionGraph.tsx:112-123 | when the first value parses, the closed-form total is the exact sum of every value that parses; otherwise it is the raw first value |
| EdgeResults.EdgeTotals | src/app/wallet-analyzer/TransactionGraph.tsx:112-150 | each output edge's total is the exact sum of its parsable values, or its raw first value when that does not parse. Its label is `formatEtherValue` of that total |
| EdgeResults.TransactionsCountedOnce | src/app/wallet-analyzer/TransactionGraph.tsx:103-143 | the transactions of all edges together are exactly the qualifying transactions, each counted once (as multisets) |
| EdgeResults.InteractionInItsEdge | src/app/wallet-analyzer/TransactionGraph.tsx:108-125 | every qualifying transaction is held by the edge whose id is its own key |
| EdgeResults.KeyInjective | src/app/wallet-analyzer/TransactionGraph.tsx:108 | for senders without '-', two transactions share a key exactly when they have the same sender and the same receiver, ignoring case |
| EdgeResults.OppositeDirectionsDistinct | src/app/wallet-analyzer/TransactionGraph.tsx:108 | A→B and B→A between two different wallets are different edges |
| EdgeResults.KeyCollision | src/app/wallet-analyzer/TransactionGraph.tsx:108 | the key is not injective in general: "a-b"→"c" and "a"→"b-c" share the key "a-b-c" |
| EdgeResults.SameKeyOneEdge | src/app/wallet-analyzer/TransactionGraph.tsx:109-123 | two qualifying transactions with the same key make one Map entry: the second is added to the edge the first created |
| EdgeResults.TwoTransfersOneEdge | src/app/wallet-analyzer/TransactionGraph.tsx:111-150 | two such transfers with integer values give one edge. It holds both transfers, its total is their exact sum, its colour is that of the first one's network, and its label is formatted from the sum |
| EdgeResults.OneAndAHalfEtherEdge | src/app/wallet-analyzer/TransactionGraph.tsx:101-151 | 1 ether plus 0.5 ether on the same ordered pair give one edge totalling 1.5·10^18 wei and labelled "1.5 ETH" |

## Left out

- Rendering is not modelled: ReactFlow, the `useMemo`/`useCallback` plumbing, the node and edge style objects, and the edge `type`, `animated` and `markerEnd.type` fields. They are presentation and a third-party library. The node model keeps only id, label, address and position; the edge model keeps the colour once, because stroke and arrow use the same value.
- `handleNodeClick` and `handleEdgeClick` are not modelled. They only call injected callbacks or `window.open`, which are browser side effects. The explorer lookup of `handleEdgeClick` is modelled (`Networks.ExplorerUrl`); `handleNodeClick` uses a fixed Etherscan address URL instead.
- Decimal.Parse: `BigInt(string)` is modelled as an optional sign followed by decimal digits. Its other forms are not: surrounding white space, `0x`/`0o`/`0b` prefixes, and "" or blank text reading as 0. Such values are treated as not parsing. The same parser stands for the one `formatEther` applies to string input.
- EtherFormat.FormatEther: the signed 512-bit range check of `ethers.formatEther` is not modelled. Amounts of 2^511 wei and more and amounts below −2^511 wei, which it rejects (so `formatEtherValue` would give "0.0000 ETH"), are formatted here like any other. Only the shape of its text is modelled: sign, whole part, point, trimmed fraction.
- Networks.Lookup: JavaScript's `table[key]` on an object literal also finds properties inherited from `Object.prototype` (`constructor`, `toString`, `valueOf`, `hasOwnProperty`, `__proto__`, …). Those are not modelled: network ids are taken to be none of these names, and only the table's own entries are looked up.
- Networks.NetworkColorSpec: for a network id that names an inherited `Object.prototype` property, `getNetworkColor` returns that property (a function or object, which is truthy) rather than "#646cff"; the model returns the default for it.
- Networks.ExplorerUrlSpec: for a network id that names an inherited `Object.prototype` property, `getExplorerUrl` returns that property rather than "https://etherscan.io"; the model returns the default for it.
- Text.Lower: `toLowerCase` is modelled on ASCII letters only. Other letters that have a lower-case form are left unchanged.
- GraphNodes.Nodes: positions are exact rationals (`real`) rather than IEEE doubles. The values involved (multiples of 125) are exact in both.
