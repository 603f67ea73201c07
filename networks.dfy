/** The per-network lookup tables of the graph view: edge colours
    (`getNetworkColor`) and block-explorer base URLs (`getExplorerUrl`).
    Each table is a list of (network id, value) entries, as in the
    object literals of the source. */
module Networks {
  import opened Wrappers

  const NetworkColors: seq<(string, string)> := [
    ("ethereum", "#646cff"),
    ("bsc", "#F0B90B"),
    ("polygon", "#8247E5"),
    ("base", "#0052FF"),
    ("arbitrum", "#28A0F0"),
    ("moonbeam", "#53CBC9"),
    ("optimism", "#FF0420"),
    ("opbnb", "#F0B90B"),
    ("polygonzkevm", "#7B3FE4"),
    ("gnosis", "#04795B")
  ]

  const DefaultColor: string := "#646cff"

  const ExplorerUrls: seq<(string, string)> := [
    ("ethereum", "https://etherscan.io"),
    ("bsc", "https://bscscan.com"),
    ("polygon", "https://polygonscan.com"),
    ("base", "https://basescan.org"),
    ("arbitrum", "https://arbiscan.io"),
    ("moonbeam", "https://moonbeam.moonscan.io"),
    ("optimism", "https://optimistic.etherscan.io"),
    ("opbnb", "https://opbnb.bscscan.com"),
    ("polygonzkevm", "https://zkevm.polygonscan.com"),
    ("gnosis", "https://gnosisscan.io")
  ]

  const DefaultExplorer: string := "https://etherscan.io"

  /** `table[key]`: the value of the entry for `key`, `undefined` when the
      table has none. */
  function Lookup(table: seq<(string, string)>, key: string): (found: Option<string>)
    ensures found.Some? ==> exists i | 0 <= i < |table| :: table[i] == (key, found.value)
    ensures found.None? <==> forall i | 0 <= i < |table| :: table[i].0 != key
  {
    if table == [] then None
    else if table[0].0 == key then Some(table[0].1)
    else
      var rest := Lookup(table[1..], key);
      assert forall i | 1 <= i < |table| :: table[i] == table[1..][i - 1];
      rest
  }

  /** JavaScript's `found || fallback` on a string result: the empty string
      and `undefined` are both falsy. */
  function OrElse(found: Option<string>, fallback: string): string {
    if found.Some? && found.value != "" then found.value else fallback
  }

  /** `getNetworkColor`: the table entry of the network, or the default. */
  function NetworkColor(network: string): string {
    OrElse(Lookup(NetworkColors, network), DefaultColor)
  }

  /** `getNetworkColor` never fails and always yields a "#rrggbb" colour of
      the table; an unlisted network gets the default, which is Ethereum's
      colour. */
  lemma NetworkColorSpec(network: string)
    ensures var color := NetworkColor(network);
      && ((forall i | 0 <= i < |NetworkColors| :: NetworkColors[i].0 != network) ==> color == DefaultColor)
      && (exists i | 0 <= i < |NetworkColors| :: NetworkColors[i].1 == color)
      && |color| == 7 && color[0] == '#'
  {
    assert NetworkColors[0].1 == DefaultColor;
  }

  /** A listed network gets exactly its own colour: the `|| '#646cff'`
      fallback never replaces a table entry, because none is empty. */
  lemma ListedNetworkColor(i: nat)
    requires i < |NetworkColors|
    ensures NetworkColor(NetworkColors[i].0) == NetworkColors[i].1
  {
    ColorKeysDistinct();
    LookupListed(NetworkColors, i);
  }

  lemma ColorKeysDistinct()
    ensures forall i, j | 0 <= i < j < |NetworkColors| :: NetworkColors[i].0 != NetworkColors[j].0
    ensures forall i | 0 <= i < |NetworkColors| :: NetworkColors[i].1 != ""
  {
  }

  /** In a table whose keys are distinct, each key finds its own entry. */
  lemma {:induction false} LookupListed(table: seq<(string, string)>, i: nat)
    requires i < |table|
    requires forall j, k | 0 <= j < k < |table| :: table[j].0 != table[k].0
    ensures Lookup(table, table[i].0) == Some(table[i].1)
  {
    if i > 0 {
      assert table[0].0 != table[i].0;
      LookupListed(table[1..], i - 1);
    }
  }

  /** `getExplorerUrl`: the table entry of the network, or Etherscan. */
  function ExplorerUrl(network: string): string {
    OrElse(Lookup(ExplorerUrls, network), DefaultExplorer)
  }

  /** `getExplorerUrl` never fails and always yields an https explorer of the
      table; an unlisted network gets Etherscan. */
  lemma ExplorerUrlSpec(network: string)
    ensures var url := ExplorerUrl(network);
      && ((forall i | 0 <= i < |ExplorerUrls| :: ExplorerUrls[i].0 != network) ==> url == DefaultExplorer)
      && (exists i | 0 <= i < |ExplorerUrls| :: ExplorerUrls[i].1 == url)
      && IsHttps(url)
  {
    assert ExplorerUrls[0].1 == DefaultExplorer;
    ExplorersAreHttps();
  }

  predicate IsHttps(url: string) {
    "https://" < url
  }

  lemma ExplorersAreHttps()
    ensures forall i | 0 <= i < |ExplorerUrls| :: IsHttps(ExplorerUrls[i].1)
  {
    assert IsHttps(ExplorerUrls[0].1) by { HttpsLiteral("etherscan.io"); }
    assert IsHttps(ExplorerUrls[1].1) by { HttpsLiteral("bscscan.com"); }
    assert IsHttps(ExplorerUrls[2].1) by { HttpsLiteral("polygonscan.com"); }
    assert IsHttps(ExplorerUrls[3].1) by { HttpsLiteral("basescan.org"); }
    assert IsHttps(ExplorerUrls[4].1) by { HttpsLiteral("arbiscan.io"); }
    assert IsHttps(ExplorerUrls[5].1) by { HttpsLiteral("moonbeam.moonscan.io"); }
    assert IsHttps(ExplorerUrls[6].1) by { HttpsLiteral("optimistic.etherscan.io"); }
    assert IsHttps(ExplorerUrls[7].1) by { HttpsLiteral("opbnb.bscscan.com"); }
    assert IsHttps(ExplorerUrls[8].1) by { HttpsLiteral("zkevm.polygonscan.com"); }
    assert IsHttps(ExplorerUrls[9].1) by { HttpsLiteral("gnosisscan.io"); }
  }

  lemma HttpsLiteral(host: string)
    requires host != ""
    ensures IsHttps("https://" + host)
  {
    assert ("https://" + host)[..8] == "https://";
  }

  lemma ListedNetworkExplorer(i: nat)
    requires i < |ExplorerUrls|
    ensures ExplorerUrl(ExplorerUrls[i].0) == ExplorerUrls[i].1
  {
    ExplorerKeysDistinct();
    LookupListed(ExplorerUrls, i);
  }

  lemma ExplorerKeysDistinct()
    ensures forall i, j | 0 <= i < j < |ExplorerUrls| :: ExplorerUrls[i].0 != ExplorerUrls[j].0
    ensures forall i | 0 <= i < |ExplorerUrls| :: ExplorerUrls[i].1 != ""
  {
  }

  /** Both tables list the same networks in the same order. */
  lemma TablesCoverSameNetworks()
    ensures |NetworkColors| == |ExplorerUrls| == 10
    ensures forall i | 0 <= i < 10 :: NetworkColors[i].0 == ExplorerUrls[i].0
  {
  }
}
