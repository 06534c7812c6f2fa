/**
 Printing and searching parsed configs.
 */
module ConfigQueries {
  import opened ConfigGrammar
  import opened ConfigPrinter
  import opened ConfigParser

  lemma BlocksSnoc(kids: seq<Tree>, i: nat, tab: int)
    requires i < |kids|
    ensures PrintBlocks(kids[..i + 1], tab) == PrintBlocks(kids[..i], tab) + PrintBlock(kids[i], tab)
    ensures PrintForest(kids[..i + 1], tab) == PrintForest(kids[..i], tab) + PrintNode(kids[i], tab)
  {
    assert kids[..i + 1][..i] == kids[..i];
  }

  method IndentText(tab: int) returns (s: string)
    ensures s == Indent(tab)
  {
    s := "";
    if tab > 0 {
      for i := 0 to tab
        invariant s == Indent(i)
      {
        s := s + "  ";
      }
    }
  }

  method WordsText(tokens: seq<string>) returns (s: string)
    ensures s == JoinWords(tokens)
  {
    s := "";
    for i := 0 to |tokens|
      invariant s == JoinWords(tokens[..i])
    {
      if i != 0 {
        s := s + " ";
      }
      assert tokens[..i + 1][..i] == tokens[..i];
      s := s + tokens[i];
    }
    assert tokens[..|tokens|] == tokens;
  }

  /** `NginxConfig::ToStringSubBlock`. */
  method ToStringSubBlock(c: NginxConfig, tab: int, ghost nodes: set<NginxConfig>) returns (s: string)
    requires Closed(nodes) && Complete(c, nodes)
    ensures s == PrintNode(c.model, tab)
    decreases c.model
  {
    var indent := IndentText(tab);
    var words := WordsText(c.tokens);
    s := indent + words;
    if |c.children| == 0 {
      s := s + ";\n";
    } else {
      ghost var kids := c.model.kids;
      var blocks := "";
      for i := 0 to |c.children|
        invariant blocks == PrintBlocks(kids[..i], tab)
      {
        var child := ToStringSubBlock(c.children[i], tab + 1, nodes);
        BlocksSnoc(kids, i, tab);
        blocks := blocks + (" {\n" + child + indent + "}\n");
      }
      assert kids[..|kids|] == kids;
      s := s + blocks;
    }
  }

  /** `NginxConfig::ToString`. */
  method ToString(c: NginxConfig, tab: int, ghost nodes: set<NginxConfig>) returns (s: string)
    requires Closed(nodes) && Complete(c, nodes)
    ensures s == PrintForest(c.model.kids, tab)
  {
    s := "";
    ghost var kids := c.model.kids;
    for i := 0 to |c.children|
      invariant s == PrintForest(kids[..i], tab)
    {
      var child := ToStringSubBlock(c.children[i], tab, nodes);
      s := s + child;
      BlocksSnoc(kids, i, tab);
    }
    assert kids[..|kids|] == kids;
  }

  /** The statements whose first word is the key, in order. */
  function Named(kids: seq<Tree>, key: string): seq<Tree>
    requires forall i | 0 <= i < |kids| :: kids[i].words != []
  {
    if kids == [] then []
    else
      var k := kids[|kids| - 1];
      Named(kids[..|kids| - 1], key) + (if k.words[0] == key then [k] else [])
  }

  /** The first statement with the key stands at `i`. */
  ghost predicate FirstNamed(kids: seq<Tree>, key: string, i: nat)
    requires forall j | 0 <= j < |kids| :: kids[j].words != []
  {
    i < |kids| && kids[i].words[0] == key && forall j | 0 <= j < i :: kids[j].words[0] != key
  }

  /** `NginxConfig::find`: the words of the first statement with the key, or nothing. */
  method Find(c: NginxConfig, key: string, ghost nodes: set<NginxConfig>) returns (val: seq<string>)
    requires Closed(nodes) && Complete(c, nodes) && WordedTree(c.model)
    ensures var found := Named(c.model.kids, key);
            val == if found == [] then [] else found[0].words
    ensures var kids := c.model.kids;
            && ((forall i | 0 <= i < |kids| :: kids[i].words[0] != key) ==> val == [])
            && (forall i | 0 <= i < |kids| && FirstNamed(kids, key, i) :: val == kids[i].words)
  {
    ghost var kids := c.model.kids;
    for i := 0 to |c.children|
      invariant Named(kids[..i], key) == [] && forall j | 0 <= j < i :: kids[j].words[0] != key
    {
      ghost var k := kids[i];
      assert kids[..i + 1][..i] == kids[..i];
      if c.children[i].tokens[0] == key {
        NamedPrefix(kids, i + 1, key);
        return c.children[i].tokens;
      }
    }
    assert kids[..|kids|] == kids;
    return [];
  }

  lemma {:induction false} NamedPrefix(kids: seq<Tree>, n: nat, key: string)
    requires n <= |kids| && forall i | 0 <= i < |kids| :: kids[i].words != []
    ensures Named(kids[..n], key) <= Named(kids, key)
    decreases |kids|
  {
    if n == |kids| {
      assert kids[..n] == kids;
    } else {
      NamedPrefix(kids[..|kids| - 1], n, key);
      assert kids[..|kids| - 1][..n] == kids[..n];
    }
  }

  /** The nodes whose first word is the key, in order. */
  ghost function NamedNodes(l: seq<NginxConfig>, key: string): seq<NginxConfig>
    reads l
  {
    if l == [] then []
    else
      var c := l[|l| - 1];
      NamedNodes(l[..|l| - 1], key) + (if c.tokens != [] && c.tokens[0] == key then [c] else [])
  }

  /** The nodes are those of the list at these positions, in order, and no other has the key as its first word. */
  ghost predicate ListsNamed(l: seq<NginxConfig>, key: string, all: seq<NginxConfig>, at: seq<nat>)
    reads l
  {
    && |at| == |all| && (forall i, j | 0 <= i < j < |at| :: at[i] < at[j])
    && (forall i | 0 <= i < |at| :: at[i] < |l| && all[i] == l[at[i]])
    && forall k | 0 <= k < |l| :: k in at <==> l[k].tokens != [] && l[k].tokens[0] == key
  }

  lemma {:induction false} NamedListed(l: seq<NginxConfig>, key: string) returns (at: seq<nat>)
    ensures ListsNamed(l, key, NamedNodes(l, key), at)
    decreases |l|
  {
    at := [];
    if l != [] {
      var n := |l| - 1;
      var init := l[..n];
      var front := NamedListed(init, key);
      at := front;
      if l[n].tokens != [] && l[n].tokens[0] == key {
        at := front + [n];
      }
      forall k | 0 <= k < |l| ensures k in at <==> l[k].tokens != [] && l[k].tokens[0] == key {
        assert k < n ==> init[k] == l[k];
        assert k in front ==> k < n;
      }
    }
  }

  /** `NginxConfig::findAll`. */
  method FindAll(c: NginxConfig, key: string, ghost nodes: set<NginxConfig>)
    returns (all: seq<NginxConfig>, ghost at: seq<nat>)
    requires Closed(nodes) && Complete(c, nodes) && WordedTree(c.model)
    ensures var found := Named(c.model.kids, key);
            |all| == |found| && forall i | 0 <= i < |all| :: all[i] in nodes && all[i].model == found[i]
    ensures all == NamedNodes(c.children, key)
    ensures ListsNamed(c.children, key, all, at)
  {
    all := [];
    ghost var kids := c.model.kids;
    for i := 0 to |c.children|
      invariant |all| == |Named(kids[..i], key)| && all == NamedNodes(c.children[..i], key)
      invariant forall j | 0 <= j < |all| :: all[j] in nodes && all[j].model == Named(kids[..i], key)[j]
    {
      assert kids[..i + 1][..i] == kids[..i];
      assert c.children[..i + 1][..i] == c.children[..i];
      if c.children[i].tokens[0] == key {
        all := all + [c.children[i]];
      }
    }
    assert kids[..|kids|] == kids;
    assert c.children[..|c.children|] == c.children;
    at := NamedListed(c.children, key);
  }
}
