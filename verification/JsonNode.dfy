/** The paths of FPJson.cpp: Json nodes as objects that share and change in place, the lookup of
  a path and the creation of the nodes a path lacks. The nodes may form any graph. */
module JsonNodes {
  import opened Bytes
  import opened Paths

  datatype Kind = Uninit | Object | Array | String | Integer | UInteger | Real | Boolean | Null

  /** A Json: its type, and the map behind `_data` when it is an object. */
  class JsonNode {
    var kind: Kind
    var dict: map<Text, JsonNode>

    constructor ()
      ensures kind == Uninit && dict == map[]
    {
      kind, dict := Uninit, map[];
    }

    method SetDict()
      modifies this
      ensures kind == Object && dict == map[]
    {
      kind, dict := Object, map[];
    }

    method GetNodeByKey(key: Text) returns (node: JsonNode?)
      ensures node == Child(this, key)
    {
      if kind != Object {
        return null;
      }
      return if key in dict then dict[key] else null;
    }

    method AddNode(key: Text, node: JsonNode) returns (added: bool)
      modifies this
      ensures added <==> old(kind) == Uninit || (old(kind) == Object && key !in old(dict))
      ensures added ==> kind == Object && dict == old(Entries(this))[key := node]
      ensures !added ==> unchanged(this)
    {
      if kind != Object {
        if kind == Uninit {
          SetDict();
        } else {
          return false;
        }
      }
      if key in dict {
        return false;
      }
      dict := dict[key := node];
      return true;
    }

    method DictAddObject(key: Text) returns (node: JsonNode?)
      modifies this
      ensures node != null <==> old(kind) == Uninit || (old(kind) == Object && key !in old(dict))
      ensures node != null ==>
        && fresh(node) && node.kind == Object && node.dict == map[]
        && kind == Object && dict == old(Entries(this))[key := node]
      ensures node == null ==> unchanged(this)
    {
      var n := new JsonNode();
      n.SetDict();
      var added := AddNode(key, n);
      return if added then n else null;
    }

    method GetNode(path: Text, delim: Text, ghost nodes: set<JsonNode>) returns (node: JsonNode?)
      requires this in nodes && Closed(nodes)
      ensures node == Find(nodes, this, Sections(path, delim))
    {
      var sections := PathSplit(path, delim);
      node := GetNodeByKey(sections[0]);
      var i := 1;
      while i < |sections| && node != null
        invariant 1 <= i <= |sections|
        invariant node != null ==> node in nodes
        invariant Find(nodes, this, sections) == if node == null then null else Find(nodes, node, sections[i..])
      {
        assert sections[i..][1..] == sections[i + 1..];
        node := node.GetNodeByKey(sections[i]);
        i := i + 1;
      }
    }

    /** createNode. Null comes back exactly when the path leads through a node that is neither an
        object nor uninitialized; nothing is changed then, and nothing when the path is there
        already. Otherwise the deepest node the path reaches gets the chain of new nodes that the
        missing sections name. In each case but the first the path now leads to the result. */
    method CreateNode(path: Text, delim: Text, ghost nodes: set<JsonNode>)
      returns (result: JsonNode?, ghost chain: seq<JsonNode>)
      requires this in nodes && Closed(nodes)
      modifies nodes
      ensures result == null <==> old(Blocked(nodes, this, Sections(path, delim)))
      ensures result == null || old(Missing(nodes, this, Sections(path, delim))) == [] ==>
        unchanged(nodes) && chain == []
      ensures result != null && old(Missing(nodes, this, Sections(path, delim))) == [] ==>
        result == old(Deepest(nodes, this, Sections(path, delim)))
      ensures result != null && old(Missing(nodes, this, Sections(path, delim))) != [] ==>
        Grew(nodes, old(Deepest(nodes, this, Sections(path, delim))),
             old(Missing(nodes, this, Sections(path, delim))), chain)
        && result == chain[|chain| - 1]
      ensures Closed(nodes + Range(chain))
      ensures result != null ==> Find(nodes + Range(chain), this, Sections(path, delim)) == result
    {
      var sections := PathSplit(path, delim);
      var node: JsonNode := this;
      var i := 0;
      chain := [];
      assert sections[0..] == sections;
      while i < |sections|
        invariant i <= |sections| && node in nodes && unchanged(nodes)
        invariant Deepest(nodes, this, sections) == Deepest(nodes, node, sections[i..])
        invariant Missing(nodes, this, sections) == Missing(nodes, node, sections[i..])
      {
        var next := node.GetNodeByKey(sections[i]);
        if next == null {
          if node.kind == Object || node.kind == Uninit {
            break;
          }
          assert nodes + Range([]) == nodes;
          return null, [];
        }
        assert sections[i..][1..] == sections[i + 1..];
        node := next;
        i := i + 1;
      }
      MissingOrFound(nodes, this, sections);
      if i == |sections| {
        assert nodes + Range([]) == nodes;
        return node, [];
      }
      result, chain := Grow(node, sections, i, nodes);
      GrewIsClosed(nodes, node, sections[i..], chain);
      NewPathIsFound(nodes, sections[i..], chain, this, sections);
    }
  }

  /** The end of createNode: an object for each missing section but the last, and a new node. */
  method Grow(at: JsonNode, sections: seq<Text>, start: nat, ghost nodes: set<JsonNode>)
    returns (result: JsonNode, ghost chain: seq<JsonNode>)
    requires at in nodes && start < |sections|
    requires at.kind in {Uninit, Object} && Child(at, sections[start]) == null
    modifies at
    ensures Grew(nodes, at, sections[start..], chain) && result == chain[|chain| - 1]
  {
    ghost var keys := sections[start..];
    if at.kind == Uninit && start < |sections| - 1 {
      at.SetDict();
    }
    var i, node := start, at;
    chain := [];
    while i < |sections| - 1
      invariant start <= i <= |sections| - 1 && |chain| == i - start
      invariant node == if chain == [] then at else chain[|chain| - 1]
      invariant forall j :: 0 <= j < |chain| ==> fresh(chain[j]) && chain[j] != at
      invariant forall j {:trigger chain[j].dict} :: 0 <= j < |chain| - 1 ==>
        chain[j].kind == Object && chain[j].dict == map[keys[j + 1] := chain[j + 1]] && chain[j] != node
      invariant node != at ==> node.kind == Object && node.dict == map[]
      invariant start < |sections| - 1 ==> at.kind == Object
      invariant start == |sections| - 1 ==> unchanged(at)
      invariant start < |sections| - 1 ==>
        at.dict == if chain == [] then old(Entries(at)) else old(Entries(at))[keys[0] := chain[0]]
    {
      ghost var parent, before := node, chain;
      node := node.DictAddObject(sections[i]);
      assert parent != at ==> parent.dict == map[keys[i - start] := node];
      chain := before + [node];
      forall j | 0 <= j < |chain| - 1
        ensures chain[j].kind == Object && chain[j].dict == map[keys[j + 1] := chain[j + 1]] && chain[j] != node
      {
        assert chain[j] == before[j];
        if j < |before| - 1 {
          assert before[j].dict == map[keys[j + 1] := before[j + 1]];
        }
      }
      i := i + 1;
    }
    result := new JsonNode();
    ghost var before := chain;
    var added := node.AddNode(sections[i], result);
    assert node != at ==> node.dict == map[keys[i - start] := result];
    chain := before + [result];
    forall j | 0 <= j < |chain| - 1
      ensures chain[j].kind == Object && chain[j].dict == map[keys[j + 1] := chain[j + 1]]
    {
      assert chain[j] == before[j];
      if j < |before| - 1 {
        assert before[j].dict == map[keys[j + 1] := before[j + 1]];
      }
    }
  }

  ghost function Child(n: JsonNode, key: Text): JsonNode?
    reads n
  {
    if n.kind == Object && key in n.dict then n.dict[key] else null
  }

  /** The map of a node, empty unless the node is an object. */
  ghost function Entries(n: JsonNode): map<Text, JsonNode>
    reads n
  {
    if n.kind == Object then n.dict else map[]
  }

  ghost predicate Closed(nodes: set<JsonNode>)
    reads nodes
  {
    forall n, key :: n in nodes && Child(n, key) != null ==> Child(n, key) in nodes
  }

  ghost function Range(chain: seq<JsonNode>): set<JsonNode> {
    set n | n in chain
  }

  /** Where a path leads. */
  ghost function Find(nodes: set<JsonNode>, n: JsonNode, sections: seq<Text>): JsonNode?
    requires n in nodes && Closed(nodes)
    reads nodes
    decreases |sections|
  {
    if sections == [] then n
    else
      var child := Child(n, sections[0]);
      if child == null then null else Find(nodes, child, sections[1..])
  }

  /** The last node on a path that is there. */
  ghost function Deepest(nodes: set<JsonNode>, n: JsonNode, sections: seq<Text>): (r: JsonNode)
    requires n in nodes && Closed(nodes)
    reads nodes
    ensures r in nodes
    decreases |sections|
  {
    if sections == [] then n
    else
      var child := Child(n, sections[0]);
      if child == null then n else Deepest(nodes, child, sections[1..])
  }

  /** The sections of a path that lead on from there. */
  ghost function Missing(nodes: set<JsonNode>, n: JsonNode, sections: seq<Text>): seq<Text>
    requires n in nodes && Closed(nodes)
    reads nodes
    decreases |sections|
  {
    if sections == [] then []
    else
      var child := Child(n, sections[0]);
      if child == null then sections else Missing(nodes, child, sections[1..])
  }

  /** A path is found exactly when nothing of it is missing. */
  lemma {:induction false} MissingOrFound(nodes: set<JsonNode>, n: JsonNode, sections: seq<Text>)
    requires n in nodes && Closed(nodes)
    ensures Find(nodes, n, sections)
         == if Missing(nodes, n, sections) == [] then Deepest(nodes, n, sections) else null
    decreases |sections|
  {
    if sections != [] {
      var child := Child(n, sections[0]);
      if child != null {
        MissingOrFound(nodes, child, sections[1..]);
      }
    }
  }

  /** Sections are missing below a node that cannot take any. */
  ghost predicate Blocked(nodes: set<JsonNode>, n: JsonNode, sections: seq<Text>)
    requires n in nodes && Closed(nodes)
    reads nodes
  {
    Missing(nodes, n, sections) != [] && Deepest(nodes, n, sections).kind !in {Uninit, Object}
  }

  /** New nodes under each other: objects with one entry each, the last one uninitialized. */
  ghost predicate Chain(chain: seq<JsonNode>, keys: seq<Text>)
    reads chain
  {
    && |chain| == |keys| > 0
    && (forall i {:trigger chain[i].dict} :: 0 <= i < |chain| - 1 ==>
          chain[i].kind == Object && chain[i].dict == map[keys[i + 1] := chain[i + 1]])
    && chain[|chain| - 1].kind == Uninit
  }

  /** The one change: a node that could take it has got the chain under a new key. */
  twostate predicate Grew(nodes: set<JsonNode>, new at: JsonNode, new keys: seq<Text>, new chain: seq<JsonNode>)
    reads nodes, chain
  {
    && at in nodes && Chain(chain, keys)
    && old(at.kind) in {Uninit, Object} && keys[0] !in old(Entries(at))
    && (forall n :: n in nodes && n != at ==> unchanged(n))
    && (forall i :: 0 <= i < |chain| ==> fresh(chain[i]))
    && at.kind == Object && at.dict == old(Entries(at))[keys[0] := chain[0]]
  }

  // ---------- what growing does to the paths ----------

  twostate lemma GrewIsClosed(nodes: set<JsonNode>, new at: JsonNode, new keys: seq<Text>, new chain: seq<JsonNode>)
    requires old(Closed(nodes))
    requires Grew(nodes, at, keys, chain)
    ensures Closed(nodes + Range(chain))
  {
    var all := nodes + Range(chain);
    forall n, key | n in all && Child(n, key) != null ensures Child(n, key) in all {
      if n in chain {
        var i :| 0 <= i < |chain| && chain[i] == n;
        assert chain[i].dict == n.dict;
      } else if n != at || key != keys[0] {
        assert n != at ==> unchanged(n);
        assert old(Child(n, key)) == Child(n, key);
      }
    }
  }

  /** From a link of the chain exactly the sections behind it lead on. */
  lemma {:induction false} ChainIsFound(all: set<JsonNode>, chain: seq<JsonNode>, keys: seq<Text>, i: nat,
                                        sections: seq<Text>)
    requires Closed(all) && Chain(chain, keys) && Range(chain) <= all && i < |chain|
    ensures chain[i] in all
    ensures if sections <= keys[i + 1..] then Find(all, chain[i], sections) == chain[i + |sections|]
            else Find(all, chain[i], sections) == null
    decreases |sections|
  {
    assert chain[i] in Range(chain);
    if sections != [] && i + 1 < |chain| {
      assert keys[i + 1..][1..] == keys[i + 2..] && keys[i + 1..][0] == keys[i + 1];
      ChainIsFound(all, chain, keys, i + 1, sections[1..]);
      assert chain[i].dict == map[keys[i + 1] := chain[i + 1]];
      assert sections == [sections[0]] + sections[1..];
    }
  }

  /** A path that led somewhere leads to the same node. */
  twostate lemma {:induction false} OldPathsStay(nodes: set<JsonNode>, new at: JsonNode, new keys: seq<Text>,
                                                 new chain: seq<JsonNode>, new n: JsonNode, new sections: seq<Text>)
    requires n in nodes && old(Closed(nodes))
    requires Grew(nodes, at, keys, chain)
    requires Closed(nodes + Range(chain))
    requires old(Find(nodes, n, sections)) != null
    ensures Find(nodes + Range(chain), n, sections) == old(Find(nodes, n, sections))
    decreases |sections|
  {
    if sections != [] {
      var child := old(Child(n, sections[0]));
      assert n != at ==> unchanged(n);
      OldPathsStay(nodes, at, keys, chain, child, sections[1..]);
    }
  }

  /** A path that lacked sections leads along the chain. */
  twostate lemma {:induction false} NewPathIsFound(nodes: set<JsonNode>, new keys: seq<Text>, new chain: seq<JsonNode>,
                                                   new n: JsonNode, new sections: seq<Text>)
    requires n in nodes && old(Closed(nodes))
    requires keys == old(Missing(nodes, n, sections))
    requires Grew(nodes, old(Deepest(nodes, n, sections)), keys, chain)
    requires Closed(nodes + Range(chain))
    ensures chain != [] && Find(nodes + Range(chain), n, sections) == chain[|chain| - 1]
    decreases |sections|
  {
    var at := old(Deepest(nodes, n, sections));
    var child := old(Child(n, sections[0]));
    if child == null {
      ChainIsFound(nodes + Range(chain), chain, keys, 0, sections[1..]);
    } else {
      assert n != at ==> unchanged(n);
      NewPathIsFound(nodes, keys, chain, child, sections[1..]);
    }
  }

  /** A path that leads somewhere only now passes the node that grew, and from there on it is the
      beginning of what was missing. */
  twostate lemma {:induction false} NothingElseIsFound(nodes: set<JsonNode>, new at: JsonNode, new keys: seq<Text>,
                                                       new chain: seq<JsonNode>, new n: JsonNode,
                                                       new sections: seq<Text>)
    returns (k: nat)
    requires n in nodes && old(Closed(nodes))
    requires Grew(nodes, at, keys, chain)
    requires Closed(nodes + Range(chain))
    requires old(Find(nodes, n, sections)) == null
    requires Find(nodes + Range(chain), n, sections) != null
    ensures k < |sections| && old(Find(nodes, n, sections[..k])) == at && sections[k..] <= keys
    ensures Find(nodes + Range(chain), n, sections) == chain[|sections| - k - 1]
    decreases |sections|
  {
    var all := nodes + Range(chain);
    var child := old(Child(n, sections[0]));
    if child == null {
      k := 0;
      ChainIsFound(all, chain, keys, 0, sections[1..]);
      assert sections == [sections[0]] + sections[1..] && keys == [keys[0]] + keys[1..];
    } else {
      assert n != at ==> unchanged(n);
      k := NothingElseIsFound(nodes, at, keys, chain, child, sections[1..]);
      k := k + 1;
      Shifted(sections, k);
    }
  }

  lemma Shifted(sections: seq<Text>, k: nat)
    requires 0 < k <= |sections|
    ensures sections[..k][1..] == sections[1..][..k - 1] && sections[1..][k - 1..] == sections[k..]
  {
  }

  /** What is missing is the end of the path; the rest leads to the deepest node. */
  lemma {:induction false} MissingIsTheEnd(nodes: set<JsonNode>, n: JsonNode, sections: seq<Text>)
    requires n in nodes && Closed(nodes)
    ensures var k := |sections| - |Missing(nodes, n, sections)|;
      && 0 <= k && Missing(nodes, n, sections) == sections[k..]
      && Find(nodes, n, sections[..k]) == Deepest(nodes, n, sections)
    decreases |sections|
  {
    if sections != [] {
      var child := Child(n, sections[0]);
      if child != null {
        MissingIsTheEnd(nodes, child, sections[1..]);
        var k := |sections| - |Missing(nodes, n, sections)|;
        Shifted(sections, k);
      }
    }
  }

  lemma {:induction false} PrefixIsFound(nodes: set<JsonNode>, n: JsonNode, sections: seq<Text>, k: nat)
    requires n in nodes && Closed(nodes) && Find(nodes, n, sections) != null && k <= |sections|
    ensures Find(nodes, n, sections[..k]) != null
    decreases k
  {
    if k > 0 {
      PrefixIsFound(nodes, Child(n, sections[0]), sections[1..], k - 1);
      Shifted(sections, k);
    }
  }

  /** Where only one path leads to the node that grew, as in a tree, the paths that lead somewhere
      are those that did and the beginnings of the created path. */
  twostate lemma OnlyTheCreatedPathIsNew(nodes: set<JsonNode>, new chain: seq<JsonNode>, new root: JsonNode,
                                         new sections: seq<Text>, new path: seq<Text>)
    requires root in nodes && old(Closed(nodes))
    requires old(Missing(nodes, root, sections)) != []
    requires Grew(nodes, old(Deepest(nodes, root, sections)), old(Missing(nodes, root, sections)), chain)
    requires Closed(nodes + Range(chain))
    requires forall p: seq<Text> :: old(Find(nodes, root, p)) == old(Deepest(nodes, root, sections)) ==>
      p <= sections && |p| == |sections| - |old(Missing(nodes, root, sections))|
    ensures Find(nodes + Range(chain), root, path) != null <==>
      old(Find(nodes, root, path)) != null || path <= sections
  {
    hide *;
    var at, keys := old(Deepest(nodes, root, sections)), old(Missing(nodes, root, sections));
    if old(Find(nodes, root, path)) != null {
      OldPathsStay(nodes, at, keys, chain, root, path);
    } else if Find(nodes + Range(chain), root, path) != null {
      var k := NothingElseIsFound(nodes, at, keys, chain, root, path);
      assert old(MissingIsTheEnd(nodes, root, sections); true);
      BeginningContinues(path, sections, k);
    } else if path <= sections {
      assert path == sections[..|path|];
      NewPathIsFound(nodes, keys, chain, root, sections);
      PrefixIsFound(nodes + Range(chain), root, sections, |path|);
    }
  }

  lemma BeginningContinues(path: seq<Text>, sections: seq<Text>, k: nat)
    requires k <= |path| && k <= |sections| && path[..k] <= sections && path[k..] <= sections[k..]
    ensures path <= sections
  {
    assert path == path[..k] + path[k..] && sections == sections[..k] + sections[k..];
  }
}
