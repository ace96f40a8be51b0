/** The directory tree the ProjFS provider builds from the flat list of paths (projfs/paf_mount.c). */
module VirtualTree {
  import opened Bytes
  import opened Seqs

  /** Wide-character text as code units. */
  type Text = seq<nat>
  /** Case folding of _wcsicmp, code unit by code unit. */
  type Lower = nat -> nat

  /** What tells a node from its siblings: its folded name, or its handle when an earlier sibling has that name. */
  datatype Part = Name(text: Text) | Spill(node: nat)
  type Key = seq<Part>

  const SLASH: nat := 47
  const BACKSLASH: nat := 92
  const NAME_MAX: nat := 256
  const PATH_MAX: nat := 1024

  // ---- Components ----

  /** The first component ends here: the number of code units before the next slash. */
  function UntilSlash(s: Text): (n: nat)
    ensures n <= |s| && (forall i :: 0 <= i < n ==> s[i] != SLASH) && (n < |s| ==> s[n] == SLASH)
  {
    if s == [] || s[0] == SLASH then 0 else 1 + UntilSlash(s[1..])
  }

  /** What repeated wcstok_s calls with a slash deliver: the maximal slash-free runs, empty ones skipped. */
  function Tokens(s: Text): seq<Text>
    decreases |s|
  {
    if s == [] then []
    else if s[0] == SLASH then Tokens(s[1..])
    else [s[..UntilSlash(s)]] + Tokens(s[UntilSlash(s)..])
  }

  function Normalized(s: Text): (t: Text)
    ensures |t| == |s| && forall i :: 0 <= i < |s| ==> t[i] == if s[i] == BACKSLASH then SLASH else s[i]
  {
    seq(|s|, i requires 0 <= i < |s| => if s[i] == BACKSLASH then SLASH else s[i])
  }

  /** wcsncpy_s with _TRUNCATE into a buffer of that many units: one is kept for the terminator. */
  function Clip(s: Text, room: nat): (t: Text)
    requires room > 0
    ensures |t| < room && t <= s && (|s| < room ==> t == s) && (|s| >= room ==> |t| == room - 1)
  {
    if |s| < room then s else s[..room - 1]
  }

  /** The components Tree_Lookup searches for. */
  function LookupTokens(path: Text): seq<Text> {
    Tokens(Normalized(Clip(path, PATH_MAX)))
  }

  predicate Short(tokens: seq<Text>) {
    forall i :: 0 <= i < |tokens| ==> |tokens[i]| < NAME_MAX
  }

  function Folded(lower: Lower, s: Text): Text {
    Mapped(lower, s)
  }

  /** The part a stored name makes: the name is clipped when the node is made. */
  function PartOf(lower: Lower): Text -> Part {
    (t: Text) => Name(Folded(lower, Clip(t, NAME_MAX)))
  }

  function KeyOf(lower: Lower, tokens: seq<Text>): Key {
    Mapped(PartOf(lower), tokens)
  }

  // ---- The abstract tree: its paths in the order they appeared ----

  datatype Slot = Slot(key: Key, isDir: bool, index: int, size: nat)

  const ROOT: Slot := Slot([], true, -1, 0)

  ghost predicate HasKey(slots: seq<Slot>, k: Key) {
    exists i :: 0 <= i < |slots| && slots[i].key == k
  }

  /** A name is found below key k: stored names are short, so a longer one never is. */
  ghost predicate Known(lower: Lower, slots: seq<Slot>, k: Key, t: Text) {
    |t| < NAME_MAX && HasKey(slots, k + [PartOf(lower)(t)])
  }

  /** The key of a component below key k: that of the node found or made for it. */
  ghost function KeyBelow(lower: Lower, slots: seq<Slot>, k: Key, t: Text): Key {
    if |t| >= NAME_MAX && HasKey(slots, k + [PartOf(lower)(t)]) then k + [Spill(|slots|)] else k + [PartOf(lower)(t)]
  }

  /** What one more component does; what is there already stays as it is. */
  ghost function WithSlot(lower: Lower, slots: seq<Slot>, k: Key, t: Text, isDir: bool, index: int,
                          size: nat): seq<Slot> {
    if Known(lower, slots, k, t) then slots else slots + [Slot(KeyBelow(lower, slots, k, t), isDir, index, size)]
  }

  /** The tree and the key reached on the way along a path. */
  datatype Walk = Walk(slots: seq<Slot>, at: Key)

  /** After one more component: a file for the last one, a directory for the others. */
  ghost function Stepped(lower: Lower, w: Walk, t: Text, last: bool, index: nat, size: nat): Walk {
    Walk(if last then WithSlot(lower, w.slots, w.at, t, false, index, size)
         else WithSlot(lower, w.slots, w.at, t, true, -1, 0),
         KeyBelow(lower, w.slots, w.at, t))
  }

  /** The walk after the first n components of a path. */
  ghost function Walked(lower: Lower, slots: seq<Slot>, tokens: seq<Text>, n: nat, index: nat, size: nat): Walk
    requires n <= |tokens|
  {
    if n == 0 then Walk(slots, [])
    else Stepped(lower, Walked(lower, slots, tokens, n - 1, index, size), tokens[n - 1], n == |tokens|, index, size)
  }

  // ---- The concrete tree ----

  /** A node; children are handles into the arena. */
  datatype Node = Node(name: Text, isDir: bool, index: int, size: nat, children: seq<nat>)

  /** Child m of node i extends its key: by its folded name, or by its handle if an earlier child has that name. */
  ghost predicate IsChild(lower: Lower, nodes: seq<Node>, slots: seq<Slot>, i: nat, m: nat)
    requires |nodes| == |slots| && i < |nodes| && m < |nodes[i].children|
  {
    var c := nodes[i].children[m];
    && c < |nodes|
    && (|| slots[c].key == slots[i].key + [Name(Folded(lower, nodes[c].name))]
        || (slots[c].key == slots[i].key + [Spill(c)] && Shadowed(lower, nodes, i, m)))
  }

  ghost predicate Shadowed(lower: Lower, nodes: seq<Node>, i: nat, m: nat)
    requires i < |nodes| && m < |nodes[i].children| && nodes[i].children[m] < |nodes|
  {
    exists k :: 0 <= k < m && SameName(lower, nodes, nodes[i].children[k], nodes[nodes[i].children[m]].name)
  }

  ghost predicate SameName(lower: Lower, nodes: seq<Node>, c: nat, name: Text) {
    c < |nodes| && Folded(lower, nodes[c].name) == Folded(lower, name)
  }

  ghost predicate DistinctKeys(slots: seq<Slot>) {
    forall i, j :: 0 <= i < j < |slots| ==> slots[i].key != slots[j].key
  }

  ghost predicate SameInfo(n: Node, s: Slot) {
    n.isDir == s.isDir && n.index == s.index && n.size == s.size && |n.name| < NAME_MAX
  }

  /** Node j is a child of an earlier one. */
  ghost predicate Rooted(nodes: seq<Node>, parents: seq<nat>, j: nat)
    requires |nodes| == |parents| && j < |nodes|
  {
    parents[j] < j && j in nodes[parents[j]].children
  }

  ghost predicate AllInfo(nodes: seq<Node>, slots: seq<Slot>) {
    |nodes| == |slots| && forall i :: 0 <= i < |nodes| ==> SameInfo(nodes[i], slots[i])
  }

  ghost predicate AllChildren(lower: Lower, nodes: seq<Node>, slots: seq<Slot>) {
    && |nodes| == |slots|
    && forall i, m :: 0 <= i < |nodes| && 0 <= m < |nodes[i].children| ==> IsChild(lower, nodes, slots, i, m)
  }

  ghost predicate AllRooted(nodes: seq<Node>, parents: seq<nat>) {
    |nodes| == |parents| && forall j :: 0 < j < |nodes| ==> Rooted(nodes, parents, j)
  }

  /** The nodes hold the slots: children extend their parent's key, and every node but the root is among the children
      of an earlier one. */
  ghost predicate Holds(lower: Lower, nodes: seq<Node>, slots: seq<Slot>, parents: seq<nat>) {
    && nodes != [] && AllInfo(nodes, slots) && slots[0] == ROOT && DistinctKeys(slots)
    && AllChildren(lower, nodes, slots) && AllRooted(nodes, parents)
  }

  lemma LastParts(a: Key, x: Part, b: Key, y: Part)
    requires a + [x] == b + [y]
    ensures a == b && x == y
  {
    assert (a + [x])[..|a|] == a && (b + [y])[..|b|] == b;
    assert |a + [x]| == |a| + 1 && |b + [y]| == |b| + 1;
    assert (a + [x])[|a|] == x && (b + [y])[|b|] == y;
  }

  /** The parent of a node, its place among the children, and the part its key ends with. */
  lemma PlaceOf(lower: Lower, nodes: seq<Node>, slots: seq<Slot>, parents: seq<nat>, j: nat)
      returns (i: nat, m: nat, x: Part)
    requires Holds(lower, nodes, slots, parents) && 0 < j < |nodes|
    ensures i < j && m < |nodes[i].children| && nodes[i].children[m] == j
    ensures slots[j].key == slots[i].key + [x] && (x == Name(Folded(lower, nodes[j].name)) || x == Spill(j))
  {
    assert Rooted(nodes, parents, j);
    i := parents[j];
    m :| 0 <= m < |nodes[i].children| && nodes[i].children[m] == j;
    assert IsChild(lower, nodes, slots, i, m);
    x := if slots[j].key == slots[i].key + [Spill(j)] then Spill(j) else Name(Folded(lower, nodes[j].name));
  }

  /** A node whose key extends cur's by one part is one of cur's children; a name is its own, a handle its own. */
  lemma ChildListed(lower: Lower, nodes: seq<Node>, slots: seq<Slot>, parents: seq<nat>, cur: nat, j: nat, x: Part)
    requires Holds(lower, nodes, slots, parents) && cur < |nodes| && j < |nodes|
    requires slots[j].key == slots[cur].key + [x]
    ensures j in nodes[cur].children && (x == Name(Folded(lower, nodes[j].name)) || x == Spill(j))
  {
    var i, m, y := PlaceOf(lower, nodes, slots, parents, j);
    LastParts(slots[i].key, y, slots[cur].key, x);
  }

  /** With a key, every prefix of it is in the tree. */
  lemma {:induction false} PrefixesPresent(lower: Lower, nodes: seq<Node>, slots: seq<Slot>, parents: seq<nat>, j: nat,
                                           n: nat)
    requires Holds(lower, nodes, slots, parents) && j < |nodes| && n <= |slots[j].key|
    ensures HasKey(slots, slots[j].key[..n])
    decreases j
  {
    var key := slots[j].key;
    if n == |key| {
      assert key[..n] == key;
    } else {
      var i, m, x := PlaceOf(lower, nodes, slots, parents, j);
      assert key[..n] == slots[i].key[..n];
      PrefixesPresent(lower, nodes, slots, parents, i, n);
    }
  }

  lemma MissingPrefix(lower: Lower, nodes: seq<Node>, slots: seq<Slot>, parents: seq<nat>, key: Key, n: nat)
    requires Holds(lower, nodes, slots, parents) && n <= |key| && !HasKey(slots, key[..n])
    ensures !HasKey(slots, key)
  {
    forall j | 0 <= j < |slots| ensures slots[j].key != key {
      if slots[j].key == key {
        PrefixesPresent(lower, nodes, slots, parents, j, n);
      }
    }
  }

  /** A shadowed child has an earlier sibling of the same name. */
  lemma ShadowedSame(lower: Lower, nodes: seq<Node>, i: nat, m: nat, name: Text)
    requires i < |nodes| && m < |nodes[i].children| && nodes[i].children[m] < |nodes|
    requires Shadowed(lower, nodes, i, m) && SameName(lower, nodes, nodes[i].children[m], name)
    ensures exists k :: 0 <= k < m && SameName(lower, nodes, nodes[i].children[k], name)
  {
    var k :| 0 <= k < m && SameName(lower, nodes, nodes[i].children[k], nodes[nodes[i].children[m]].name);
    assert SameName(lower, nodes, nodes[i].children[k], name);
  }

  /** The first child of a name is not a shadowed one. */
  lemma FirstOfName(lower: Lower, nodes: seq<Node>, slots: seq<Slot>, parents: seq<nat>, i: nat, m: nat, name: Text)
    requires Holds(lower, nodes, slots, parents) && i < |nodes| && m < |nodes[i].children|
    requires SameName(lower, nodes, nodes[i].children[m], name)
    requires forall k :: 0 <= k < m ==> !SameName(lower, nodes, nodes[i].children[k], name)
    ensures |name| < NAME_MAX && slots[nodes[i].children[m]].key == slots[i].key + [PartOf(lower)(name)]
  {
    var c := nodes[i].children[m];
    assert IsChild(lower, nodes, slots, i, m);
    assert SameInfo(nodes[c], slots[c]) && |Folded(lower, name)| == |name|;
    if Shadowed(lower, nodes, i, m) {
      ShadowedSame(lower, nodes, i, m, name);
    }
  }

  /** A short name with a key is the name of a child. */
  lemma NameListed(lower: Lower, nodes: seq<Node>, slots: seq<Slot>, parents: seq<nat>, i: nat, name: Text)
      returns (m: nat)
    requires Holds(lower, nodes, slots, parents) && i < |nodes| && HasKey(slots, slots[i].key + [PartOf(lower)(name)])
    ensures m < |nodes[i].children| && SameName(lower, nodes, nodes[i].children[m], Clip(name, NAME_MAX))
  {
    var x := PartOf(lower)(name);
    var j :| 0 <= j < |slots| && slots[j].key == slots[i].key + [x];
    ChildListed(lower, nodes, slots, parents, i, j, x);
    m :| 0 <= m < |nodes[i].children| && nodes[i].children[m] == j;
  }

  /** The key of a new node is new. */
  lemma FreshKey(lower: Lower, nodes: seq<Node>, slots: seq<Slot>, parents: seq<nat>, i: nat, name: Text)
    requires Holds(lower, nodes, slots, parents) && i < |nodes| && !Known(lower, slots, slots[i].key, name)
    ensures !HasKey(slots, KeyBelow(lower, slots, slots[i].key, name))
  {
    forall j | 0 <= j < |slots| ensures slots[j].key != slots[i].key + [Spill(|slots|)] {
      if slots[j].key == slots[i].key + [Spill(|slots|)] {
        ChildListed(lower, nodes, slots, parents, i, j, Spill(|slots|));
      }
    }
  }

  /** The nodes with one more child of parent. */
  function WithChild(nodes: seq<Node>, parent: nat, n: Node): (r: seq<Node>)
    requires parent < |nodes|
    ensures |r| == |nodes| + 1 && r[|nodes|] == n
    ensures forall i :: 0 <= i < |nodes| ==>
                          r[i] == nodes[i].(children := nodes[i].children + if i == parent then [|nodes|] else [])
  {
    var p := nodes[parent];
    nodes[parent := p.(children := p.children + [|nodes|])] + [n]
  }

  lemma ShadowKept(lower: Lower, nodes: seq<Node>, nodes': seq<Node>, i: nat, m: nat)
    requires i < |nodes| <= |nodes'| && m < |nodes[i].children| <= |nodes'[i].children|
    requires forall k :: 0 <= k <= m ==> nodes'[i].children[k] == nodes[i].children[k] < |nodes|
    requires forall c :: 0 <= c < |nodes| ==> nodes'[c].name == nodes[c].name
    requires Shadowed(lower, nodes, i, m)
    ensures Shadowed(lower, nodes', i, m)
  {
    var name := nodes[nodes[i].children[m]].name;
    var k :| 0 <= k < m && SameName(lower, nodes, nodes[i].children[k], name);
    assert SameName(lower, nodes', nodes'[i].children[k], name);
  }

  lemma ChildKept(lower: Lower, nodes: seq<Node>, slots: seq<Slot>, parent: nat, n: Node, s: Slot, i: nat, m: nat)
    requires AllChildren(lower, nodes, slots) && parent < |nodes| && i < |nodes| && m < |nodes[i].children|
    ensures m < |WithChild(nodes, parent, n)[i].children|
    ensures IsChild(lower, WithChild(nodes, parent, n), slots + [s], i, m)
  {
    var nodes', c := WithChild(nodes, parent, n), nodes[i].children[m];
    forall k | 0 <= k <= m ensures nodes'[i].children[k] == nodes[i].children[k] < |nodes| {
      assert IsChild(lower, nodes, slots, i, k);
    }
    assert IsChild(lower, nodes, slots, i, m);
    if slots[c].key == slots[i].key + [Spill(c)] && Shadowed(lower, nodes, i, m) {
      ShadowKept(lower, nodes, nodes', i, m);
    }
  }

  /** A new child shadowed by the earlier one of its name. */
  lemma SpillAdded(lower: Lower, nodes: seq<Node>, slots: seq<Slot>, parents: seq<nat>, parent: nat, name: Text,
                   n: Node)
    requires Holds(lower, nodes, slots, parents) && parent < |nodes| && n.name == Clip(name, NAME_MAX)
    requires HasKey(slots, slots[parent].key + [PartOf(lower)(name)])
    ensures var nodes', m := WithChild(nodes, parent, n), |nodes[parent].children|;
            m < |nodes'[parent].children| && nodes'[parent].children[m] == |nodes| && Shadowed(lower, nodes', parent, m)
  {
    var nodes', m := WithChild(nodes, parent, n), |nodes[parent].children|;
    assert nodes'[parent].children[m] == |nodes|;
    var k := NameListed(lower, nodes, slots, parents, parent, name);
    assert nodes'[parent].children[k] == nodes[parent].children[k];
    assert SameName(lower, nodes', nodes'[parent].children[k], n.name);
  }

  lemma ChildAdded(lower: Lower, nodes: seq<Node>, slots: seq<Slot>, parents: seq<nat>, parent: nat, name: Text,
                   n: Node, s: Slot)
    requires Holds(lower, nodes, slots, parents) && parent < |nodes| && n.name == Clip(name, NAME_MAX)
    requires s.key == KeyBelow(lower, slots, slots[parent].key, name)
    ensures var m := |nodes[parent].children|;
            && m < |WithChild(nodes, parent, n)[parent].children|
            && IsChild(lower, WithChild(nodes, parent, n), slots + [s], parent, m)
  {
    var nodes', m := WithChild(nodes, parent, n), |nodes[parent].children|;
    assert nodes'[parent].children[m] == |nodes|;
    if HasKey(slots, slots[parent].key + [PartOf(lower)(name)]) {
      SpillAdded(lower, nodes, slots, parents, parent, name, n);
    }
  }

  lemma ChildrenHold(lower: Lower, nodes: seq<Node>, slots: seq<Slot>, parents: seq<nat>, parent: nat, name: Text,
                     n: Node, s: Slot)
    requires Holds(lower, nodes, slots, parents) && parent < |nodes| && n.children == []
    requires n.name == Clip(name, NAME_MAX)
    requires s.key == KeyBelow(lower, slots, slots[parent].key, name)
    ensures AllChildren(lower, WithChild(nodes, parent, n), slots + [s])
  {
    var nodes' := WithChild(nodes, parent, n);
    forall i, m | 0 <= i < |nodes'| && 0 <= m < |nodes'[i].children| ensures IsChild(lower, nodes', slots + [s], i, m) {
      if i < |nodes| && m < |nodes[i].children| {
        ChildKept(lower, nodes, slots, parent, n, s, i, m);
      } else {
        ChildAdded(lower, nodes, slots, parents, parent, name, n, s);
      }
    }
  }

  lemma RootedMore(nodes: seq<Node>, parents: seq<nat>, parent: nat, n: Node)
    requires AllRooted(nodes, parents) && parent < |nodes|
    ensures AllRooted(WithChild(nodes, parent, n), parents + [parent])
  {
    var nodes', parents' := WithChild(nodes, parent, n), parents + [parent];
    forall j | 0 < j < |nodes'| ensures Rooted(nodes', parents', j) {
      if j == |nodes| {
        assert nodes'[parent].children[|nodes[parent].children|] == j;
      } else {
        assert Rooted(nodes, parents, j);
      }
    }
  }

  lemma DistinctMore(slots: seq<Slot>, s: Slot)
    requires DistinctKeys(slots) && !HasKey(slots, s.key)
    ensures DistinctKeys(slots + [s])
  {
    forall i | 0 <= i < |slots| ensures slots[i].key != s.key {
    }
  }

  lemma InfoMore(nodes: seq<Node>, slots: seq<Slot>, parent: nat, n: Node, s: Slot)
    requires AllInfo(nodes, slots) && SameInfo(n, s) && parent < |nodes|
    ensures AllInfo(WithChild(nodes, parent, n), slots + [s])
  {
  }

  /** A new child keeps the nodes those of the slots. */
  lemma AddedHolds(lower: Lower, nodes: seq<Node>, slots: seq<Slot>, parents: seq<nat>, parent: nat, name: Text,
                   n: Node, s: Slot)
    requires Holds(lower, nodes, slots, parents) && parent < |nodes| && n.children == []
    requires n.name == Clip(name, NAME_MAX)
    requires SameInfo(n, s) && !Known(lower, slots, slots[parent].key, name)
    requires s.key == KeyBelow(lower, slots, slots[parent].key, name)
    ensures Holds(lower, WithChild(nodes, parent, n), slots + [s], parents + [parent])
  {
    FreshKey(lower, nodes, slots, parents, parent, name);
    DistinctMore(slots, s);
    InfoMore(nodes, slots, parent, n, s);
    ChildrenHold(lower, nodes, slots, parents, parent, name, n, s);
    RootedMore(nodes, parents, parent, n);
  }

  /** What _wcsicmp compares: as many units, each equal up to case. */
  ghost predicate EqualUpToCase(lower: Lower, s: Text, t: Text) {
    |s| == |t| && forall i :: 0 <= i < |s| ==> lower(s[i]) == lower(t[i])
  }

  lemma FoldedIff(lower: Lower, s: Text, t: Text)
    ensures Folded(lower, s) == Folded(lower, t) <==> EqualUpToCase(lower, s, t)
  {
    if Folded(lower, s) == Folded(lower, t) {
      forall i | 0 <= i < |s| ensures lower(s[i]) == lower(t[i]) {
        assert Folded(lower, s)[i] == Folded(lower, t)[i];
      }
    }
  }

  /** What a search has established after the first n components. */
  ghost predicate Reached(lower: Lower, slots: seq<Slot>, tokens: seq<Text>, n: nat, node: Option<nat>)
    requires n <= |tokens|
  {
    match node
    case Some(i) => i < |slots| && slots[i].key == KeyOf(lower, tokens[..n]) && Short(tokens[..n])
    case None => !Short(tokens[..n]) || !HasKey(slots, KeyOf(lower, tokens[..n]))
  }

  lemma ReachedMore(lower: Lower, slots: seq<Slot>, tokens: seq<Text>, n: nat, i: nat, child: Option<nat>)
    requires n < |tokens| && Reached(lower, slots, tokens, n, Some(i)) && i < |slots|
    requires child.Some? <==> Known(lower, slots, slots[i].key, tokens[n])
    requires child.Some? ==> child.value < |slots| &&
                               slots[child.value].key == slots[i].key + [PartOf(lower)(tokens[n])]
    ensures Reached(lower, slots, tokens, n + 1, child)
  {
    TakeOneMore(tokens, n);
    MappedOneMore(PartOf(lower), tokens[..n], tokens[n]);
    assert tokens[..n + 1][n] == tokens[n];
  }

  lemma ReachedEnd(lower: Lower, nodes: seq<Node>, slots: seq<Slot>, parents: seq<nat>, tokens: seq<Text>, n: nat)
    requires Holds(lower, nodes, slots, parents) && n <= |tokens| && Reached(lower, slots, tokens, n, None)
    ensures !Short(tokens) || !HasKey(slots, KeyOf(lower, tokens))
  {
    var key := KeyOf(lower, tokens);
    assert key[..n] == KeyOf(lower, tokens[..n]);
    if Short(tokens) {
      MissingPrefix(lower, nodes, slots, parents, key, n);
    }
  }

  class Tree {
    const lower: Lower
    var nodes: seq<Node>
    ghost var slots: seq<Slot>
    ghost var parents: seq<nat>

    ghost predicate Valid()
      reads this
    {
      Holds(lower, nodes, slots, parents)
    }

    constructor (lower: Lower)
      ensures Valid() && slots == [ROOT] && this.lower == lower
    {
      this.lower := lower;
      nodes := [Node([], true, -1, 0, [])];
      slots := [ROOT];
      parents := [0];
    }

    /** VNode_FindChild: the first child whose name is equal up to case. */
    method FindChild(parent: nat, name: Text) returns (child: Option<nat>)
      requires Valid() && parent < |nodes|
      ensures child.Some? <==> Known(lower, slots, slots[parent].key, name)
      ensures child.Some? ==> child.value < |nodes| &&
                                 slots[child.value].key == slots[parent].key + [PartOf(lower)(name)]
      ensures child.Some? ==> child.value in nodes[parent].children &&
                                EqualUpToCase(lower, nodes[child.value].name, name)
      ensures child.None? ==> forall c :: c in nodes[parent].children ==>
                                            c < |nodes| && !EqualUpToCase(lower, nodes[c].name, name)
    {
      var children := nodes[parent].children;
      for m := 0 to |children|
        invariant forall k :: 0 <= k < m ==> !SameName(lower, nodes, children[k], name)
        invariant forall k :: 0 <= k < m ==> children[k] < |nodes| &&
                                               !EqualUpToCase(lower, nodes[children[k]].name, name)
      {
        assert IsChild(lower, nodes, slots, parent, m);
        FoldedIff(lower, nodes[children[m]].name, name);
        if Folded(lower, nodes[children[m]].name) == Folded(lower, name) {
          FirstOfName(lower, nodes, slots, parents, parent, m, name);
          return Some(children[m]);
        }
      }
      if Known(lower, slots, slots[parent].key, name) {
        ghost var m := NameListed(lower, nodes, slots, parents, parent, name);
        assert false;
      }
      return None;
    }

    /** VNode_New and VNode_AddChild: a new node, its name clipped, as the last child of parent. */
    method AddChild(parent: nat, name: Text, isDir: bool, index: int, size: nat) returns (child: nat)
      requires Valid() && parent < |nodes| && !Known(lower, slots, slots[parent].key, name)
      modifies this
      ensures Valid() && child == |old(nodes)| && |nodes| == child + 1
      ensures slots == old(slots)
            + [Slot(KeyBelow(lower, old(slots), old(slots)[parent].key, name), isDir, index, size)]
    {
      child := |nodes|;
      ghost var s := Slot(KeyBelow(lower, slots, slots[parent].key, name), isDir, index, size);
      var n := Node(Clip(name, NAME_MAX), isDir, index, size, []);
      AddedHolds(lower, nodes, slots, parents, parent, name, n, s);
      var p := nodes[parent];
      nodes := nodes[parent := p.(children := p.children + [child])] + [n];
      slots := slots + [s];
      parents := parents + [parent];
    }

    /** The child of that name, added if there is none. */
    method FindOrAdd(parent: nat, name: Text, isDir: bool, index: int, size: nat) returns (child: nat)
      requires Valid() && parent < |nodes|
      modifies this
      ensures Valid() && child < |nodes| && parent < |old(slots)|
      ensures slots[child].key == KeyBelow(lower, old(slots), old(slots)[parent].key, name)
      ensures slots == WithSlot(lower, old(slots), old(slots)[parent].key, name, isDir, index, size)
    {
      var found := FindChild(parent, name);
      if found.Some? { return found.value; }
      child := AddChild(parent, name, isDir, index, size);
    }

    /** One component of a path. */
    method InsertPart(cur: nat, name: Text, last: bool, index: nat, size: nat, ghost w: Walk) returns (child: nat)
      requires Valid() && cur < |nodes| && w == Walk(slots, slots[cur].key)
      modifies this
      ensures Valid() && child < |nodes| && Walk(slots, slots[child].key) == Stepped(lower, w, name, last, index, size)
    {
      if last {
        child := FindOrAdd(cur, name, false, index, size);
      } else {
        child := FindOrAdd(cur, name, true, -1, 0);
      }
    }

    /** Component n of a path. */
    method InsertNext(cur: nat, tokens: seq<Text>, n: nat, index: nat, size: nat, ghost before: seq<Slot>)
        returns (child: nat)
      requires Valid() && cur < |nodes| && n < |tokens|
      requires Walk(slots, slots[cur].key) == Walked(lower, before, tokens, n, index, size)
      modifies this
      ensures Valid() && child < |nodes|
      ensures Walk(slots, slots[child].key) == Walked(lower, before, tokens, n + 1, index, size)
    {
      child := InsertPart(cur, tokens[n], n + 1 == |tokens|, index, size, Walk(slots, slots[cur].key));
    }

    /** Tree_Insert: walks the components, adding what is missing. The paths of a listing are shorter than its
        buffers. */
    method Insert(path: Text, index: nat, size: nat)
      requires Valid() && |path| < PATH_MAX
      modifies this
      ensures Valid()
      ensures slots == Walked(lower, old(slots), Tokens(path), |Tokens(path)|, index, size).slots
    {
      var tokens := Tokens(path);
      var cur: nat, n: nat := 0, 0;
      while n < |tokens|
        invariant n <= |tokens| && Valid() && cur < |nodes|
        invariant Walk(slots, slots[cur].key) == Walked(lower, old(slots), tokens, n, index, size)
      {
        cur := InsertNext(cur, tokens, n, index, size, old(slots));
        n := n + 1;
      }
    }

    /** The node the components lead to. */
    method Search(tokens: seq<Text>) returns (node: Option<nat>)
      requires Valid()
      ensures node.None? ==> !Short(tokens) || !HasKey(slots, KeyOf(lower, tokens))
      ensures node.Some? ==> node.value < |nodes| && slots[node.value].key == KeyOf(lower, tokens) && Short(tokens)
    {
      node := Some(0);
      var n := 0;
      while n < |tokens| && node.Some?
        invariant n <= |tokens| && Reached(lower, slots, tokens, n, node)
      {
        var child := FindChild(node.value, tokens[n]);
        ReachedMore(lower, slots, tokens, n, node.value, child);
        node, n := child, n + 1;
      }
      assert tokens[..|tokens|] == tokens;
      if node.None? {
        ReachedEnd(lower, nodes, slots, parents, tokens, n);
      }
    }

    /** Tree_Lookup: the path is clipped to the buffer, backslashes count as slashes, and the empty path is the root. */
    method Find(path: Text) returns (node: Option<nat>)
      requires Valid()
      ensures node.None? ==> !Short(LookupTokens(path)) || !HasKey(slots, KeyOf(lower, LookupTokens(path)))
      ensures node.Some? ==>
                && node.value < |nodes| && Short(LookupTokens(path))
                && slots[node.value].key == KeyOf(lower, LookupTokens(path))
    {
      if path == [] { return Some(0); }
      node := Search(Tokens(Normalized(Clip(path, PATH_MAX))));
    }
  }

  // ---- The tree of a list of files ----

  datatype Listed = Listed(path: Text, size: nat)

  ghost function Build(lower: Lower, files: seq<Listed>): seq<Slot> {
    if files == [] then [ROOT]
    else
      var n := |files| - 1;
      var tokens := Tokens(files[n].path);
      Walked(lower, Build(lower, files[..n]), tokens, |tokens|, n, files[n].size).slots
  }

  /** The key a file would have if nothing shadowed it. */
  function FileKey(lower: Lower, f: Listed): (k: Key)
    ensures |k| == |Tokens(f.path)|
  {
    KeyOf(lower, Tokens(f.path))
  }

  /** A key without handles: what a lookup can reach. */
  predicate Plain(k: Key) {
    forall i :: 0 <= i < |k| ==> k[i].Name?
  }

  /** The first m components of file j are reachable by their clipped names: none of the long ones hides behind a node
      that was there before. */
  ghost predicate Surfaces(lower: Lower, files: seq<Listed>, j: nat, m: nat)
    requires j < |files| && m <= |Tokens(files[j].path)|
    decreases j, 1
  {
    forall i :: 0 <= i < m ==>
                  || |Tokens(files[j].path)[i]| < NAME_MAX
                  || Owner(lower, files, j, FileKey(lower, files[j])[..i + 1]).None?
  }

  /** The file whose insertion makes the node of a plain key, among the first n files. */
  ghost function Owner(lower: Lower, files: seq<Listed>, n: nat, k: Key): Option<nat>
    requires n <= |files|
    decreases n, 0
  {
    if n == 0 then None
    else if Owner(lower, files, n - 1, k).Some? then Owner(lower, files, n - 1, k)
    else if k != [] && k <= FileKey(lower, files[n - 1]) && Surfaces(lower, files, n - 1, |k|) then Some(n - 1)
    else None
  }

  // ---- The tree, node by node ----

  /** The node that file j makes for one of its prefixes. */
  function SlotOf(lower: Lower, files: seq<Listed>, j: nat, k: Key): Slot
    requires j < |files|
  {
    if k == FileKey(lower, files[j]) then Slot(k, false, j, files[j].size) else Slot(k, true, -1, 0)
  }

  type Owners = Key -> Option<nat>

  /** The plain slots are the root and, for each key that has an owner, the node its owner makes. */
  ghost predicate Exact(lower: Lower, files: seq<Listed>, slots: seq<Slot>, own: Owners) {
    && HasKey(slots, [])
    && (forall k :: Plain(k) && k != [] ==> (HasKey(slots, k) <==> own(k).Some?))
    && (forall i :: 0 <= i < |slots| && Plain(slots[i].key) ==> SlotExact(lower, files, slots[i], own))
  }

  ghost predicate SlotExact(lower: Lower, files: seq<Listed>, s: Slot, own: Owners) {
    if s.key == [] then s == ROOT
    else own(s.key).Some? && own(s.key).value < |files| && s == SlotOf(lower, files, own(s.key).value, s.key)
  }

  lemma KeysOfMore(slots: seq<Slot>, s: Slot, k: Key)
    ensures HasKey(slots + [s], k) <==> HasKey(slots, k) || s.key == k
  {
    assert (slots + [s])[|slots|] == s;
    if HasKey(slots, k) {
      var i :| 0 <= i < |slots| && slots[i].key == k;
      assert (slots + [s])[i].key == k;
    }
  }

  /** A slot no lookup can reach changes nothing. */
  lemma AddHidden(lower: Lower, files: seq<Listed>, slots: seq<Slot>, own: Owners, s: Slot)
    requires Exact(lower, files, slots, own) && !Plain(s.key)
    ensures Exact(lower, files, slots + [s], own)
  {
    forall k | Plain(k) ensures HasKey(slots + [s], k) <==> HasKey(slots, k) {
      KeysOfMore(slots, s, k);
    }
  }

  /** A new plain slot gives its key an owner. */
  lemma AddPlain(lower: Lower, files: seq<Listed>, slots: seq<Slot>, own: Owners, own': Owners, s: Slot, j: nat)
    requires Exact(lower, files, slots, own) && Plain(s.key) && s.key != [] && j < |files|
    requires own(s.key).None? && s == SlotOf(lower, files, j, s.key)
    requires forall k :: own'(k) == if k == s.key then Some(j) else own(k)
    ensures Exact(lower, files, slots + [s], own')
  {
    forall k ensures HasKey(slots + [s], k) <==> HasKey(slots, k) || s.key == k {
      KeysOfMore(slots, s, k);
    }
    forall i | 0 <= i < |slots + [s]| && Plain((slots + [s])[i].key)
      ensures SlotExact(lower, files, (slots + [s])[i], own')
    {
      if i < |slots| {
        assert SlotExact(lower, files, slots[i], own) && HasKey(slots, slots[i].key);
      }
    }
  }

  /** The owners once the first m components of file n are in. */
  ghost function OwnerWithin(lower: Lower, files: seq<Listed>, n: nat, m: nat, k: Key): Option<nat>
    requires n < |files| && m <= |Tokens(files[n].path)|
  {
    if Owner(lower, files, n, k).Some? then Owner(lower, files, n, k)
    else if k != [] && |k| <= m && k <= FileKey(lower, files[n]) && Surfaces(lower, files, n, |k|) then Some(n)
    else None
  }

  ghost function OwnersWithin(lower: Lower, files: seq<Listed>, n: nat, m: nat): Owners
    requires n < |files| && m <= |Tokens(files[n].path)|
  {
    (k: Key) => OwnerWithin(lower, files, n, m, k)
  }

  ghost function OwnersOf(lower: Lower, files: seq<Listed>, n: nat): Owners
    requires n <= |files|
  {
    (k: Key) => Owner(lower, files, n, k)
  }

  lemma SurfacesMore(lower: Lower, files: seq<Listed>, n: nat, m: nat)
    requires n < |files| && m < |Tokens(files[n].path)|
    ensures Surfaces(lower, files, n, m + 1) <==>
            Surfaces(lower, files, n, m) &&
            (|Tokens(files[n].path)[m]| < NAME_MAX ||
             Owner(lower, files, n, FileKey(lower, files[n])[..m + 1]).None?)
  {
  }

  /** One more component makes a node exactly if it surfaces and its key had no owner. */
  lemma OwnerOneMore(lower: Lower, files: seq<Listed>, n: nat, m: nat, k: Key)
    requires n < |files| && m < |Tokens(files[n].path)|
    ensures OwnerWithin(lower, files, n, m + 1, k)
         == if k == FileKey(lower, files[n])[..m + 1] && Surfaces(lower, files, n, m + 1)
               && Owner(lower, files, n, k).None?
            then Some(n) else OwnerWithin(lower, files, n, m, k)
  {
    if |k| == m + 1 {
      assert k <= FileKey(lower, files[n]) <==> k == FileKey(lower, files[n])[..m + 1];
    }
  }

  lemma {:induction false} OwnersStart(lower: Lower, files: seq<Listed>, n: nat, k: Key)
    requires n < |files|
    ensures OwnerWithin(lower, files, n, 0, k) == Owner(lower, files, n, k)
    ensures OwnerWithin(lower, files, n, |Tokens(files[n].path)|, k) == Owner(lower, files, n + 1, k)
  {
  }

  lemma SameOwners(lower: Lower, files: seq<Listed>, slots: seq<Slot>, own: Owners, own': Owners)
    requires Exact(lower, files, slots, own) && forall k :: own'(k) == own(k)
    ensures Exact(lower, files, slots, own')
  {
    forall i | 0 <= i < |slots| && Plain(slots[i].key) ensures SlotExact(lower, files, slots[i], own') {
      assert SlotExact(lower, files, slots[i], own);
    }
  }

  lemma PlainFront(k: Key, x: Part)
    ensures Plain(k + [x]) <==> Plain(k) && x.Name?
  {
    assert (k + [x])[|k|] == x;
    assert forall i :: 0 <= i < |k| ==> (k + [x])[i] == k[i];
  }

  lemma KeyPrefix(lower: Lower, f: Listed, m: nat)
    requires m < |Tokens(f.path)|
    ensures FileKey(lower, f)[..m + 1] == FileKey(lower, f)[..m] + [PartOf(lower)(Tokens(f.path)[m])]
    ensures Plain(FileKey(lower, f)[..m + 1])
    ensures m + 1 == |Tokens(f.path)| <==> FileKey(lower, f)[..m + 1] == FileKey(lower, f)
  {
    TakeOneMore(FileKey(lower, f), m);
    assert |FileKey(lower, f)[..m + 1]| == m + 1;
  }

  /** Where a walk along file n stands: the slots are exact, and the position is the clipped prefix if that surfaces and
      out of reach otherwise. */
  ghost predicate OnTrack(lower: Lower, files: seq<Listed>, n: nat, m: nat, w: Walk)
    requires n < |files| && m <= |Tokens(files[n].path)|
  {
    && Exact(lower, files, w.slots, OwnersWithin(lower, files, n, m))
    && (Surfaces(lower, files, n, m) <==> Plain(w.at))
    && (Surfaces(lower, files, n, m) ==> w.at == FileKey(lower, files[n])[..m])
  }

  /** The key of one more component of a walk that can still be reached. */
  lemma {:induction false} KeyOnTrack(lower: Lower, files: seq<Listed>, n: nat, m: nat, w: Walk)
    requires n < |files| && m < |Tokens(files[n].path)| && OnTrack(lower, files, n, m, w) && Plain(w.at)
    ensures var k, t := FileKey(lower, files[n])[..m + 1], Tokens(files[n].path)[m];
            && (HasKey(w.slots, k) <==> Owner(lower, files, n, k).Some?)
            && w.at + [PartOf(lower)(t)] == k && Plain(k) && k != []
            && (Surfaces(lower, files, n, m + 1) <==> |t| < NAME_MAX || Owner(lower, files, n, k).None?)
  {
    KeyPrefix(lower, files[n], m);
    SurfacesMore(lower, files, n, m);
    assert |FileKey(lower, files[n])[..m + 1]| == m + 1;
    assert OwnersWithin(lower, files, n, m)(FileKey(lower, files[n])[..m + 1])
        == Owner(lower, files, n, FileKey(lower, files[n])[..m + 1]);
  }

  /** A component that surfaces: its node is found, or made as the owner's. */
  lemma {:induction false} StepSurfaces(lower: Lower, files: seq<Listed>, n: nat, m: nat, w: Walk)
    requires n < |files| && m < |Tokens(files[n].path)| && OnTrack(lower, files, n, m, w) && Plain(w.at)
    requires Surfaces(lower, files, n, m + 1)
    ensures var tokens := Tokens(files[n].path);
            OnTrack(lower, files, n, m + 1, Stepped(lower, w, tokens[m], m + 1 == |tokens|, n, files[n].size))
  {
    var tokens, k, own := Tokens(files[n].path), FileKey(lower, files[n])[..m + 1], OwnersWithin(lower, files, n, m);
    var own' := OwnersWithin(lower, files, n, m + 1);
    KeyOnTrack(lower, files, n, m, w);
    KeyPrefix(lower, files[n], m);
    forall x ensures own'(x) == if x == k && Owner(lower, files, n, k).None? then Some(n) else own(x) {
      OwnerOneMore(lower, files, n, m, x);
    }
    assert KeyBelow(lower, w.slots, w.at, tokens[m]) == k;
    if HasKey(w.slots, k) {
      SameOwners(lower, files, w.slots, own, own');
    } else {
      AddPlain(lower, files, w.slots, own, own', SlotOf(lower, files, n, k), n);
    }
  }

  /** A component that does not surface adds only what no lookup can reach. */
  lemma {:induction false} StepHidden(lower: Lower, files: seq<Listed>, n: nat, m: nat, w: Walk)
    requires n < |files| && m < |Tokens(files[n].path)| && OnTrack(lower, files, n, m, w)
    requires !Surfaces(lower, files, n, m + 1)
    ensures var tokens := Tokens(files[n].path);
            OnTrack(lower, files, n, m + 1, Stepped(lower, w, tokens[m], m + 1 == |tokens|, n, files[n].size))
  {
    var tokens := Tokens(files[n].path);
    var own, own' := OwnersWithin(lower, files, n, m), OwnersWithin(lower, files, n, m + 1);
    forall x ensures own'(x) == own(x) {
      OwnerOneMore(lower, files, n, m, x);
    }
    SameOwners(lower, files, w.slots, own, own');
    var t, k := tokens[m], KeyBelow(lower, w.slots, w.at, tokens[m]);
    if Plain(w.at) {
      KeyOnTrack(lower, files, n, m, w);
    }
    PlainFront(w.at, Spill(|w.slots|));
    PlainFront(w.at, PartOf(lower)(t));
    assert !Plain(k);
    AddHidden(lower, files, w.slots, own', Slot(k, false, n, files[n].size));
    AddHidden(lower, files, w.slots, own', Slot(k, true, -1, 0));
  }

  lemma {:induction false} StepOnTrack(lower: Lower, files: seq<Listed>, n: nat, m: nat, w: Walk)
    requires n < |files| && m < |Tokens(files[n].path)| && OnTrack(lower, files, n, m, w)
    ensures var tokens := Tokens(files[n].path);
            OnTrack(lower, files, n, m + 1, Stepped(lower, w, tokens[m], m + 1 == |tokens|, n, files[n].size))
  {
    SurfacesMore(lower, files, n, m);
    if Surfaces(lower, files, n, m + 1) {
      StepSurfaces(lower, files, n, m, w);
    } else {
      StepHidden(lower, files, n, m, w);
    }
  }

  lemma {:induction false} WalkOnTrack(lower: Lower, files: seq<Listed>, n: nat, m: nat, slots: seq<Slot>)
    requires n < |files| && m <= |Tokens(files[n].path)| && Exact(lower, files, slots, OwnersOf(lower, files, n))
    ensures OnTrack(lower, files, n, m, Walked(lower, slots, Tokens(files[n].path), m, n, files[n].size))
  {
    if m == 0 {
      forall k ensures OwnersWithin(lower, files, n, 0)(k) == OwnersOf(lower, files, n)(k) {
        OwnersStart(lower, files, n, k);
      }
      SameOwners(lower, files, slots, OwnersOf(lower, files, n), OwnersWithin(lower, files, n, 0));
    } else {
      WalkOnTrack(lower, files, n, m - 1, slots);
      StepOnTrack(lower, files, n, m - 1, Walked(lower, slots, Tokens(files[n].path), m - 1, n, files[n].size));
    }
  }

  /** For any list the tree has exactly the plain nodes that have an owner, each as its owner makes it. */
  lemma {:induction false} BuildExact(lower: Lower, files: seq<Listed>, n: nat)
    requires n <= |files|
    ensures Exact(lower, files, Build(lower, files[..n]), OwnersOf(lower, files, n))
  {
    if n == 0 {
      assert [ROOT][0].key == [];
    } else {
      var m := n - 1;
      BuildExact(lower, files, m);
      assert files[..n][..m] == files[..m];
      var tokens := Tokens(files[m].path);
      WalkOnTrack(lower, files, m, |tokens|, Build(lower, files[..m]));
      forall k ensures OwnersOf(lower, files, n)(k) == OwnersWithin(lower, files, m, |tokens|)(k) {
        OwnersStart(lower, files, m, k);
      }
      SameOwners(lower, files, Build(lower, files[..n]), OwnersWithin(lower, files, m, |tokens|),
                 OwnersOf(lower, files, n));
    }
  }

  // ---- What a lookup means in the list ----

  datatype Resolution = File(index: int, size: nat) | Directory | Missing

  /** What a key without handles resolves to in a list of files. */
  ghost function Meaning(lower: Lower, files: seq<Listed>, k: Key): Resolution {
    if k == [] then Directory
    else
      match Owner(lower, files, |files|, k)
      case None => Missing
      case Some(j) => if j < |files| && k == FileKey(lower, files[j]) then File(j, files[j].size) else Directory
  }

  function ResolutionOf(s: Slot): Resolution {
    if s.isDir then Directory else File(s.index, s.size)
  }

  /** The tree agrees with the flat list, whatever the list: each slot a lookup can reach means what its key says, and
      a key has a slot if and only if it does not mean Missing. */
  lemma {:induction false} TreeAgrees(lower: Lower, files: seq<Listed>, k: Key)
    requires Plain(k)
    ensures var slots := Build(lower, files);
            && (HasKey(slots, k) <==> Meaning(lower, files, k) != Missing)
            && (forall i :: 0 <= i < |slots| && slots[i].key == k ==>
                              ResolutionOf(slots[i]) == Meaning(lower, files, k))
  {
    var slots, own := Build(lower, files), OwnersOf(lower, files, |files|);
    assert files[..|files|] == files;
    BuildExact(lower, files, |files|);
    assert own(k) == Owner(lower, files, |files|, k);
    forall i | 0 <= i < |slots| && slots[i].key == k ensures ResolutionOf(slots[i]) == Meaning(lower, files, k) {
      assert SlotExact(lower, files, slots[i], own);
    }
  }

  /** No path is a prefix of another once names are clipped and folded. */
  ghost predicate PrefixFree(lower: Lower, files: seq<Listed>) {
    (forall i, j :: 0 <= i < |files| && 0 <= j < |files| && i != j ==>
                      !(FileKey(lower, files[i]) <= FileKey(lower, files[j]))) &&
    forall i :: 0 <= i < |files| ==> FileKey(lower, files[i]) != []
  }

  lemma {:induction false} OwnerReaches(lower: Lower, files: seq<Listed>, n: nat, k: Key)
    requires n <= |files|
    ensures var j := Owner(lower, files, n, k);
            j.Some? ==> j.value < n && k <= FileKey(lower, files[j.value]) && Surfaces(lower, files, j.value, |k|)
  {
    if n > 0 {
      OwnerReaches(lower, files, n - 1, k);
    }
  }

  lemma {:induction false} OwnerFound(lower: Lower, files: seq<Listed>, n: nat, i: nat, k: Key)
    requires i < n <= |files| && k != [] && k <= FileKey(lower, files[i]) && Surfaces(lower, files, i, |k|)
    ensures Owner(lower, files, n, k).Some?
  {
    if i < n - 1 {
      OwnerFound(lower, files, n - 1, i, k);
    }
  }

  /** In a prefix-free list a key means file i if and only if it is the key of file i and that surfaces. */
  lemma {:induction false} MeansFile(lower: Lower, files: seq<Listed>, i: nat, k: Key)
    requires i < |files| && PrefixFree(lower, files)
    ensures Meaning(lower, files, k) == File(i, files[i].size) <==>
            k == FileKey(lower, files[i]) && Surfaces(lower, files, i, |k|)
  {
    var own := FileKey(lower, files[i]);
    OwnerReaches(lower, files, |files|, k);
    if k == own && Surfaces(lower, files, i, |k|) {
      OwnerFound(lower, files, |files|, i, k);
      var j := Owner(lower, files, |files|, k).value;
      assert j == i;
    }
  }

  lemma {:induction false} ShortSurfaces(lower: Lower, files: seq<Listed>, i: nat)
    requires i < |files| && Short(Tokens(files[i].path))
    ensures Surfaces(lower, files, i, |Tokens(files[i].path)|)
  {
  }

  // ---- Backslashes ----

  lemma {:induction false} UnitInToken(s: Text, u: nat) returns (m: nat)
    requires u in s && u != SLASH
    ensures m < |Tokens(s)| && u in Tokens(s)[m]
    decreases |s|
  {
    if s[0] == SLASH {
      assert u in s[1..];
      m := UnitInToken(s[1..], u);
    } else {
      var n := UntilSlash(s);
      if u in s[..n] {
        m := 0;
      } else {
        assert s == s[..n] + s[n..];
        m := UnitInToken(s[n..], u);
        m := m + 1;
      }
    }
  }

  lemma {:induction false} TokenUnits(s: Text, m: nat)
    requires m < |Tokens(s)|
    ensures forall u :: u in Tokens(s)[m] ==> u in s
    decreases |s|
  {
    if s[0] == SLASH {
      TokenUnits(s[1..], m);
    } else if m > 0 {
      TokenUnits(s[UntilSlash(s)..], m - 1);
    }
  }

  /** No other unit is equal to a backslash up to case. */
  ghost predicate BackslashAlone(lower: Lower) {
    forall u: nat :: lower(u) == lower(BACKSLASH) ==> u == BACKSLASH
  }

  lemma NormalizedHasNone(path: Text)
    ensures BACKSLASH !in Normalized(path)
    ensures BACKSLASH !in path ==> Normalized(path) == path
  {
  }

  lemma FoldedApart(lower: Lower, s: Text, t: Text)
    requires BACKSLASH in s && BACKSLASH !in t && BackslashAlone(lower)
    ensures Folded(lower, s) != Folded(lower, Clip(t, NAME_MAX))
  {
    var i :| 0 <= i < |s| && s[i] == BACKSLASH;
    assert Folded(lower, s)[i] == lower(BACKSLASH);
    var c := Clip(t, NAME_MAX);
    if i < |c| {
      assert c[i] == t[i] && t[i] in t;
      assert Folded(lower, c)[i] == lower(c[i]);
    }
  }

  /** A stored name a lookup can ask for: no backslash among the units that are stored, and nothing but backslashes in
      what is clipped off. */
  predicate Kept(t: Text) {
    BACKSLASH !in Clip(t, NAME_MAX) && forall i :: NAME_MAX - 1 <= i < |t| ==> t[i] == BACKSLASH
  }

  predicate AllKept(tokens: seq<Text>) {
    forall m :: 0 <= m < |tokens| ==> Kept(tokens[m])
  }

  /** The components a stored name falls into when its backslashes count as slashes. */
  function Pieces(t: Text): seq<Text> {
    Tokens(Normalized(t))
  }

  function AllPieces(tokens: seq<Text>): seq<Text> {
    if tokens == [] then [] else Pieces(tokens[0]) + AllPieces(tokens[1..])
  }

  lemma {:induction false} UntilSplit(a: Text, b: Text)
    requires b == [] || b[0] == SLASH
    ensures UntilSlash(a + b) == UntilSlash(a)
    decreases |a|
  {
    if a == [] {
      assert a + b == b;
    } else {
      assert (a + b)[1..] == a[1..] + b;
      UntilSplit(a[1..], b);
    }
  }

  lemma {:induction false} TokensSplit(a: Text, b: Text)
    requires b == [] || b[0] == SLASH
    ensures Tokens(a + b) == Tokens(a) + Tokens(b)
    decreases |a|
  {
    if a == [] {
      assert a + b == b;
    } else if a[0] == SLASH {
      assert (a + b)[1..] == a[1..] + b;
      TokensSplit(a[1..], b);
    } else {
      var n := UntilSlash(a);
      UntilSplit(a, b);
      assert (a + b)[..n] == a[..n] && (a + b)[n..] == a[n..] + b;
      TokensSplit(a[n..], b);
    }
  }

  /** What the components of a path are: those before a slash and those after it, and what has no slash is one. */
  lemma {:induction false} TokensAre(a: Text, b: Text)
    ensures Tokens([]) == [] && Tokens(a + [47] + b) == Tokens(a) + Tokens(b)
    ensures a != [] && 47 !in a ==> Tokens(a) == [a]
  {
    assert a + [47] + b == a + ([47] + b) && ([47] + b)[1..] == b;
    TokensSplit(a, [47] + b);
    if a != [] && 47 !in a {
      assert UntilSlash(a) == |a| && a[..|a|] == a && a[|a|..] == [];
    }
  }

  lemma NormalizedSplit(a: Text, b: Text)
    ensures Normalized(a + b) == Normalized(a) + Normalized(b)
  {
  }

  /** A lookup asks for the pieces of the stored names. */
  lemma {:induction false} LookupPieces(s: Text)
    ensures Tokens(Normalized(s)) == AllPieces(Tokens(s))
    decreases |s|
  {
    if s != [] {
      if s[0] == SLASH {
        assert Normalized(s)[1..] == Normalized(s[1..]);
        LookupPieces(s[1..]);
      } else {
        var n := UntilSlash(s);
        assert s == s[..n] + s[n..];
        NormalizedSplit(s[..n], s[n..]);
        TokensSplit(Normalized(s[..n]), Normalized(s[n..]));
        LookupPieces(s[n..]);
        assert Tokens(s)[1..] == Tokens(s[n..]);
      }
    }
  }

  /** A stored name is not empty and has no slash. */
  predicate Component(t: Text) {
    t != [] && SLASH !in t
  }

  lemma {:induction false} TokenIsComponent(s: Text, m: nat)
    requires m < |Tokens(s)|
    ensures Component(Tokens(s)[m])
    decreases |s|
  {
    if s[0] == SLASH {
      TokenIsComponent(s[1..], m);
    } else if m > 0 {
      TokenIsComponent(s[UntilSlash(s)..], m - 1);
    }
  }

  predicate OnlySlashes(s: Text) {
    forall i :: 0 <= i < |s| ==> s[i] == SLASH
  }

  lemma {:induction false} NoTokens(s: Text)
    ensures Tokens(s) == [] <==> OnlySlashes(s)
    decreases |s|
  {
    if s != [] && s[0] == SLASH {
      NoTokens(s[1..]);
    }
  }

  /** The first piece of a name that does not start with a backslash ends before the first backslash. */
  lemma {:induction false} FirstPiece(t: Text)
    requires Component(t) && t[0] != BACKSLASH
    ensures var n := UntilSlash(Normalized(t));
            && n <= |t| && Pieces(t) == [t[..n]] + Tokens(Normalized(t)[n..])
            && (forall i :: 0 <= i < n ==> t[i] != BACKSLASH) && (n < |t| ==> t[n] == BACKSLASH)
  {
    var n := UntilSlash(Normalized(t));
    forall i | 0 <= i < n ensures t[i] != BACKSLASH && Normalized(t)[i] == t[i] {
    }
    assert Normalized(t)[..n] == t[..n];
    assert t[0] in t;
    if n < |t| {
      assert t[n] in t;
    }
  }

  /** A kept name is a single piece: what is stored of it. */
  lemma {:induction false} KeptPiece(t: Text)
    requires Component(t) && Kept(t)
    ensures Pieces(t) == [Clip(t, NAME_MAX)]
  {
    var c := Clip(t, NAME_MAX);
    assert c[0] == t[0] && c[0] in c;
    FirstPiece(t);
    var n := UntilSlash(Normalized(t));
    assert forall i :: 0 <= i < |c| ==> c[i] in c && t[i] != BACKSLASH;
    assert |c| < |t| ==> t[|c|] == BACKSLASH;
    assert n == |c|;
    assert t[..n] == c;
    assert OnlySlashes(Normalized(t)[n..]);
    NoTokens(Normalized(t)[n..]);
    assert Pieces(t) == [c] + [];
  }

  /** A name that is a single short piece and does not show a backslash is kept. */
  lemma {:induction false} PieceKept(t: Text)
    requires Component(t) && BACKSLASH !in Clip(t, NAME_MAX) && |Pieces(t)| == 1 && |Pieces(t)[0]| < NAME_MAX
    ensures Kept(t)
  {
    var c := Clip(t, NAME_MAX);
    assert c[0] == t[0] && c[0] in c;
    FirstPiece(t);
    var n := UntilSlash(Normalized(t));
    NoTokens(Normalized(t)[n..]);
    assert OnlySlashes(Normalized(t)[n..]);
    forall i | NAME_MAX - 1 <= i < |t| ensures t[i] == BACKSLASH {
      assert Normalized(t)[n..][i - n] == SLASH;
      assert t[i] in t;
    }
  }

  lemma MappedFirst(f: Text -> Part, s: seq<Text>)
    requires s != []
    ensures Mapped(f, s) == [f(s[0])] + Mapped(f, s[1..])
  {
  }

  lemma {:induction false} KeptPieces(lower: Lower, tokens: seq<Text>)
    requires forall m :: 0 <= m < |tokens| ==> Component(tokens[m]) && Kept(tokens[m])
    ensures Short(AllPieces(tokens)) && KeyOf(lower, AllPieces(tokens)) == KeyOf(lower, tokens)
  {
    if tokens != [] {
      KeptPieces(lower, tokens[1..]);
      KeptPiece(tokens[0]);
      var c, rest := Clip(tokens[0], NAME_MAX), AllPieces(tokens[1..]);
      assert AllPieces(tokens) == [c] + rest;
      assert ([c] + rest)[1..] == rest;
      MappedFirst(PartOf(lower), [c] + rest);
      MappedFirst(PartOf(lower), tokens);
    }
  }

  /** As many pieces as names, and none without a piece: one piece for each name. */
  lemma {:induction false} OnePieceEach(tokens: seq<Text>)
    requires forall m :: 0 <= m < |tokens| ==> Pieces(tokens[m]) != []
    ensures |AllPieces(tokens)| >= |tokens|
    ensures |AllPieces(tokens)| == |tokens| ==>
              forall m :: 0 <= m < |tokens| ==> Pieces(tokens[m]) == [AllPieces(tokens)[m]]
  {
    if tokens != [] {
      OnePieceEach(tokens[1..]);
      if |AllPieces(tokens)| == |tokens| {
        assert Pieces(tokens[0]) == [AllPieces(tokens)[0]];
        assert AllPieces(tokens)[1..] == AllPieces(tokens[1..]);
      }
    }
  }

  /** No stored name shows a backslash when it is found under the pieces. */
  lemma {:induction false} NoneShown(lower: Lower, tokens: seq<Text>, lookup: seq<Text>, m: nat)
    requires KeyOf(lower, lookup) == KeyOf(lower, tokens) && m < |tokens| && m < |lookup| && BackslashAlone(lower)
    requires BACKSLASH !in lookup[m]
    ensures BACKSLASH !in Clip(tokens[m], NAME_MAX)
  {
    assert KeyOf(lower, tokens)[m] == Name(Folded(lower, Clip(tokens[m], NAME_MAX)));
    assert KeyOf(lower, lookup)[m] == Name(Folded(lower, Clip(lookup[m], NAME_MAX)));
    if BACKSLASH in Clip(tokens[m], NAME_MAX) {
      FoldedApart(lower, Clip(tokens[m], NAME_MAX), lookup[m]);
    }
  }

  lemma {:induction false} FoundKept(lower: Lower, path: Text, m: nat)
    requires |path| < PATH_MAX && BackslashAlone(lower) && Short(LookupTokens(path))
    requires KeyOf(lower, LookupTokens(path)) == KeyOf(lower, Tokens(path)) && m < |Tokens(path)|
    ensures Kept(Tokens(path)[m])
  {
    var tokens, lookup := Tokens(path), LookupTokens(path);
    NormalizedHasNone(path);
    LookupPieces(path);
    assert |lookup| == |KeyOf(lower, lookup)| == |tokens|;
    forall i | 0 <= i < |tokens|
      ensures Component(tokens[i]) && BACKSLASH !in Clip(tokens[i], NAME_MAX) && Pieces(tokens[i]) != []
    {
      TokenIsComponent(path, i);
      TokenUnits(Normalized(path), i);
      NoneShown(lower, tokens, lookup, i);
      assert Clip(tokens[i], NAME_MAX)[0] in Clip(tokens[i], NAME_MAX);
      FirstPiece(tokens[i]);
    }
    OnePieceEach(tokens);
    PieceKept(tokens[m]);
  }

  /** A path is looked up under its own key if and only if all its names are kept. */
  lemma {:induction false} OwnKey(lower: Lower, path: Text)
    requires |path| < PATH_MAX && BackslashAlone(lower)
    ensures Short(LookupTokens(path)) && KeyOf(lower, LookupTokens(path)) == KeyOf(lower, Tokens(path))
            <==> AllKept(Tokens(path))
  {
    LookupPieces(path);
    if AllKept(Tokens(path)) {
      forall m | 0 <= m < |Tokens(path)| ensures Component(Tokens(path)[m]) {
        TokenIsComponent(path, m);
      }
      KeptPieces(lower, Tokens(path));
    } else if Short(LookupTokens(path)) && KeyOf(lower, LookupTokens(path)) == KeyOf(lower, Tokens(path)) {
      forall m | 0 <= m < |Tokens(path)| ensures Kept(Tokens(path)[m]) {
        FoundKept(lower, path, m);
      }
    }
  }

  /** Short names are kept unless there is a backslash, and without a backslash only short ones are. */
  lemma {:induction false} KeptNames(path: Text)
    ensures Short(Tokens(path)) ==> (AllKept(Tokens(path)) <==> BACKSLASH !in path)
    ensures BACKSLASH !in path ==> (AllKept(Tokens(path)) <==> Short(Tokens(path)))
  {
    forall m | 0 <= m < |Tokens(path)| ensures BACKSLASH in Tokens(path)[m] ==> BACKSLASH in path {
      TokenUnits(path, m);
    }
    if BACKSLASH in path && Short(Tokens(path)) {
      var m := UnitInToken(path, BACKSLASH);
      assert !Kept(Tokens(path)[m]);
    }
    if BACKSLASH !in path && !Short(Tokens(path)) {
      var m :| 0 <= m < |Tokens(path)| && |Tokens(path)[m]| >= NAME_MAX;
      assert Tokens(path)[m][NAME_MAX - 1] in Tokens(path)[m];
    }
  }

  /** The lookup of a path: missing when a name is too long, else what its key means. */
  ghost function Found(lower: Lower, files: seq<Listed>, path: Text): Resolution {
    if Short(LookupTokens(path)) then Meaning(lower, files, KeyOf(lower, LookupTokens(path))) else Missing
  }

  /** In a prefix-free list file i is found under its own path if and only if all its names are kept and none of the
      long ones hides behind the node of an earlier file. With short names that means: no backslash; without a
      backslash: no long name. */
  lemma {:induction false} OwnPath(lower: Lower, files: seq<Listed>, i: nat)
    requires i < |files| && |files[i].path| < PATH_MAX && PrefixFree(lower, files) && BackslashAlone(lower)
    ensures var path := files[i].path;
            var found := Found(lower, files, path) == File(i, files[i].size);
            && (found <==> AllKept(Tokens(path)) && Surfaces(lower, files, i, |Tokens(path)|))
            && (Short(Tokens(path)) ==> (found <==> BACKSLASH !in path))
            && (BACKSLASH !in path ==> (found <==> Short(Tokens(path))))
  {
    var path := files[i].path;
    OwnKey(lower, path);
    KeptNames(path);
    MeansFile(lower, files, i, KeyOf(lower, LookupTokens(path)));
    if Short(Tokens(path)) {
      ShortSurfaces(lower, files, i);
    }
  }

  // ---- Other spellings of a path ----

  /** As many names, each equal up to case. */
  ghost predicate SameNames(lower: Lower, a: seq<Text>, b: seq<Text>) {
    |a| == |b| && forall m :: 0 <= m < |a| ==> EqualUpToCase(lower, a[m], b[m])
  }

  /** Short names make the same key exactly if they are the same up to case. */
  lemma SameKeysIff(lower: Lower, a: seq<Text>, b: seq<Text>)
    requires (forall m :: 0 <= m < |a| ==> |a[m]| < 256) && forall m :: 0 <= m < |b| ==> |b[m]| < 256
    ensures KeyOf(lower, a) == KeyOf(lower, b) <==> SameNames(lower, a, b)
  {
    if |a| == |b| {
      forall m | 0 <= m < |a| ensures KeyOf(lower, a)[m] == KeyOf(lower, b)[m] <==> EqualUpToCase(lower, a[m], b[m]) {
        FoldedIff(lower, a[m], b[m]);
      }
    } else {
      assert |KeyOf(lower, a)| != |KeyOf(lower, b)|;
    }
  }

  /** Slashes at the same places, and equal up to case elsewhere. */
  ghost predicate Alike(lower: Lower, s: Text, t: Text) {
    && |s| == |t|
    && forall i :: 0 <= i < |s| ==> (s[i] == 47 <==> t[i] == 47) && (s[i] != 47 ==> lower(s[i]) == lower(t[i]))
  }

  lemma {:induction false} AlikeUntil(lower: Lower, s: Text, t: Text)
    requires Alike(lower, s, t)
    ensures UntilSlash(s) == UntilSlash(t)
  {
    if s != [] && s[0] != SLASH {
      AlikeUntil(lower, s[1..], t[1..]);
    }
  }

  lemma {:induction false} AlikeTokens(lower: Lower, s: Text, t: Text)
    requires Alike(lower, s, t)
    ensures SameNames(lower, Tokens(s), Tokens(t))
    decreases |s|
  {
    if s != [] {
      if s[0] == SLASH {
        AlikeTokens(lower, s[1..], t[1..]);
      } else {
        AlikeUntil(lower, s, t);
        var n := UntilSlash(s);
        AlikeTokens(lower, s[n..], t[n..]);
      }
    }
  }

  /** Another spelling of a path: slashes and backslashes stand for each other, and case does not matter. */
  ghost predicate Respelled(lower: Lower, a: Text, b: Text) {
    && |a| == |b|
    && forall i :: 0 <= i < |a| ==>
                     if a[i] == 47 || a[i] == 92 then b[i] == 47 || b[i] == 92
                     else b[i] != 47 && b[i] != 92 && lower(a[i]) == lower(b[i])
  }

  lemma {:induction false} RespelledTokens(lower: Lower, a: Text, b: Text)
    requires Respelled(lower, a, b)
    ensures SameNames(lower, LookupTokens(a), LookupTokens(b))
    ensures 92 !in a ==> SameNames(lower, Tokens(a), Tokens(Normalized(b)))
  {
    AlikeTokens(lower, Normalized(Clip(a, PATH_MAX)), Normalized(Clip(b, PATH_MAX)));
    if 92 !in a {
      NormalizedHasNone(a);
      AlikeTokens(lower, a, Normalized(b));
    }
  }

  /** A lookup sees the first 1023 units of a path. */
  lemma LookupSees(path: Text)
    ensures |path| < 1024 ==> LookupTokens(path) == Tokens(Normalized(path))
    ensures |path| >= 1024 ==> LookupTokens(path) == Tokens(Normalized(path[..1023]))
  {
  }

  /** How a path is spelled does not matter to a lookup. */
  lemma SpellingIrrelevant(lower: Lower, files: seq<Listed>, a: Text, b: Text)
    requires Respelled(lower, a, b)
    ensures Found(lower, files, a) == Found(lower, files, b)
  {
    RespelledTokens(lower, a, b);
    var s, t := LookupTokens(a), LookupTokens(b);
    assert Short(s) <==> Short(t) by {
      assert forall m :: 0 <= m < |s| ==> EqualUpToCase(lower, s[m], t[m]);
    }
    if Short(s) {
      SameKeysIff(lower, s, t);
    }
  }

  ghost predicate AllShort(files: seq<Listed>) {
    forall i :: 0 <= i < |files| ==> Short(Tokens(files[i].path))
  }

  /** The names of file i are, up to case, the first names of file j. */
  ghost predicate LeadsInto(lower: Lower, files: seq<Listed>, i: nat, j: nat)
    requires i < |files| && j < |files|
  {
    var a, b := Tokens(files[i].path), Tokens(files[j].path);
    |a| <= |b| && forall m :: 0 <= m < |a| ==> EqualUpToCase(lower, a[m], b[m])
  }

  /** With short names a list is prefix-free exactly if every path has a name and none leads into another. */
  lemma PrefixFreeIff(lower: Lower, files: seq<Listed>)
    requires AllShort(files)
    ensures PrefixFree(lower, files) <==>
            && (forall i :: 0 <= i < |files| ==> Tokens(files[i].path) != [])
            && forall i, j :: 0 <= i < |files| && 0 <= j < |files| && i != j ==> !LeadsInto(lower, files, i, j)
  {
    forall i, j | 0 <= i < |files| && 0 <= j < |files|
      ensures LeadsInto(lower, files, i, j) <==> FileKey(lower, files[i]) <= FileKey(lower, files[j])
    {
      PrefixKeys(lower, Tokens(files[i].path), Tokens(files[j].path));
    }
  }

  lemma PrefixKeys(lower: Lower, a: seq<Text>, b: seq<Text>)
    requires Short(a) && Short(b)
    ensures KeyOf(lower, a) <= KeyOf(lower, b) <==>
            |a| <= |b| && forall m :: 0 <= m < |a| ==> EqualUpToCase(lower, a[m], b[m])
  {
    if |a| <= |b| {
      SameKeysIff(lower, a, b[..|a|]);
      assert KeyOf(lower, b[..|a|]) == KeyOf(lower, b)[..|a|];
      assert KeyOf(lower, a) <= KeyOf(lower, b) <==> KeyOf(lower, a) == KeyOf(lower, b)[..|a|];
    }
  }

  /** In a prefix-free list the paths that lead to file i are those with the names of its path up to case. */
  lemma {:induction false} FoundIff(lower: Lower, files: seq<Listed>, i: nat, path: Text)
    requires i < |files| && PrefixFree(lower, files) && Short(Tokens(files[i].path))
    ensures Found(lower, files, path) == File(i, files[i].size) <==>
            SameNames(lower, LookupTokens(path), Tokens(files[i].path))
  {
    var s, t := LookupTokens(path), Tokens(files[i].path);
    if Short(s) {
      MeansFile(lower, files, i, KeyOf(lower, s));
      ShortSurfaces(lower, files, i);
      SameKeysIff(lower, s, t);
    } else {
      var m :| 0 <= m < |s| && |s[m]| >= NAME_MAX;
      assert m < |t| ==> !EqualUpToCase(lower, s[m], t[m]);
    }
  }

  /** Every other spelling of a file's path leads to the file. */
  lemma {:induction false} RespelledFound(lower: Lower, files: seq<Listed>, i: nat, path: Text)
    requires i < |files| && PrefixFree(lower, files) && Short(Tokens(files[i].path)) && |files[i].path| < 1024
    requires 92 !in files[i].path && Respelled(lower, files[i].path, path)
    ensures Found(lower, files, path) == File(i, files[i].size)
  {
    RespelledTokens(lower, files[i].path, path);
    FoundIff(lower, files, i, path);
  }

  lemma AnySpelling(lower: Lower, files: seq<Listed>, path: Text)
    requires PrefixFree(lower, files) && forall i :: 0 <= i < |files| ==> |files[i].path| < PATH_MAX
    ensures forall i :: 0 <= i < |files| && Short(Tokens(files[i].path)) ==>
              (Found(lower, files, path) == File(i, files[i].size) <==>
                 SameNames(lower, LookupTokens(path), Tokens(files[i].path))) &&
              (92 !in files[i].path && Respelled(lower, files[i].path, path) ==>
                 Found(lower, files, path) == File(i, files[i].size))
  {
    forall i | 0 <= i < |files| && Short(Tokens(files[i].path))
      ensures Found(lower, files, path) == File(i, files[i].size) <==>
              SameNames(lower, LookupTokens(path), Tokens(files[i].path))
      ensures 92 !in files[i].path && Respelled(lower, files[i].path, path) ==>
                Found(lower, files, path) == File(i, files[i].size)
    {
      FoundIff(lower, files, i, path);
      if 92 !in files[i].path && Respelled(lower, files[i].path, path) {
        RespelledFound(lower, files, i, path);
      }
    }
  }

  /** The first n names of file i are these up to case. */
  ghost predicate StartsWith(lower: Lower, files: seq<Listed>, i: nat, n: nat, names: seq<Text>) {
    i < |files| && n < |Tokens(files[i].path)| && SameNames(lower, names, Tokens(files[i].path)[..n])
  }

  lemma StartsWithIff(lower: Lower, files: seq<Listed>, i: nat, names: seq<Text>)
    requires i < |files| && AllShort(files) && Short(names) && names != []
    ensures var k := KeyOf(lower, names);
            k <= FileKey(lower, files[i]) && k != FileKey(lower, files[i]) <==>
            StartsWith(lower, files, i, |names|, names)
  {
    var t, k := Tokens(files[i].path), KeyOf(lower, names);
    if |names| <= |t| {
      SameKeysIff(lower, names, t[..|names|]);
      assert KeyOf(lower, t[..|names|]) == KeyOf(lower, t)[..|names|];
    }
  }

  /** In a prefix-free list of short names the directories are the root and the proper prefixes of the paths, up to
      case. */
  lemma {:induction false} DirectoryIff(lower: Lower, files: seq<Listed>, path: Text)
    requires PrefixFree(lower, files) && AllShort(files)
    ensures Found(lower, files, path) == Directory <==>
            LookupTokens(path) == []
            || exists i: nat, n: nat :: StartsWith(lower, files, i, n, LookupTokens(path))
  {
    var names := LookupTokens(path);
    var k := KeyOf(lower, names);
    if i: nat, n: nat :| StartsWith(lower, files, i, n, names) {
      var t := Tokens(files[i].path);
      assert Short(names) by {
        assert forall m :: 0 <= m < n ==> EqualUpToCase(lower, names[m], t[..n][m]);
      }
      if names != [] {
        StartsWithIff(lower, files, i, names);
        PrefixIsDirectory(lower, files, i, k);
      }
    } else if Short(names) && names != [] {
      OwnerReaches(lower, files, |files|, k);
      if Found(lower, files, path) == Directory {
        var j := Owner(lower, files, |files|, k).value;
        StartsWithIff(lower, files, j, names);
      }
    }
  }

  lemma {:induction false} PrefixIsDirectory(lower: Lower, files: seq<Listed>, i: nat, k: Key)
    requires PrefixFree(lower, files) && AllShort(files) && i < |files|
    requires k != [] && k <= FileKey(lower, files[i]) && k != FileKey(lower, files[i])
    ensures Meaning(lower, files, k) == Directory
  {
    OwnerFound(lower, files, |files|, i, k);
    OwnerReaches(lower, files, |files|, k);
    assert Owner(lower, files, |files|, k).value < |files|;
  }

  lemma {:induction false} OneToken(s: Text)
    requires s != [] && SLASH !in s
    ensures UntilSlash(s) == |s| && Tokens(s) == [s] && Tokens(s + [SLASH]) == [s]
  {
    var t := s + [SLASH];
    assert UntilSlash(s) == |s|;
    assert s[..|s|] == s && s[|s|..] == [];
    assert t[|s|] == SLASH && forall i :: 0 <= i < |s| ==> t[i] == s[i];
    assert UntilSlash(t) == |s|;
    assert t[..|s|] == s && t[|s|..] == [SLASH];
    assert [SLASH][1..] == [];
    assert Tokens([SLASH]) == [];
  }

  lemma {:induction false} ClippedTokens(name: Text)
    requires |name| == NAME_MAX - 1 && SLASH !in name && BACKSLASH !in name
    ensures Tokens(name + [BACKSLASH]) == [name + [BACKSLASH]] && LookupTokens(name + [BACKSLASH]) == [name]
  {
    OneToken(name + [BACKSLASH]);
    OneToken(name);
    assert Normalized(name + [BACKSLASH]) == name + [SLASH];
  }

  /** A path with a long name and a backslash that is found all the same: a name of 255 units and a backslash. The
      stored name is clipped before the backslash, and the lookup drops it. */
  lemma {:induction false} ClippedBackslash(lower: Lower, name: Text, size: nat)
    requires |name| == 255 && SLASH !in name && BACKSLASH !in name
    ensures var path := name + [BACKSLASH];
            && !Short(Tokens(path)) && BACKSLASH in path
            && Found(lower, [Listed(path, size)], path) == File(0, size)
  {
    var path := name + [BACKSLASH];
    var files := [Listed(path, size)];
    ClippedTokens(name);
    assert path[|name|] == BACKSLASH && |Tokens(path)[0]| == NAME_MAX;
    assert Clip(path, NAME_MAX) == name == Clip(name, NAME_MAX);
    var k := FileKey(lower, files[0]);
    assert k == KeyOf(lower, LookupTokens(path));
    assert Owner(lower, files, 0, k).None?;
    assert Surfaces(lower, files, 0, 1);
    assert Owner(lower, files, 1, k) == Some(0);
  }

  // ---- The C code ----

  /** Builds the tree of a list, inserting the files in order. */
  method BuildTree(lower: Lower, files: seq<Listed>) returns (tree: Tree)
    requires forall i :: 0 <= i < |files| ==> |files[i].path| < PATH_MAX
    ensures fresh(tree) && tree.Valid() && tree.lower == lower && tree.slots == Build(lower, files)
  {
    tree := new Tree(lower);
    for i := 0 to |files|
      invariant fresh(tree) && tree.Valid() && tree.lower == lower && tree.slots == Build(lower, files[..i])
    {
      assert files[..i + 1][..i] == files[..i];
      tree.Insert(files[i].path, i, files[i].size);
    }
    assert files[..|files|] == files;
  }

  lemma LookupPlain(lower: Lower, tokens: seq<Text>)
    ensures Plain(KeyOf(lower, tokens))
  {
  }

  /** Looking a path up in the tree of a list: a path with a long name is missing, and any other resolves to exactly
      what its key means. In a prefix-free list a file is found under its own path if and only if all its names are
      kept and none of the long ones hides: with short names, if and only if it holds no backslash, and without a
      backslash, if and only if its names are short. */
  method Resolve(lower: Lower, files: seq<Listed>, path: Text) returns (found: Resolution)
    requires forall i :: 0 <= i < |files| ==> |files[i].path| < PATH_MAX
    ensures found == Found(lower, files, path)
    ensures forall q :: Respelled(lower, path, q) ==> found == Found(lower, files, q)
    ensures PrefixFree(lower, files) ==>
              forall i :: 0 <= i < |files| && Short(Tokens(files[i].path)) ==>
                (found == File(i, files[i].size) <==> SameNames(lower, LookupTokens(path), Tokens(files[i].path))) &&
                (92 !in files[i].path && Respelled(lower, files[i].path, path) ==> found == File(i, files[i].size))
    ensures PrefixFree(lower, files) && BackslashAlone(lower) ==>
              forall i :: 0 <= i < |files| && path == files[i].path ==>
                && (found == File(i, files[i].size) <==>
                    AllKept(Tokens(path)) && Surfaces(lower, files, i, |Tokens(path)|))
                && (Short(Tokens(path)) ==> (found == File(i, files[i].size) <==> BACKSLASH !in path))
                && (BACKSLASH !in path ==> (found == File(i, files[i].size) <==> Short(Tokens(path))))
  {
    var tree := BuildTree(lower, files);
    var node := tree.Find(path);
    LookupPlain(lower, LookupTokens(path));
    TreeAgrees(lower, files, KeyOf(lower, LookupTokens(path)));
    if node.None? {
      found := Missing;
    } else {
      var n := tree.nodes[node.value];
      assert SameInfo(n, tree.slots[node.value]);
      found := if n.isDir then Directory else File(n.index, n.size);
    }
    forall q | Respelled(lower, path, q) ensures found == Found(lower, files, q) {
      SpellingIrrelevant(lower, files, path, q);
    }
    if PrefixFree(lower, files) {
      AnySpelling(lower, files, path);
    }
    if PrefixFree(lower, files) && BackslashAlone(lower) {
      forall i | 0 <= i < |files| && path == files[i].path
        ensures found == File(i, files[i].size) <==>
                AllKept(Tokens(path)) && Surfaces(lower, files, i, |Tokens(path)|)
        ensures Short(Tokens(path)) ==> (found == File(i, files[i].size) <==> BACKSLASH !in path)
        ensures BACKSLASH !in path ==> (found == File(i, files[i].size) <==> Short(Tokens(path)))
      {
        OwnPath(lower, files, i);
      }
    }
  }
}
