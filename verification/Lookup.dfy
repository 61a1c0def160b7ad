/** The tries on the heap, and the routing-table scan: pointer walks with a shifting probe. */
module Lookup {
  import opened Tries
  import opened Bits

  datatype RouterEntry = RouterEntry(net: Word, prefixLen: nat, port: int)
  {
    predicate Valid() { prefixLen <= 32 }

    function ToEntry(): Entry
      requires prefixLen <= 32
    {
      Entry(net[..prefixLen], port)
    }
  }

  /** What one turn of add_node finds: the path so far, grown by the bit probed. */
  lemma OneBitOn(entry: RouterEntry, i: nat)
    requires entry.Valid() && 1 <= i <= entry.prefixLen
    ensures var e := entry.ToEntry();
            && entry.net[..i] == entry.net[..i - 1] + [And(entry.net, Probe(i - 1)) != ZERO]
            && e.path[..i] == entry.net[..i] && e.path[..i - 1] == entry.net[..i - 1]
  {
    ProbeTests(entry.net, i - 1);
  }

  const MAX_DEPTH := 32

  class TreeNode {
    var port: int
    var left: TreeNode?
    var right: TreeNode?
    // in the simple trie only
    var net: Word
    var prefixLen: nat
    var parent: TreeNode?

    constructor (port: int, net: Word, prefixLen: nat, parent: TreeNode?)
      ensures this.port == port && left == null && right == null
      ensures this.net == net && this.prefixLen == prefixLen && this.parent == parent
    {
      this.port, this.net, this.prefixLen, this.parent := port, net, prefixLen, parent;
      left, right := null, null;
    }
  }

  type Nodes = map<Path, TreeNode>

  ghost predicate ChildAt(nodes: Nodes, p: Path, b: bool)
    requires p in nodes
    reads nodes[p]
  {
    (if b then nodes[p].right else nodes[p].left) == if p + [b] in nodes then nodes[p + [b]] else null
  }

  /** The node of each path hangs where the path leads from the root. */
  ghost predicate Shaped(root: TreeNode, nodes: Nodes)
    reads nodes.Values
  {
    && [] in nodes && nodes[[]] == root
    && (forall p: Path, q: Path :: p in nodes && q in nodes && p != q ==> nodes[p] != nodes[q])
    && (forall p: Path, b :: p in nodes ==> ChildAt(nodes, p, b))
    && (forall p: Path {:trigger Above(nodes, p)} :: p in nodes && p != [] ==> Above(nodes, p))
    && (forall p: Path :: p in nodes ==> |p| <= MAX_DEPTH)
  }

  ghost predicate Above(nodes: Nodes, p: Path)
    requires p != []
  {
    Up(p) in nodes
  }

  ghost function PortsOf(nodes: Nodes): Ports
    reads nodes.Values
  {
    map p | p in nodes :: nodes[p].port
  }

  lemma ExtensionIsUnique(p: Path, q: Path, x: bool, y: bool)
    requires p + [x] == q + [y]
    ensures p == q && x == y
  {
    assert p == (p + [x])[..|p|] && q == (q + [y])[..|q|];
    assert x == (p + [x])[|p|] && y == (q + [y])[|q|];
  }

  /** Hangs a new node, without children of its own, below another. */
  method Hang(ghost root: TreeNode, ghost nodes: Nodes, ghost p: Path, b: bool, ptr: TreeNode, child: TreeNode)
    requires Shaped(root, nodes) && p in nodes && nodes[p] == ptr && p + [b] !in nodes && |p| < MAX_DEPTH
    requires child !in nodes.Values && child.left == null && child.right == null
    modifies ptr`left, ptr`right
    ensures Shaped(root, nodes[p + [b] := child])
  {
    ghost var more := nodes[p + [b] := child];
    assert forall q: Path :: q in nodes ==> nodes[q] in nodes.Values;
    forall c: bool ensures p + [b] + [c] !in more {
      assert Up(p + [b] + [c]) == p + [b] && |p + [b] + [c]| == |p + [b]| + 1;
      assert p + [b] + [c] in nodes ==> Above(nodes, p + [b] + [c]);
    }
    if b { ptr.right := child; } else { ptr.left := child; }
    forall q: Path, c | q in more ensures ChildAt(more, q, c) {
      if q != p + [b] {
        assert old(ChildAt(nodes, q, c));
        if q + [c] == p + [b] { ExtensionIsUnique(q, p, c, b); }
      }
    }
    forall q: Path | q in more && q != [] ensures Above(more, q) {
      if q == p + [b] { assert Up(q) == p; } else { assert Above(nodes, q); }
    }
  }

  // ------------------------------------------------------------------------ the simple trie

  /** The word that starts with a path and is zero from there on. */
  function Padded(p: Path): Word
    requires |p| <= 32
  {
    seq(32, k requires 0 <= k => k < |p| && p[k])
  }

  lemma MaskedIsPadded(w: Word, n: nat)
    requires 1 <= n <= 32
    ensures And(w, GetMask(n)) == Padded(w[..n])
  {
    GetMaskIsMask(n);
  }

  class SimpleTrie {
    const root: TreeNode
    /** What get_mask(0) yields is not defined: any word. */
    const rootMask: Word
    ghost var nodes: Nodes
    ghost var entries: seq<Entry>

    ghost predicate Valid()
      reads this, nodes.Values
    {
      Sound() && PortsOf(nodes) == BuildSimple(entries)
    }

    ghost predicate Sound()
      reads this`nodes, nodes.Values
    {
      && Shaped(root, nodes) && nodes[[]].net == ZERO
      && forall p: Path {:trigger NodeAt(p)} :: p in nodes && p != [] ==> NodeAt(p)
    }

    /** A node knows its parent and its own prefix. */
    ghost predicate NodeAt(p: Path)
      reads this`nodes, nodes.Values
      requires p in nodes && p != []
    {
      && Up(p) in nodes && nodes[p].parent == nodes[Up(p)]
      && |p| <= 32 && nodes[p].net == Padded(p)
    }

    constructor (rootMask: Word)
      ensures Valid() && entries == [] && fresh(nodes.Values)
    {
      this.rootMask := rootMask;
      root := new TreeNode(DEFAULT_PORT, ZERO, 0, null);
      new;
      nodes := map[[] := root];
      entries := [];
    }

    function MaskFor(len: nat): Word
    {
      if len == 0 then rootMask else GetMask(len)
    }

    method InsertTree(entry: RouterEntry, len: nat, parent: TreeNode) returns (node: TreeNode)
      requires 1 <= len
      ensures fresh(node) && node.left == null && node.right == null && node.parent == parent
      ensures node.port == if entry.prefixLen != len then UNSET else entry.port
      ensures node.net == And(entry.net, GetMask(len)) && node.prefixLen == len
    {
      node := new TreeNode(if entry.prefixLen != len then UNSET else entry.port,
                           And(entry.net, GetMask(len)), len, parent);
    }

    /** A missing child is made and hung below its parent. */
    method Grow(ptr: TreeNode, entry: RouterEntry, i: nat, ghost p: Path, b: bool) returns (child: TreeNode)
      requires Sound() && p in nodes && nodes[p] == ptr && p + [b] !in nodes && i == |p| + 1 <= MAX_DEPTH
      requires p + [b] == entry.net[..i]
      modifies this`nodes, ptr`left, ptr`right
      ensures Sound() && fresh(child) && nodes == old(nodes)[p + [b] := child]
      ensures child.port == if i == entry.prefixLen then entry.port else UNSET
    {
      child := InsertTree(entry, i, ptr);
      MaskedIsPadded(entry.net, i);
      Hang(root, nodes, p, b, ptr, child);
      nodes := nodes[p + [b] := child];
      forall q: Path | q in nodes && q != [] ensures NodeAt(q) {
        if q == p + [b] { assert Up(q) == p; } else { assert old(NodeAt(q)); }
      }
    }

    /** One level of the walk of add_node. */
    method Down(ptr: TreeNode, entry: RouterEntry, i: nat, ghost p: Path, b: bool) returns (next: TreeNode)
      requires Sound() && p in nodes && nodes[p] == ptr && i == |p| + 1 <= MAX_DEPTH && p + [b] == entry.net[..i]
      modifies this`nodes, ptr`left, ptr`right
      ensures Sound() && p + [b] in nodes && nodes[p + [b]] == next
      ensures old(p + [b] in nodes) ==> nodes == old(nodes)
      ensures old(p + [b] !in nodes) ==> fresh(next) && nodes == old(nodes)[p + [b] := next]
      ensures PortsOf(nodes) ==
                if p + [b] in old(nodes) then old(PortsOf(nodes))
                else old(PortsOf(nodes))[p + [b] := if i == entry.prefixLen then entry.port else UNSET]
    {
      assert ChildAt(nodes, p, b);
      var child := if b then ptr.right else ptr.left;
      if child == null {
        next := Grow(ptr, entry, i, p, b);
      } else {
        next := child;
      }
    }

    /** Answers with the port of the prefix's node, or with -1 when the address given has its next
        bit set beyond the prefix. */
    method AddNode(entry: RouterEntry) returns (port: int)
      requires Valid() && entry.Valid()
      modifies this`nodes, this`entries, nodes.Values
      ensures Valid() && entries == old(entries) + [entry.ToEntry()]
      ensures forall p: Path :: p in nodes ==> (p in old(nodes) && nodes[p] == old(nodes)[p]) || fresh(nodes[p])
      ensures entry.net[..entry.prefixLen] in nodes
      ensures port == if entry.prefixLen < 32 && entry.net[entry.prefixLen] then -1
                      else nodes[entry.net[..entry.prefixLen]].port
    {
      ghost var e, base := entry.ToEntry(), PortsOf(nodes);
      port := Enter(entry, base);
      BuildOneMore(entries, e);
      entries := entries + [e];
    }

    method Enter(entry: RouterEntry, ghost base: Ports) returns (port: int)
      requires Sound() && entry.Valid() && base == PortsOf(nodes)
      modifies this`nodes, nodes.Values
      ensures Sound() && PortsOf(nodes) == AddSimple(base, entry.ToEntry(), entry.prefixLen)
      ensures forall p: Path :: p in nodes ==> (p in old(nodes) && nodes[p] == old(nodes)[p]) || fresh(nodes[p])
      ensures entry.net[..entry.prefixLen] in nodes
      ensures port == if entry.prefixLen < 32 && entry.net[entry.prefixLen] then UNSET
                      else nodes[entry.net[..entry.prefixLen]].port
    {
      var ptr, mask := Insert(entry, base);
      port := Answer(entry, ptr, mask);
    }

    method Answer(entry: RouterEntry, ptr: TreeNode, mask: Word) returns (port: int)
      requires Sound() && entry.Valid() && mask == GetMask(entry.prefixLen + 1)
      requires entry.net[..entry.prefixLen] in nodes && nodes[entry.net[..entry.prefixLen]] == ptr
      ensures port == if entry.prefixLen < 32 && entry.net[entry.prefixLen] then UNSET else ptr.port
    {
      NextBitDiffers(entry.net, entry.prefixLen);
      if entry.prefixLen == 0 {
        assert Padded([]) == ZERO;
      } else {
        assert NodeAt(entry.net[..entry.prefixLen]);
      }
      if And(entry.net, mask) != And(ptr.net, mask) {
        return UNSET;
      }
      return ptr.port;
    }

    method Insert(entry: RouterEntry, ghost base: Ports) returns (ptr: TreeNode, mask: Word)
      requires Sound() && entry.Valid() && base == PortsOf(nodes)
      modifies this`nodes, nodes.Values
      ensures Sound() && PortsOf(nodes) == AddSimple(base, entry.ToEntry(), entry.prefixLen)
      ensures forall p: Path :: p in nodes ==> (p in old(nodes) && nodes[p] == old(nodes)[p]) || fresh(nodes[p])
      ensures entry.net[..entry.prefixLen] in nodes && nodes[entry.net[..entry.prefixLen]] == ptr
      ensures mask == GetMask(entry.prefixLen + 1)
    {
      ptr, mask := root, Probe(0);
      var probe := Probe(0);
      ghost var e := entry.ToEntry();
      for i := 1 to entry.prefixLen + 1
        invariant Sound() && probe == Probe(i - 1) && mask == GetMask(i)
        invariant entry.net[..i - 1] in nodes && nodes[entry.net[..i - 1]] == ptr
        invariant PortsOf(nodes) == AddSimple(base, e, i - 1)
        invariant forall p: Path :: p in nodes ==> (p in old(nodes) && nodes[p] == old(nodes)[p]) || fresh(nodes[p])
      {
        ptr := Level(ptr, entry, i, probe, base);
        NextProbe(i - 1);
        NextMask(i);
        mask := ShiftSigned(mask);
        probe := Shift(probe);
      }
    }

    /** One turn of that loop. */
    method Level(ptr: TreeNode, entry: RouterEntry, i: nat, probe: Word, ghost base: Ports) returns (next: TreeNode)
      requires Sound() && entry.Valid() && 1 <= i <= entry.prefixLen && probe == Probe(i - 1)
      requires entry.net[..i - 1] in nodes && nodes[entry.net[..i - 1]] == ptr
      requires PortsOf(nodes) == AddSimple(base, entry.ToEntry(), i - 1)
      modifies this`nodes, ptr`left, ptr`right
      ensures Sound() && entry.net[..i] in nodes && nodes[entry.net[..i]] == next
      ensures nodes == old(nodes) || (fresh(next) && nodes == old(nodes)[entry.net[..i] := next])
      ensures PortsOf(nodes) == AddSimple(base, entry.ToEntry(), i)
    {
      ghost var p, e := entry.net[..i - 1], entry.ToEntry();
      OneBitOn(entry, i);
      next := Down(ptr, entry, i, p, And(entry.net, probe) != ZERO);
    }

    method LookBack(node: TreeNode, ghost p: Path) returns (port: int)
      requires Valid() && p in nodes && nodes[p] == node
      ensures port == Tries.LookBack(PortsOf(nodes), p)
    {
      var ptr := node;
      ghost var q := p;
      ghost var ports := PortsOf(nodes);
      while ptr.port == UNSET
        invariant q in nodes && nodes[q] == ptr
        invariant Tries.LookBack(ports, q) == Tries.LookBack(ports, p)
        decreases |q|
      {
        RootHasPort(entries);
        assert NodeAt(q);
        ptr := ptr.parent;
        q := Up(q);
      }
      return ptr.port;
    }

    /** The walk, the two mask checks and the way back. The walk looks at 31 bits. When a node
        lies on all of them, that is, when some entry's prefix has them all, the last check compares
        the 32nd: if it is 1, the way back starts at that node; if it is 0, the source reads a
        variable that was never set. */
    method Lookup(addr: Word) returns (port: int)
      requires Valid()
      ensures [] in BuildSimple(entries)
      ensures addr[..31] in BuildSimple(entries) <==> Covered(entries, addr[..31])
      ensures addr[..31] !in BuildSimple(entries) ==> port == LookupSimple(BuildSimple(entries), addr)
      ensures addr[..31] in BuildSimple(entries) && addr[31] ==>
                port == Tries.LookBack(BuildSimple(entries), addr[..31])
    {
      NodesAreCovered(entries, addr[..31]);
      var ptr, i := Walk(root, nodes, addr);
      assert i == 32 ==> NodeAt(addr[..31]);
      port := Checked(ptr, addr, i);
      if port == UNSET {
        port := LookBack(ptr, addr[..i - 1]);
      }
    }

    /** The node's own port, or -1 to send the search back. */
    method Checked(ptr: TreeNode, addr: Word, i: nat) returns (port: int)
      requires 1 <= i <= 32
      ensures i < 32 ==> port == ptr.port || port == UNSET
      ensures i == 32 && addr[31] && !ptr.net[31] ==> port == UNSET
    {
      port := *;
      if i < 32 {
        port := if And(addr, MaskFor(ptr.prefixLen)) != And(ptr.net, MaskFor(ptr.prefixLen)) then UNSET
                else ptr.port;
      }
      LastBitDiffers(addr, ptr.net);
      if And(addr, GetMask(i)) != And(ptr.net, GetMask(i)) {
        port := UNSET;
      }
    }
  }

  /** Under a mask of one bit more, an address and its padded prefix differ in that bit only. */
  lemma NextBitDiffers(net: Word, n: nat)
    requires n <= 32
    ensures And(net, GetMask(n + 1)) == And(Padded(net[..n]), GetMask(n + 1)) <==> !(n < 32 && net[n])
  {
    GetMaskIsMask(n + 1);
    var a, b := And(net, Mask(n + 1)), And(Padded(net[..n]), Mask(n + 1));
    if n < 32 { assert a[n] == net[n] && !b[n]; }
    assert forall k :: 0 <= k < 32 && k != n ==> a[k] == b[k];
  }

  lemma LastBitDiffers(addr: Word, net: Word)
    ensures addr[31] && !net[31] ==> And(addr, GetMask(32)) != And(net, GetMask(32))
  {
    GetMaskIsMask(32);
    assert And(addr, Mask(32))[31] == addr[31] && And(net, Mask(32))[31] == net[31];
  }

  lemma {:induction false} RootHasPort(es: seq<Entry>)
    ensures [] in BuildSimple(es) && BuildSimple(es)[[]] == DEFAULT_PORT
  {
    if es != [] {
      RootHasPort(es[..|es| - 1]);
      AddedAt(BuildSimple(es[..|es| - 1]), es[|es| - 1], |es[|es| - 1].path|, []);
    }
  }

  /** The loop of both lookups: down the address's bits until a child is missing, or to the
      31st bit when none is. */
  method Walk(root: TreeNode, ghost nodes: Nodes, addr: Word) returns (ptr: TreeNode, i: nat)
    requires Shaped(root, nodes)
    ensures 1 <= i <= 32 && addr[..i - 1] in nodes && nodes[addr[..i - 1]] == ptr
    ensures i < 32 <==> addr[..31] !in nodes
    ensures i < 32 ==> Deepest(PortsOf(nodes), addr, 0) == i - 1
  {
    ptr := root;
    var probe := Probe(0);
    i := 1;
    while i < 32
      invariant 1 <= i <= 32 && probe == Probe(i - 1)
      invariant addr[..i - 1] in nodes && nodes[addr[..i - 1]] == ptr
      invariant Deepest(PortsOf(nodes), addr, 0) == Deepest(PortsOf(nodes), addr, i - 1)
      decreases 32 - i
    {
      ProbeTests(addr, i - 1);
      NextProbe(i - 1);
      assert addr[..i] == addr[..i - 1] + [addr[i - 1]];
      assert ChildAt(nodes, addr[..i - 1], addr[i - 1]);
      var child := if And(addr, probe) == ZERO then ptr.left else ptr.right;
      if child == null {
        MissingBelow(root, nodes, addr, i, 31);
        return;
      }
      ptr := child;
      probe := Shift(probe);
      i := i + 1;
    }
  }

  /** Below a missing node there is none. */
  lemma {:induction false} MissingBelow(root: TreeNode, nodes: Nodes, addr: Word, i: nat, j: nat)
    requires Shaped(root, nodes) && 1 <= i <= j <= 32 && addr[..i] !in nodes
    ensures addr[..j] !in nodes
    decreases j
  {
    if i < j {
      MissingBelow(root, nodes, addr, i, j - 1);
      assert Up(addr[..j]) == addr[..j - 1];
      assert addr[..j] in nodes ==> Above(nodes, addr[..j]);
    }
  }

  // -------------------------------------------------------------------- the leaf-pushed trie

  class LeafTrie {
    const root: TreeNode
    ghost var nodes: Nodes
    ghost var entries: seq<Entry>

    ghost predicate Valid()
      reads this, nodes.Values
    {
      Shaped(root, nodes) && PortsOf(nodes) == BuildLeaf(entries)
    }

    constructor ()
      ensures Valid() && entries == [] && fresh(nodes.Values)
    {
      root := new TreeNode(DEFAULT_PORT, ZERO, 0, null);
      new;
      nodes := map[[] := root];
      entries := [];
    }

    method InsertTree(entry: RouterEntry, len: nat, parent: TreeNode) returns (node: TreeNode)
      ensures fresh(node) && node.left == null && node.right == null
      ensures node.port == if entry.prefixLen != len then parent.port else entry.port
    {
      node := new TreeNode(if entry.prefixLen != len then parent.port else entry.port, ZERO, 0, null);
    }

    /** A missing child is made and hung below its parent. */
    method Grow(ptr: TreeNode, entry: RouterEntry, i: nat, ghost p: Path, b: bool) returns (child: TreeNode)
      requires Shaped(root, nodes) && p in nodes && nodes[p] == ptr && p + [b] !in nodes && i == |p| + 1 <= MAX_DEPTH
      modifies this`nodes, ptr`left, ptr`right
      ensures Shaped(root, nodes) && fresh(child) && nodes == old(nodes)[p + [b] := child]
      ensures child.port == if i == entry.prefixLen then entry.port else old(ptr.port)
    {
      child := InsertTree(entry, i, ptr);
      Hang(root, nodes, p, b, ptr, child);
      nodes := nodes[p + [b] := child];
    }

    /** One level of the walk of add_node. */
    method Down(ptr: TreeNode, entry: RouterEntry, i: nat, ghost p: Path, b: bool) returns (next: TreeNode)
      requires Shaped(root, nodes) && p in nodes && nodes[p] == ptr && i == |p| + 1 <= MAX_DEPTH
      modifies this`nodes, ptr`left, ptr`right
      ensures Shaped(root, nodes) && p + [b] in nodes && nodes[p + [b]] == next
      ensures old(p + [b] in nodes) ==> nodes == old(nodes)
      ensures old(p + [b] !in nodes) ==> fresh(next) && nodes == old(nodes)[p + [b] := next]
      ensures PortsOf(nodes) ==
                if p + [b] in old(nodes) then old(PortsOf(nodes))
                else old(PortsOf(nodes))[p + [b] := if i == entry.prefixLen then entry.port else old(ptr.port)]
    {
      assert ChildAt(nodes, p, b);
      var child := if b then ptr.right else ptr.left;
      if child == null {
        next := Grow(ptr, entry, i, p, b);
      } else {
        next := child;
      }
    }

    /** Answers with the port of the prefix's node. */
    method AddNode(entry: RouterEntry) returns (port: int)
      requires Valid() && entry.Valid()
      modifies this`nodes, this`entries, nodes.Values
      ensures Valid() && entries == old(entries) + [entry.ToEntry()]
      ensures forall p: Path :: p in nodes ==> (p in old(nodes) && nodes[p] == old(nodes)[p]) || fresh(nodes[p])
      ensures entry.net[..entry.prefixLen] in nodes && port == nodes[entry.net[..entry.prefixLen]].port
    {
      ghost var e, base := entry.ToEntry(), PortsOf(nodes);
      BuildLeafOneMore(entries, e);
      entries := entries + [e];
      var ptr := Insert(entry, base);
      return ptr.port;
    }

    method Insert(entry: RouterEntry, ghost base: Ports) returns (ptr: TreeNode)
      requires Shaped(root, nodes) && entry.Valid() && base == PortsOf(nodes)
      modifies this`nodes, nodes.Values
      ensures [] in base && Shaped(root, nodes)
      ensures PortsOf(nodes) == AddLeaf(base, entry.ToEntry(), entry.prefixLen)
      ensures forall p: Path :: p in nodes ==> (p in old(nodes) && nodes[p] == old(nodes)[p]) || fresh(nodes[p])
      ensures entry.net[..entry.prefixLen] in nodes && nodes[entry.net[..entry.prefixLen]] == ptr
    {
      ptr := root;
      var probe := Probe(0);
      ghost var e := entry.ToEntry();
      for i := 1 to entry.prefixLen + 1
        invariant Shaped(root, nodes) && probe == Probe(i - 1)
        invariant entry.net[..i - 1] in nodes && nodes[entry.net[..i - 1]] == ptr
        invariant PortsOf(nodes) == AddLeaf(base, e, i - 1)
        invariant forall p: Path :: p in nodes ==> (p in old(nodes) && nodes[p] == old(nodes)[p]) || fresh(nodes[p])
      {
        ptr := Level(ptr, entry, i, probe, base);
        NextProbe(i - 1);
        probe := Shift(probe);
      }
    }

    /** One turn of that loop. */
    method Level(ptr: TreeNode, entry: RouterEntry, i: nat, probe: Word, ghost base: Ports) returns (next: TreeNode)
      requires Shaped(root, nodes) && entry.Valid() && 1 <= i <= entry.prefixLen && probe == Probe(i - 1) && [] in base
      requires entry.net[..i - 1] in nodes && nodes[entry.net[..i - 1]] == ptr
      requires PortsOf(nodes) == AddLeaf(base, entry.ToEntry(), i - 1)
      modifies this`nodes, ptr`left, ptr`right
      ensures Shaped(root, nodes) && entry.net[..i] in nodes && nodes[entry.net[..i]] == next
      ensures nodes == old(nodes) || (fresh(next) && nodes == old(nodes)[entry.net[..i] := next])
      ensures PortsOf(nodes) == AddLeaf(base, entry.ToEntry(), i)
    {
      ghost var p, e := entry.net[..i - 1], entry.ToEntry();
      OneBitOn(entry, i);
      next := Down(ptr, entry, i, p, And(entry.net, probe) != ZERO);
    }

    /** With a node on the address's first 31 bits the source returns a variable never set. */
    method Lookup(addr: Word) returns (port: int)
      requires Valid()
      ensures addr[..31] in BuildLeaf(entries) <==> Covered(entries, addr[..31])
      ensures addr[..31] !in BuildLeaf(entries) ==> port == LookupLeaf(BuildLeaf(entries), addr)
    {
      NodesAreCovered(entries, addr[..31]);
      var ptr, i := Walk(root, nodes, addr);
      port := *;
      if i < 32 { port := ptr.port; }
    }
  }

  // ------------------------------------------------------------------ the routing-table scan

  datatype TableEntry = TableEntry(dest: Word, mask: Word, port: int)

  /** The table's masks are contiguous, `lens` giving their lengths. */
  ghost predicate Contiguous(table: seq<TableEntry>, lens: seq<nat>)
  {
    |lens| == |table| && forall i :: 0 <= i < |table| ==> lens[i] <= 32 && table[i].mask == Mask(lens[i])
  }

  ghost function EntriesOf(table: seq<TableEntry>, lens: seq<nat>): (es: seq<Entry>)
    requires Contiguous(table, lens)
    ensures |es| == |table|
    ensures forall i :: 0 <= i < |table| ==> es[i] == Entry(table[i].dest[..lens[i]], table[i].port)
  {
    seq(|table|, i requires 0 <= i < |table| => Entry(table[i].dest[..lens[i]], table[i].port))
  }

  /** Whether the entry matches, and has a greater mask than the best so far, if there is one. */
  method Wins(table: seq<TableEntry>, dst: Word, best: int, i: nat, ghost lens: seq<nat>) returns (wins: bool)
    requires Contiguous(table, lens) && -1 <= best < i < |table|
    ensures wins <==> table[i].dest[..lens[i]] <= dst && (best == -1 || lens[best] < lens[i])
  {
    MaskedEqualIsSamePrefix(table[i].dest, dst, lens[i]);
    PrefixOfWord(table[i].dest[..lens[i]], dst);
    wins := And(table[i].dest, table[i].mask) == And(dst, table[i].mask);
    if wins && best != -1 {
      MaskOrder(lens[best], lens[i]);
      wins := LessThan(table[best].mask, table[i].mask);
    }
  }

  /** longest_prefix_match: the first matching entry with the greatest mask, or none (-1). */
  method LongestPrefixMatch(table: seq<TableEntry>, dst: Word, ghost lens: seq<nat>) returns (best: int)
    requires Contiguous(table, lens)
    ensures best == Best(EntriesOf(table, lens), dst, |table|)
  {
    best := -1;
    ghost var es := EntriesOf(table, lens);
    for i := 0 to |table|
      invariant best == Best(es, dst, i)
    {
      var wins := Wins(table, dst, best, i, lens);
      if wins { best := i; }
    }
  }

  lemma PrefixOfWord(p: Path, w: Word)
    requires |p| <= 32
    ensures p <= w <==> w[..|p|] == p
  {}

  method LessThan(a: Word, b: Word) returns (less: bool)
    ensures less <==> Less(a, b)
  {
    for k := 0 to 32
      invariant a[..k] == b[..k]
    {
      if a[k] != b[k] {
        if b[k] { assert a[..k] == b[..k] && !a[k] && b[k]; }
        else { FirstDifference(a, b, k); }
        return b[k];
      }
      assert a[..k + 1] == a[..k] + [a[k]] && b[..k + 1] == b[..k] + [b[k]];
    }
    assert a[..32] == a && b[..32] == b;
    return false;
  }

  lemma FirstDifference(a: Word, b: Word, k: nat)
    requires k < 32 && a[..k] == b[..k] && a[k] && !b[k]
    ensures !Less(a, b)
  {}
}
