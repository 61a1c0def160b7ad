/** The two tries of the lookup lab as maps from bit paths to ports, the entries that take
    effect in them, and longest prefix match. */
module Tries {
  /** The bits of an address, most significant first, or the first bits of one. */
  type Path = seq<bool>

  datatype Entry = Entry(path: Path, port: int)

  const UNSET := -1
  const DEFAULT_PORT := 0

  /** A node for each path, holding its port. */
  type Ports = map<Path, int>

  const EMPTY: Ports := map[[] := DEFAULT_PORT]

  ghost predicate IsTrie(t: Ports)
  {
    [] in t && forall p: Path {:trigger Parented(t, p)} :: p in t && p != [] ==> Parented(t, p)
  }

  ghost predicate Parented(t: Ports, p: Path)
    requires p != []
  {
    p[..|p| - 1] in t
  }

  function Up(p: Path): Path
    requires p != []
  {
    p[..|p| - 1]
  }

  // -------------------------------------------------------------------------- insertion

  /** One step of add_node in the simple trie: a node missing at depth `i` is made; only the
      last is given the entry's port. */
  function GrowSimple(t: Ports, e: Entry, i: nat): Ports
    requires 1 <= i <= |e.path|
  {
    if e.path[..i] in t then t
    else t[e.path[..i] := if i == |e.path| then e.port else UNSET]
  }

  /** The same with leaf pushing: the others take their parent's port. */
  function GrowLeaf(t: Ports, e: Entry, i: nat): Ports
    requires 1 <= i <= |e.path| && e.path[..i - 1] in t
  {
    if e.path[..i] in t then t
    else t[e.path[..i] := if i == |e.path| then e.port else t[e.path[..i - 1]]]
  }

  function AddSimple(t: Ports, e: Entry, i: nat): (r: Ports)
    requires i <= |e.path|
  {
    if i == 0 then t else GrowSimple(AddSimple(t, e, i - 1), e, i)
  }

  function AddLeaf(t: Ports, e: Entry, i: nat): (r: Ports)
    requires i <= |e.path| && [] in t
    ensures e.path[..i] in r && [] in r
  {
    if i == 0 then t else GrowLeaf(AddLeaf(t, e, i - 1), e, i)
  }

  function BuildSimple(es: seq<Entry>): Ports
  {
    if es == [] then EMPTY
    else var e := es[|es| - 1]; AddSimple(BuildSimple(es[..|es| - 1]), e, |e.path|)
  }

  function BuildLeaf(es: seq<Entry>): (t: Ports)
    ensures [] in t
  {
    if es == [] then EMPTY
    else var e := es[|es| - 1]; AddLeaf(BuildLeaf(es[..|es| - 1]), e, |e.path|)
  }

  lemma BuildOneMore(es: seq<Entry>, e: Entry)
    ensures BuildSimple(es + [e]) == AddSimple(BuildSimple(es), e, |e.path|)
  {}

  lemma BuildLeafOneMore(es: seq<Entry>, e: Entry)
    ensures BuildLeaf(es + [e]) == AddLeaf(BuildLeaf(es), e, |e.path|)
  {}

  // ----------------------------------------------------------------------------- lookup

  /** How far the walk for an address gets. */
  function Deepest(t: Ports, a: Path, i: nat): (d: nat)
    requires i <= |a|
    ensures i <= d <= |a|
    decreases |a| - i
  {
    if i < |a| && a[..i + 1] in t then Deepest(t, a, i + 1) else i
  }

  /** Back up to the first node with a port. */
  function LookBack(t: Ports, p: Path): int
    requires p in t
    decreases |p|
  {
    if t[p] != UNSET || p == [] || Up(p) !in t then t[p] else LookBack(t, Up(p))
  }

  lemma {:induction false} DeepestInTrie(t: Ports, a: Path, i: nat)
    requires i <= |a| && a[..i] in t
    ensures a[..Deepest(t, a, i)] in t
    decreases |a| - i
  {
    if i < |a| && a[..i + 1] in t { DeepestInTrie(t, a, i + 1); }
  }

  function LookupSimple(t: Ports, a: Path): int
    requires [] in t
  {
    DeepestInTrie(t, a, 0);
    LookBack(t, a[..Deepest(t, a, 0)])
  }

  function LookupLeaf(t: Ports, a: Path): int
    requires [] in t
  {
    DeepestInTrie(t, a, 0);
    t[a[..Deepest(t, a, 0)]]
  }

  // ------------------------------------------------------------- the two tries are one

  /** The leaf-pushed trie holds at each node what looking back from it gives. */
  ghost predicate Pushed(s: Ports, l: Ports)
  {
    IsTrie(s) && s.Keys == l.Keys && s[[]] != UNSET &&
    forall p: Path :: p in s ==> l[p] == LookBack(s, p)
  }

  /** A new node without children changes what looking back gives nowhere else. */
  lemma {:induction false} LookBackKept(s: Ports, p: Path, port: int, q: Path)
    requires IsTrie(s) && p !in s && p != [] && q in s
    ensures LookBack(s[p := port], q) == LookBack(s, q)
    decreases |q|
  {
    if s[q] == UNSET && q != [] {
      assert Parented(s, q);
      LookBackKept(s, p, port, Up(q));
    }
  }

  lemma StaysTrie(t: Ports, p: Path, port: int)
    requires IsTrie(t) && p != [] && Up(p) in t
    ensures IsTrie(t[p := port])
  {
    var r := t[p := port];
    forall q: Path | q in r && q != [] ensures Parented(r, q) {
      if q != p { assert Parented(t, q); }
    }
  }

  lemma GrowKeepsPushed(s: Ports, l: Ports, e: Entry, i: nat)
    requires Pushed(s, l) && 1 <= i <= |e.path| && e.path[..i - 1] in s && e.port != UNSET
    ensures Pushed(GrowSimple(s, e, i), GrowLeaf(l, e, i))
  {
    var p := e.path[..i];
    assert Up(p) == e.path[..i - 1];
    if p !in s {
      var port := if i == |e.path| then e.port else UNSET;
      StaysTrie(s, p, port);
      forall q: Path | q in s ensures LookBack(s[p := port], q) == LookBack(s, q) {
        LookBackKept(s, p, port, q);
      }
    }
  }

  lemma {:induction false} AddKeepsPushed(s: Ports, l: Ports, e: Entry, i: nat)
    requires Pushed(s, l) && i <= |e.path| && e.port != UNSET
    ensures Pushed(AddSimple(s, e, i), AddLeaf(l, e, i))
  {
    if i > 0 {
      AddKeepsPushed(s, l, e, i - 1);
      GrowKeepsPushed(AddSimple(s, e, i - 1), AddLeaf(l, e, i - 1), e, i);
    }
  }

  ghost predicate PortsSet(es: seq<Entry>)
  {
    forall i :: 0 <= i < |es| ==> es[i].port != UNSET
  }

  lemma {:induction false} BuildsPushed(es: seq<Entry>)
    requires PortsSet(es)
    ensures Pushed(BuildSimple(es), BuildLeaf(es))
  {
    if es != [] {
      BuildsPushed(es[..|es| - 1]);
      var e := es[|es| - 1];
      AddKeepsPushed(BuildSimple(es[..|es| - 1]), BuildLeaf(es[..|es| - 1]), e, |e.path|);
    }
  }

  lemma {:induction false} SameDepth(s: Ports, l: Ports, a: Path, i: nat)
    requires s.Keys == l.Keys && i <= |a|
    ensures Deepest(s, a, i) == Deepest(l, a, i)
    decreases |a| - i
  {
    if i < |a| && a[..i + 1] in s { SameDepth(s, l, a, i + 1); }
  }

  /** Whatever is inserted and in whatever order, both tries answer every address alike. */
  lemma {:induction false} TriesAgree(es: seq<Entry>, a: Path)
    requires PortsSet(es)
    ensures [] in BuildSimple(es)
    ensures LookupLeaf(BuildLeaf(es), a) == LookupSimple(BuildSimple(es), a)
  {
    BuildsPushed(es);
    SameDepth(BuildSimple(es), BuildLeaf(es), a, 0);
    DeepestInTrie(BuildSimple(es), a, 0);
  }

  // ------------------------------------------------------------ what the tries compute

  /** An entry takes effect when no earlier one had already made its node; the root, the node
      of the empty prefix, is there from the start. */
  ghost predicate Effective(es: seq<Entry>, j: int)
    requires 0 <= j < |es|
  {
    es[j].path != [] && forall i :: 0 <= i < j ==> !(es[j].path <= es[i].path)
  }

  ghost predicate Covered(es: seq<Entry>, p: Path)
  {
    exists i :: 0 <= i < |es| && p <= es[i].path
  }

  ghost predicate EffectiveAt(es: seq<Entry>, p: Path, port: int)
  {
    exists j :: 0 <= j < |es| && es[j] == Entry(p, port) && Effective(es, j)
  }

  /** What the simple trie holds, read off the list of entries. */
  ghost predicate Holds(es: seq<Entry>, t: Ports)
  {
    && [] in t && t[[]] == DEFAULT_PORT
    && (forall p: Path :: p != [] ==> (p in t <==> Covered(es, p)))
    && (forall p: Path :: p in t && p != [] && t[p] != UNSET ==> EffectiveAt(es, p, t[p]))
    && (forall p: Path, port :: p != [] && EffectiveAt(es, p, port) ==> p in t && t[p] == port)
  }

  /** What inserting an entry as far as depth `i` does to the node of one path. */
  lemma {:induction false} AddedAt(t: Ports, e: Entry, i: nat, p: Path)
    requires i <= |e.path|
    ensures var r := AddSimple(t, e, i);
            && (p in r <==> p in t || (p != [] && p <= e.path && |p| <= i))
            && (p in t ==> r[p] == t[p])
            && (p in r && p !in t ==> r[p] == if p == e.path then e.port else UNSET)
  {
    if i > 0 {
      AddedAt(t, e, i - 1, p);
      var q := e.path[..i];
      assert q <= e.path && (i == |e.path| ==> q == e.path);
      if p <= e.path && |p| == i { SamePrefix(p, q, e.path); }
    }
  }

  lemma EffectiveAppend(es: seq<Entry>, e: Entry, p: Path, port: int)
    ensures EffectiveAt(es + [e], p, port) <==>
            EffectiveAt(es, p, port) || (e == Entry(p, port) && p != [] && !Covered(es, p))
  {
    var more := es + [e];
    assert forall i :: 0 <= i < |es| ==> more[i] == es[i];
    if j :| 0 <= j < |es| && es[j] == Entry(p, port) && Effective(es, j) {
      assert more[j] == es[j] && Effective(more, j);
    }
    if e == Entry(p, port) && p != [] && !Covered(es, p) {
      assert more[|es|] == e && Effective(more, |es|);
    }
    if j :| 0 <= j < |more| && more[j] == Entry(p, port) && Effective(more, j) {
      if j < |es| { assert es[j] == more[j] && Effective(es, j); }
    }
  }

  lemma CoveredAppend(es: seq<Entry>, e: Entry, p: Path)
    ensures Covered(es + [e], p) <==> Covered(es, p) || p <= e.path
  {
    var more := es + [e];
    if i :| 0 <= i < |es| && p <= es[i].path { assert more[i] == es[i]; }
    if p <= e.path { assert more[|es|] == e; }
  }

  lemma {:induction false} AddSameKeys(s: Ports, l: Ports, e: Entry, i: nat)
    requires s.Keys == l.Keys && [] in l && i <= |e.path|
    ensures AddSimple(s, e, i).Keys == AddLeaf(l, e, i).Keys
  {
    if i > 0 { AddSameKeys(s, l, e, i - 1); }
  }

  /** Where the tries have nodes: on the prefixes of the entries and nowhere else. */
  lemma {:induction false} NodesAreCovered(es: seq<Entry>, p: Path)
    requires p != []
    ensures p in BuildSimple(es) <==> Covered(es, p)
    ensures BuildSimple(es).Keys == BuildLeaf(es).Keys
  {
    if es != [] {
      var front, e := es[..|es| - 1], es[|es| - 1];
      NodesAreCovered(front, p);
      assert es == front + [e];
      AddedAt(BuildSimple(front), e, |e.path|, p);
      CoveredAppend(front, e, p);
      AddSameKeys(BuildSimple(front), BuildLeaf(front), e, |e.path|);
    }
  }

  lemma HoldsAfterAdd(front: seq<Entry>, e: Entry, t: Ports)
    requires Holds(front, t) && e.port != UNSET
    ensures Holds(front + [e], AddSimple(t, e, |e.path|))
  {
    var es, r := front + [e], AddSimple(t, e, |e.path|);
    forall p: Path | p != [] ensures p in r <==> Covered(es, p) {
      AddedAt(t, e, |e.path|, p);
      CoveredAppend(front, e, p);
    }
    forall p: Path | p in r && p != [] && r[p] != UNSET ensures EffectiveAt(es, p, r[p]) {
      AddedAt(t, e, |e.path|, p);
      EffectiveAppend(front, e, p, r[p]);
    }
    forall p: Path, port | p != [] && EffectiveAt(es, p, port) ensures p in r && r[p] == port {
      AddedAt(t, e, |e.path|, p);
      EffectiveAppend(front, e, p, port);
    }
    AddedAt(t, e, |e.path|, []);
  }

  lemma {:induction false} BuildHolds(es: seq<Entry>)
    requires PortsSet(es)
    ensures Holds(es, BuildSimple(es)) && IsTrie(BuildSimple(es))
  {
    BuildsPushed(es);
    if es != [] {
      var front, e := es[..|es| - 1], es[|es| - 1];
      BuildHolds(front);
      assert es == front + [e];
      HoldsAfterAdd(front, e, BuildSimple(front));
    }
  }

  lemma {:induction false} LookBackFinds(t: Ports, p: Path) returns (q: Path)
    requires IsTrie(t) && p in t
    ensures q <= p && q in t && LookBack(t, p) == t[q]
    ensures q == [] || t[q] != UNSET
    ensures forall r: Path :: r <= p && |q| < |r| ==> r in t && t[r] == UNSET
    decreases |p|
  {
    q := p;
    if t[p] == UNSET && p != [] {
      assert Parented(t, p);
      q := LookBackFinds(t, Up(p));
      forall r: Path | r <= p && |q| < |r| ensures r in t && t[r] == UNSET {
        if r != p { assert r <= Up(p); }
      }
    }
  }

  lemma {:induction false} PrefixesIn(t: Ports, p: Path, k: nat)
    requires IsTrie(t) && p in t && k <= |p|
    ensures p[..k] in t
    decreases |p| - k
  {
    if k == |p| {
      assert p[..k] == p;
    } else {
      PrefixesIn(t, p, k + 1);
      assert Parented(t, p[..k + 1]);
      assert p[..k + 1][..k] == p[..k];
    }
  }

  lemma {:induction false} DeepestIsMost(t: Ports, a: Path, i: nat, k: nat)
    requires IsTrie(t) && i <= k <= |a| && a[..k] in t
    ensures k <= Deepest(t, a, i)
    decreases |a| - i
  {
    if i < k {
      PrefixesIn(t, a[..k], i + 1);
      assert a[..k][..i + 1] == a[..i + 1];
      DeepestIsMost(t, a, i + 1, k);
    }
  }

  /** An effective entry that matches, as long as any effective one that does. */
  ghost predicate LongestEffective(es: seq<Entry>, a: Path, j: int)
    requires 0 <= j < |es|
  {
    && Effective(es, j) && es[j].path <= a
    && forall i :: 0 <= i < |es| && Effective(es, i) && es[i].path <= a ==> |es[i].path| <= |es[j].path|
  }

  lemma EffectiveIsHeld(es: seq<Entry>, i: nat)
    requires PortsSet(es) && i < |es| && Effective(es, i)
    ensures Holds(es, BuildSimple(es))
    ensures es[i].path in BuildSimple(es) && BuildSimple(es)[es[i].path] == es[i].port
  {
    BuildHolds(es);
    assert EffectiveAt(es, es[i].path, es[i].port);
  }

  /** For every list of entries in any order: a trie lookup answers with the longest matching
      entry among those that took effect, or the default. `j` is -1 when none matches. */
  lemma {:induction false} LookupFindsEffective(es: seq<Entry>, a: Path) returns (j: int)
    requires PortsSet(es)
    ensures [] in BuildSimple(es) && -1 <= j < |es|
    ensures j == -1 ==>
              && LookupSimple(BuildSimple(es), a) == 0
              && forall i :: 0 <= i < |es| && Effective(es, i) ==> !(es[i].path <= a)
    ensures j != -1 ==> LongestEffective(es, a, j) && LookupSimple(BuildSimple(es), a) == es[j].port
  {
    BuildHolds(es);
    var t := BuildSimple(es);
    DeepestInTrie(t, a, 0);
    var deep := a[..Deepest(t, a, 0)];
    var q := LookBackFinds(t, deep);
    forall i: nat | i < |es| && Effective(es, i) && es[i].path <= a ensures |es[i].path| <= |q| {
      var p := es[i].path;
      EffectiveIsHeld(es, i);
      assert a[..|p|] == p;
      DeepestIsMost(t, a, 0, |p|);
      assert p <= deep;
    }
    j := -1;
    if q != [] {
      assert EffectiveAt(es, q, t[q]);
      j :| 0 <= j < |es| && es[j] == Entry(q, t[q]) && Effective(es, j);
    }
  }

  // ------------------------------------------------------------------ longest prefix match

  /** The linear scan: a later entry wins only when it is strictly longer. */
  function Best(es: seq<Entry>, a: Path, n: nat): (b: int)
    requires n <= |es|
    ensures -1 <= b < n
  {
    if n == 0 then -1
    else
      var b := Best(es, a, n - 1);
      if es[n - 1].path <= a && (b == -1 || |es[b].path| < |es[n - 1].path|) then n - 1 else b
  }

  lemma {:induction false} BestIsLongest(es: seq<Entry>, a: Path, n: nat)
    requires n <= |es|
    ensures var b := Best(es, a, n);
            && (b == -1 ==> forall i :: 0 <= i < n ==> !(es[i].path <= a))
            && (b != -1 ==> es[b].path <= a)
            && (b != -1 ==> forall i :: 0 <= i < n && es[i].path <= a ==>
                  |es[i].path| <= |es[b].path| && (|es[i].path| == |es[b].path| ==> b <= i))
  {
    if n > 0 { BestIsLongest(es, a, n - 1); }
  }

  function Match(es: seq<Entry>, a: Path): int
  {
    var b := Best(es, a, |es|); if b == -1 then DEFAULT_PORT else es[b].port
  }

  lemma SamePrefix(p: Path, q: Path, a: Path)
    requires p <= a && q <= a && |p| == |q|
    ensures p == q
  {}

  /** Where the winner of the scan took effect, the tries answer with it. */
  lemma EffectiveWinner(es: seq<Entry>, a: Path)
    requires PortsSet(es)
    requires var b := Best(es, a, |es|); b == -1 || Effective(es, b)
    ensures [] in BuildSimple(es) && LookupSimple(BuildSimple(es), a) == Match(es, a)
  {
    var b := Best(es, a, |es|);
    BestIsLongest(es, a, |es|);
    var j := LookupFindsEffective(es, a);
    if b != -1 {
      SamePrefix(es[j].path, es[b].path, a);
      OneEffectiveEach(es, j, b);
    }
  }

  /** No entry comes after one that it is a proper prefix of, the root's prefix being the
      empty one. */
  ghost predicate ShorterFirst(es: seq<Entry>)
  {
    && (forall i :: 0 <= i < |es| ==> es[i].path != [])
    && (forall i, j :: 0 <= i < j < |es| ==> !(es[j].path < es[i].path))
  }

  /** Entries inserted shorter first: trie lookup is longest prefix match. */
  lemma {:induction false} LookupIsLongestMatch(es: seq<Entry>, a: Path)
    requires PortsSet(es) && ShorterFirst(es)
    ensures [] in BuildSimple(es)
    ensures LookupSimple(BuildSimple(es), a) == LookupLeaf(BuildLeaf(es), a) == Match(es, a)
  {
    var b := Best(es, a, |es|);
    BestIsLongest(es, a, |es|);
    assert forall i :: 0 <= i < b ==> !(es[b].path < es[i].path);
    EffectiveWinner(es, a);
    TriesAgree(es, a);
  }

  /** Giving another port to an entry that took no effect changes no lookup. */
  lemma IneffectiveIsIgnored(es: seq<Entry>, w: int, port: int, a: Path)
    requires PortsSet(es) && 0 <= w < |es| && !Effective(es, w) && port != UNSET
    ensures var other := es[w := Entry(es[w].path, port)];
            && [] in BuildSimple(es) && [] in BuildSimple(other)
            && LookupSimple(BuildSimple(other), a) == LookupSimple(BuildSimple(es), a)
  {
    var other := es[w := Entry(es[w].path, port)];
    var j := LookupFindsEffective(es, a);
    var k := LookupFindsEffective(other, a);
    if j != -1 { EffectiveByPaths(es, other, j); }
    if k != -1 { EffectiveByPaths(other, es, k); }
    if j != -1 {
      SamePrefix(es[j].path, es[k].path, a);
      OneEffectiveEach(es, j, k);
    }
  }

  lemma EffectiveByPaths(es: seq<Entry>, other: seq<Entry>, i: int)
    requires |es| == |other| && 0 <= i < |es| && Effective(es, i)
    requires forall k :: 0 <= k < |es| ==> other[k].path == es[k].path
    ensures Effective(other, i)
  {}

  lemma OneEffectiveEach(es: seq<Entry>, j: int, k: int)
    requires 0 <= j < |es| && 0 <= k < |es| && Effective(es, j) && Effective(es, k)
    requires es[j].path == es[k].path
    ensures j == k
  {}

  /** Exactly when a trie answers an address as the scan does. With `w` the entry that the scan
      chooses, the two agree whatever port `w` has if and only if no earlier entry had made
      its node, that is, none had the same prefix or an extension of it. */
  lemma {:induction false} AgreementExactly(es: seq<Entry>, a: Path)
    requires PortsSet(es) && Best(es, a, |es|) != -1
    ensures var w := Best(es, a, |es|);
            Effective(es, w) <==>
              forall port :: port != UNSET ==> AnswersWith(es, w, port, a)
  {
    var w := Best(es, a, |es|);
    forall port | port != UNSET
      ensures Effective(es, w) ==> AnswersWith(es, w, port, a)
    {
      if Effective(es, w) {
        var other := es[w := Entry(es[w].path, port)];
        assert forall i :: 0 <= i < |es| ==> other[i].path == es[i].path;
        assert Effective(other, w);
        BestByPaths(es, other, a, |es|);
        EffectiveWinner(other, a);
      }
    }
    if !Effective(es, w) {
      BuildHolds(es);
      var answer := LookupSimple(BuildSimple(es), a);
      var port := if answer == 7 then 8 else 7;
      IneffectiveIsIgnored(es, w, port, a);
      assert !AnswersWith(es, w, port, a);
    }
  }

  /** With `port` in entry `w`, the trie answers with that port. */
  ghost predicate AnswersWith(es: seq<Entry>, w: int, port: int, a: Path)
    requires 0 <= w < |es|
  {
    var t := BuildSimple(es[w := Entry(es[w].path, port)]);
    [] in t && LookupSimple(t, a) == port
  }

  lemma {:induction false} BestByPaths(es: seq<Entry>, other: seq<Entry>, a: Path, n: nat)
    requires |es| == |other| && n <= |es| && forall i :: 0 <= i < |es| ==> other[i].path == es[i].path
    ensures Best(other, a, n) == Best(es, a, n)
  {
    if n > 0 { BestByPaths(es, other, a, n - 1); }
  }

  /** A shorter prefix inserted after one of its extensions is lost for every address, of any
      length, that only the shorter one matches: the scan finds it, the tries do not. */
  lemma {:induction false} LateShortPrefixIsLost(short: Path, long: Path, p: int, q: int, a: Path)
    requires short != [] && short < long && p != UNSET && q != UNSET
    requires short <= a && !(long <= a)
    ensures var es := [Entry(long, q), Entry(short, p)];
            && [] in BuildSimple(es) && Match(es, a) == p
            && LookupSimple(BuildSimple(es), a) == LookupLeaf(BuildLeaf(es), a) == 0
  {
    var es := [Entry(long, q), Entry(short, p)];
    assert es[1].path <= es[0].path;
    BestIsLongest(es, a, 2);
    var j := LookupFindsEffective(es, a);
    assert es[0].path == long && es[1].path == short;
    TriesAgree(es, a);
  }
}
