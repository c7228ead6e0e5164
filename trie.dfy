/**
  The trie of the dictionary, as values. The nodes live in an arena (a
  sequence); a node refers to its parent and its children by their indices
  in the arena, where the C++ code holds a raw parent pointer and a vector of
  owning pointers. Index 0 is the root.
*/
module Tries {
  import opened Histograms

  datatype Option<T> = None | Some(value: T)

  datatype Node = Node(parent: Option<nat>, letter: char, children: seq<nat>, isWordEnd: bool, depth: nat)

  /** The root as the dictionary builds it: no parent, letter '\0', no children, unflagged, depth 0. */
  const EmptyRoot: Node := Node(None, '\0', [], false, 0)

  // ---------------------------------------------------------------------
  // The shape of a trie
  // ---------------------------------------------------------------------

  ghost predicate RootOk(ns: seq<Node>) {
    |ns| > 0 && ns[0].parent.None? && ns[0].letter == '\0' && ns[0].depth == 0
  }

  /** Every other node has an earlier node as parent, one level up. */
  ghost predicate ParentsOk(ns: seq<Node>) {
    forall i {:trigger ns[i].parent} :: 0 < i < |ns| ==>
      && ns[i].parent.Some?
      && ns[i].parent.value < i
      && ns[ns[i].parent.value].depth + 1 == ns[i].depth
  }

  /** The node a parent link points to (0 where there is none). */
  function Owner(ns: seq<Node>, i: nat): nat {
    if i < |ns| && ns[i].parent.Some? then ns[i].parent.value else 0
  }

  /** The parent of every other node lists it among its children. */
  ghost predicate Owned(ns: seq<Node>) {
    forall i {:trigger Owner(ns, i)} :: 0 < i < |ns| ==> Owner(ns, i) < |ns| && i in ns[Owner(ns, i)].children
  }

  /** Every child is a later node whose parent link points back. */
  ghost predicate ChildrenOk(ns: seq<Node>) {
    forall i, j :: 0 <= i < |ns| && 0 <= j < |ns[i].children| ==>
      i < ns[i].children[j] < |ns| && ns[ns[i].children[j]].parent == Some(i)
  }

  /** No node has two children with the same letter. */
  ghost predicate DistinctLetters(ns: seq<Node>) {
    forall i, j, k ::
      (0 <= i < |ns| && 0 <= j < k < |ns[i].children| && ns[i].children[j] < |ns| && ns[i].children[k] < |ns|) ==>
      ns[ns[i].children[j]].letter != ns[ns[i].children[k]].letter
  }

  ghost predicate WellFormed(ns: seq<Node>) {
    RootOk(ns) && ParentsOk(ns) && Owned(ns) && ChildrenOk(ns) && DistinctLetters(ns)
  }

  /** Every letter below the root is one of 'a'..'z'. */
  ghost predicate OverAlphabet(ns: seq<Node>) {
    forall i :: 0 < i < |ns| ==> IsLetter(ns[i].letter)
  }

  /** `isRoot()`: the node has no parent. */
  predicate IsRoot(ns: seq<Node>, n: nat)
    requires n < |ns|
  {
    ns[n].parent.None?
  }

  lemma IsRootIffFirst(ns: seq<Node>, n: nat)
    requires WellFormed(ns) && n < |ns|
    ensures IsRoot(ns, n) <==> n == 0
  {
  }

  function Parent(ns: seq<Node>, n: nat): (p: nat)
    requires WellFormed(ns) && 0 < n < |ns|
    ensures p < n && n in ns[p].children && ns[p].depth + 1 == ns[n].depth
  {
    Owner(ns, n)
  }

  /** Each non-root node is owned by exactly one node, its parent, and appears there once. */
  lemma SingleOwner(ns: seq<Node>, n: nat, p: nat, j: nat, k: nat)
    requires WellFormed(ns) && p < |ns|
    requires j < |ns[p].children| && k < |ns[p].children|
    requires ns[p].children[j] == n && ns[p].children[k] == n
    ensures 0 < n < |ns| && p == Parent(ns, n) && j == k
  {
  }

  // ---------------------------------------------------------------------
  // Following letters: find_if over the children, contains, intoString
  // ---------------------------------------------------------------------

  /** The first of `kids` whose letter is `c` (std::find_if over the children). */
  function FindChild(ns: seq<Node>, kids: seq<nat>, c: char): (r: Option<nat>)
    requires forall j :: 0 <= j < |kids| ==> kids[j] < |ns|
    ensures r.Some? ==> r.value in kids && ns[r.value].letter == c
    ensures r.None? ==> forall j :: 0 <= j < |kids| ==> ns[kids[j]].letter != c
    decreases |kids|
  {
    if |kids| == 0 then None
    else if ns[kids[0]].letter == c then Some(kids[0])
    else FindChild(ns, kids[1..], c)
  }

  /** The child of `n` with letter `c`, if any; with distinct letters it is unique. */
  lemma FindChildUnique(ns: seq<Node>, n: nat, k: nat, c: char)
    requires WellFormed(ns) && n < |ns|
    requires k in ns[n].children && ns[k].letter == c
    ensures FindChild(ns, ns[n].children, c) == Some(k)
  {
    var r := FindChild(ns, ns[n].children, c);
    var kids := ns[n].children;
    var j :| 0 <= j < |kids| && kids[j] == k;
    if r.Some? && r.value != k {
      assert false;
    }
  }

  /** The node reached from `n` by following the letters of `w`, if every step has a child. */
  function Reach(ns: seq<Node>, n: nat, w: string): (r: Option<nat>)
    requires WellFormed(ns) && n < |ns|
    ensures r.Some? ==> r.value < |ns|
    decreases |w|
  {
    if |w| == 0 then Some(n)
    else match FindChild(ns, ns[n].children, w[0])
      case None => None
      case Some(k) => Reach(ns, k, w[1..])
  }

  /** One step of `Reach`: through the child found for the first letter. */
  lemma ReachStep(ns: seq<Node>, n: nat, w: string, k: nat)
    requires WellFormed(ns) && n < |ns| && |w| > 0
    requires FindChild(ns, ns[n].children, w[0]) == Some(k)
    ensures Reach(ns, n, w) == Reach(ns, k, w[1..])
  {
  }

  /** `Node::contains`: follow the letters; true if the node reached is a word end. */
  function NodeContains(ns: seq<Node>, n: nat, w: string): bool
    requires WellFormed(ns) && n < |ns|
    decreases |w|
  {
    if |w| != 0 then
      match FindChild(ns, ns[n].children, w[0])
      case Some(k) => NodeContains(ns, k, w[1..])
      case None => false
    else
      ns[n].isWordEnd
  }

  /** One step of `NodeContains`: through the child found for the first letter. */
  lemma ContainsStep(ns: seq<Node>, n: nat, w: string, k: nat)
    requires WellFormed(ns) && n < |ns| && |w| > 0
    requires FindChild(ns, ns[n].children, w[0]) == Some(k)
    ensures NodeContains(ns, n, w) == NodeContains(ns, k, w[1..])
  {
  }

  lemma {:induction false} ContainsViaReach(ns: seq<Node>, n: nat, w: string)
    requires WellFormed(ns) && n < |ns|
    ensures NodeContains(ns, n, w) <==> Reach(ns, n, w).Some? && ns[Reach(ns, n, w).value].isWordEnd
    decreases |w|
  {
    if |w| != 0 {
      match FindChild(ns, ns[n].children, w[0])
      case Some(k) => ContainsViaReach(ns, k, w[1..]);
      case None =>
    }
  }

  /** The word spelled by the letters from the root (exclusive) down to `n`: what `intoString` rebuilds. */
  function PathWord(ns: seq<Node>, n: nat): (w: string)
    requires WellFormed(ns) && n < |ns|
    ensures |w| == ns[n].depth
    decreases n
  {
    if n == 0 then [] else PathWord(ns, Parent(ns, n)) + [ns[n].letter]
  }

  lemma {:induction false} PathWordOverAlphabet(ns: seq<Node>, n: nat)
    requires WellFormed(ns) && OverAlphabet(ns) && n < |ns|
    ensures IsWord(PathWord(ns, n))
    decreases n
  {
    if n > 0 {
      PathWordOverAlphabet(ns, Parent(ns, n));
    }
  }

  /** Following `w` from `m` ends at a node spelling the path to `m` followed by `w`. */
  lemma {:induction false} ReachSpells(ns: seq<Node>, m: nat, w: string)
    requires WellFormed(ns) && m < |ns| && Reach(ns, m, w).Some?
    ensures PathWord(ns, Reach(ns, m, w).value) == PathWord(ns, m) + w
    decreases |w|
  {
    if |w| > 0 {
      var k := FindChild(ns, ns[m].children, w[0]).value;
      ReachStep(ns, m, w, k);
      ReachSpells(ns, k, w[1..]);
      PathWordChild(ns, m, k, w);
    }
  }

  lemma {:induction false} ReachAppend(ns: seq<Node>, m: nat, u: string, c: char)
    requires WellFormed(ns) && m < |ns|
    ensures Reach(ns, m, u + [c]) == match Reach(ns, m, u) case None => None case Some(x) => Reach(ns, x, [c])
    decreases |u|
  {
    if |u| > 0 {
      assert (u + [c])[0] == u[0] && (u + [c])[1..] == u[1..] + [c];
      match FindChild(ns, ns[m].children, u[0])
      case None =>
      case Some(k) => ReachAppend(ns, k, u[1..], c);
    }
  }

  /** Following from the root the word a node spells leads back to that node. */
  lemma {:induction false} ReachPathWord(ns: seq<Node>, n: nat)
    requires WellFormed(ns) && n < |ns|
    ensures Reach(ns, 0, PathWord(ns, n)) == Some(n)
    decreases n
  {
    if n > 0 {
      var p := Parent(ns, n);
      ReachPathWord(ns, p);
      ReachAppend(ns, 0, PathWord(ns, p), ns[n].letter);
      FindChildUnique(ns, p, n, ns[n].letter);
      assert Reach(ns, n, []) == Some(n);
    }
  }

  /** `contains(w)` holds exactly when some word-end node spells `w`. */
  lemma ContainsIffSpelled(ns: seq<Node>, w: string)
    requires WellFormed(ns)
    ensures NodeContains(ns, 0, w) <==> exists n :: 0 <= n < |ns| && ns[n].isWordEnd && PathWord(ns, n) == w
  {
    ContainsViaReach(ns, 0, w);
    if NodeContains(ns, 0, w) {
      ReachSpells(ns, 0, w);
      assert PathWord(ns, 0) + w == w;
    }
    if exists n :: 0 <= n < |ns| && ns[n].isWordEnd && PathWord(ns, n) == w {
      var n :| 0 <= n < |ns| && ns[n].isWordEnd && PathWord(ns, n) == w;
      ReachPathWord(ns, n);
    }
  }

  /** `a` is `n` or an ancestor of `n`. */
  ghost predicate IsAncestor(ns: seq<Node>, a: nat, n: nat)
    requires WellFormed(ns) && n < |ns|
    decreases n
  {
    a == n || (n > 0 && IsAncestor(ns, a, Parent(ns, n)))
  }

  lemma {:induction false} AncestorBelow(ns: seq<Node>, a: nat, n: nat)
    requires WellFormed(ns) && n < |ns| && IsAncestor(ns, a, n)
    ensures a <= n && ns[a].depth <= ns[n].depth
    ensures a == n || ns[a].depth < ns[n].depth
    ensures PathWord(ns, a) == PathWord(ns, n)[..ns[a].depth]
    decreases n
  {
    if a != n {
      AncestorBelow(ns, a, Parent(ns, n));
    }
  }

  // ---------------------------------------------------------------------
  // Counting word ends; the deepest node
  // ---------------------------------------------------------------------

  /** The number of nodes flagged as word ends. */
  function FlaggedCount(ns: seq<Node>): nat
    decreases |ns|
  {
    if |ns| == 0 then 0
    else FlaggedCount(ns[..|ns| - 1]) + (if ns[|ns| - 1].isWordEnd then 1 else 0)
  }

  lemma {:induction false} FlaggedCountSameFlags(ns: seq<Node>, ns': seq<Node>)
    requires |ns| == |ns'|
    requires forall i :: 0 <= i < |ns| ==> ns[i].isWordEnd == ns'[i].isWordEnd
    ensures FlaggedCount(ns) == FlaggedCount(ns')
    decreases |ns|
  {
    if |ns| > 0 {
      FlaggedCountSameFlags(ns[..|ns| - 1], ns'[..|ns| - 1]);
    }
  }

  lemma {:induction false} FlaggedCountFlag(ns: seq<Node>, i: nat)
    requires i < |ns| && !ns[i].isWordEnd
    ensures FlaggedCount(ns[i := ns[i].(isWordEnd := true)]) == FlaggedCount(ns) + 1
    decreases |ns|
  {
    var ns' := ns[i := ns[i].(isWordEnd := true)];
    var n := |ns|;
    if i < n - 1 {
      assert ns'[..n - 1] == ns[..n - 1][i := ns[i].(isWordEnd := true)];
      FlaggedCountFlag(ns[..n - 1], i);
    } else {
      assert ns'[..n - 1] == ns[..n - 1];
    }
  }

  /** The greatest depth of any node. */
  function MaxDepth(ns: seq<Node>): (d: nat)
    ensures forall i :: 0 <= i < |ns| ==> ns[i].depth <= d
    decreases |ns|
  {
    if |ns| == 0 then 0
    else
      var d := MaxDepth(ns[..|ns| - 1]);
      if ns[|ns| - 1].depth > d then ns[|ns| - 1].depth else d
  }

  // ---------------------------------------------------------------------
  // Insertion
  // ---------------------------------------------------------------------

  /** One step of the node-creating loop: a new last node with letter `c` becomes `m`'s last child. */
  function Append(ns: seq<Node>, m: nat, c: char): (r: seq<Node>)
    requires m < |ns|
    ensures |r| == |ns| + 1
  {
    ns[m := ns[m].(children := ns[m].children + [|ns|])] + [Node(Some(m), c, [], false, ns[m].depth + 1)]
  }

  /** The node-creating loop: a chain of new nodes under `m`, one per letter of `s`, none flagged. */
  function Extend(ns: seq<Node>, m: nat, s: string): (r: seq<Node>)
    requires m < |ns|
    ensures |r| == |ns| + |s|
    decreases |s|
  {
    if |s| == 0 then ns else Extend(Append(ns, m, s[0]), |ns|, s[1..])
  }

  function Flag(ns: seq<Node>, i: nat): (r: seq<Node>)
    requires i < |ns|
    ensures |r| == |ns|
  {
    ns[i := ns[i].(isWordEnd := true)]
  }

  /** What `Node::insert` returns, with the nodes it leaves behind. */
  datatype Insertion = Insertion(nodes: seq<Node>, inserted: bool)

  /**
    `Node::insert` as the code has it, on node `n` and the remaining letters `w`. When the whole
    word is already a path, the node flagged is `n`, the parent of the last
    node of the path, not that last node; when a letter has no child, a chain
    of new nodes is hung under the node reached and its last node flagged.
  */
  function InsertAsWritten(ns: seq<Node>, n: nat, w: string): (r: Insertion)
    requires WellFormed(ns) && n < |ns|
    ensures |ns| <= |r.nodes|
    decreases |w|
  {
    if |w| == 0 then Insertion(ns, false)
    else match FindChild(ns, ns[n].children, w[0])
      case Some(k) =>
        if |w| > 1 then InsertAsWritten(ns, k, w[1..])
        else if !ns[n].isWordEnd then Insertion(Flag(ns, n), true)
        else Insertion(ns, false)
      case None =>
        Insertion(Flag(Extend(ns, n, w), |ns| + |w| - 1), true)
  }

  /** `ns'` keeps every node of `ns`, its links and letters; children are only appended and flags only set. */
  ghost predicate Grows(ns: seq<Node>, ns': seq<Node>) {
    && |ns| <= |ns'|
    && forall i :: 0 <= i < |ns| ==>
      && ns'[i].parent == ns[i].parent
      && ns'[i].letter == ns[i].letter
      && ns'[i].depth == ns[i].depth
      && ns[i].children <= ns'[i].children
      && (ns[i].isWordEnd ==> ns'[i].isWordEnd)
  }

  lemma GrowsTransitive(a: seq<Node>, b: seq<Node>, c: seq<Node>)
    requires Grows(a, b) && Grows(b, c)
    ensures Grows(a, c)
  {
    forall i | 0 <= i < |a|
      ensures a[i].children <= c[i].children
    {
      assert a[i].children <= b[i].children <= c[i].children;
    }
  }

  /** Flags do not enter the shape of a trie. */
  lemma FlagWellFormed(ns: seq<Node>, i: nat)
    requires WellFormed(ns) && i < |ns|
    ensures WellFormed(Flag(ns, i))
  {
    var r := Flag(ns, i);
    assert forall j :: 0 <= j < |ns| ==> r[j].children == ns[j].children && r[j].parent == ns[j].parent;
    forall j | 0 < j < |r|
      ensures Owner(r, j) < |r| && j in r[Owner(r, j)].children
    {
      assert Owner(r, j) == Owner(ns, j);
    }
  }

  lemma FlagGrows(ns: seq<Node>, i: nat)
    requires i < |ns|
    ensures Grows(ns, Flag(ns, i))
    ensures OverAlphabet(ns) ==> OverAlphabet(Flag(ns, i))
  {
  }

  /** The nodes after one `Append`, described node by node. */
  ghost predicate AppendedFrom(ns: seq<Node>, r: seq<Node>, m: nat, c: char) {
    && m < |ns| && |r| == |ns| + 1
    && (forall i :: 0 <= i < |ns| && i != m ==> r[i] == ns[i])
    && r[m] == ns[m].(children := ns[m].children + [|ns|])
    && r[|ns|] == Node(Some(m), c, [], false, ns[m].depth + 1)
  }

  lemma AppendDescribed(ns: seq<Node>, m: nat, c: char)
    requires m < |ns|
    ensures AppendedFrom(ns, Append(ns, m, c), m, c)
  {
  }

  /** A sequence described node by node as an `Append` is that `Append`. */
  lemma AppendIs(ns: seq<Node>, r: seq<Node>, m: nat, c: char)
    requires AppendedFrom(ns, r, m, c)
    ensures Append(ns, m, c) == r
  {
    var a := Append(ns, m, c);
    AppendDescribed(ns, m, c);
    assert forall i :: 0 <= i < |r| ==> a[i] == r[i];
  }

  lemma AppendParentsOk(ns: seq<Node>, r: seq<Node>, m: nat, c: char)
    requires ParentsOk(ns) && Owned(ns) && AppendedFrom(ns, r, m, c)
    ensures ParentsOk(r) && Owned(r)
  {
    var N := |ns|;
    forall i | 0 < i < |r|
      ensures r[i].parent.Some? && r[i].parent.value < i
      ensures r[r[i].parent.value].depth + 1 == r[i].depth
      ensures Owner(r, i) < |r| && i in r[Owner(r, i)].children
    {
      if i < N {
        var p := Owner(ns, i);
        assert Owner(r, i) == p;
        assert ns[p].children <= r[p].children;
      }
    }
  }

  lemma AppendChildrenOk(ns: seq<Node>, r: seq<Node>, m: nat, c: char)
    requires ChildrenOk(ns) && AppendedFrom(ns, r, m, c)
    ensures ChildrenOk(r)
  {
    forall i, j | 0 <= i < |r| && 0 <= j < |r[i].children|
      ensures i < r[i].children[j] < |r| && r[r[i].children[j]].parent == Some(i)
    {
      if i == m && j == |ns[m].children| {
      } else {
        assert r[i].children[j] == ns[i].children[j];
      }
    }
  }

  lemma AppendDistinct(ns: seq<Node>, r: seq<Node>, m: nat, c: char)
    requires ChildrenOk(ns) && DistinctLetters(ns) && AppendedFrom(ns, r, m, c)
    requires forall j :: 0 <= j < |ns[m].children| ==> ns[ns[m].children[j]].letter != c
    ensures DistinctLetters(r)
  {
    forall i, j, k | 0 <= i < |r| && 0 <= j < k < |r[i].children| && r[i].children[j] < |r| && r[i].children[k] < |r|
      ensures r[r[i].children[j]].letter != r[r[i].children[k]].letter
    {
      if i == m && k == |ns[m].children| {
        assert r[i].children[j] == ns[m].children[j];
      } else {
        assert r[i].children[j] == ns[i].children[j] && r[i].children[k] == ns[i].children[k];
      }
    }
  }

  lemma AppendWellFormed(ns: seq<Node>, m: nat, c: char)
    requires WellFormed(ns) && m < |ns|
    requires forall j :: 0 <= j < |ns[m].children| ==> ns[ns[m].children[j]].letter != c
    ensures WellFormed(Append(ns, m, c))
  {
    var r := Append(ns, m, c);
    AppendDescribed(ns, m, c);
    AppendParentsOk(ns, r, m, c);
    AppendChildrenOk(ns, r, m, c);
    AppendDistinct(ns, r, m, c);
  }

  /** An `Append` only grows the trie and flags nothing. */
  lemma AppendGrows(ns: seq<Node>, m: nat, c: char)
    requires m < |ns|
    ensures Grows(ns, Append(ns, m, c))
    ensures FlaggedCount(Append(ns, m, c)) == FlaggedCount(ns)
  {
    AppendDescribed(ns, m, c);
    AppendedGrows(ns, Append(ns, m, c), m, c);
  }

  lemma AppendedGrows(ns: seq<Node>, r: seq<Node>, m: nat, c: char)
    requires AppendedFrom(ns, r, m, c)
    ensures Grows(ns, r)
    ensures FlaggedCount(r) == FlaggedCount(ns)
  {
    assert r[..|ns|] == r[..|r| - 1];
    FlaggedCountSameFlags(r[..|ns|], ns);
  }

  /** The chain keeps the trie well formed. */
  lemma {:induction false} ExtendWellFormed(ns: seq<Node>, m: nat, s: string)
    requires WellFormed(ns) && m < |ns|
    requires |s| > 0 ==> forall j :: 0 <= j < |ns[m].children| ==> ns[ns[m].children[j]].letter != s[0]
    ensures WellFormed(Extend(ns, m, s))
    decreases |s|
  {
    if |s| > 0 {
      var a := Append(ns, m, s[0]);
      AppendWellFormed(ns, m, s[0]);
      assert a[|ns|].children == [];
      ExtendWellFormed(a, |ns|, s[1..]);
    }
  }

  /** The chain only grows the trie and flags nothing. */
  lemma {:induction false} ExtendGrows(ns: seq<Node>, m: nat, s: string)
    requires m < |ns|
    ensures Grows(ns, Extend(ns, m, s))
    ensures FlaggedCount(Extend(ns, m, s)) == FlaggedCount(ns)
    decreases |s|
  {
    if |s| > 0 {
      var a := Append(ns, m, s[0]);
      AppendGrows(ns, m, s[0]);
      ExtendGrows(a, |ns|, s[1..]);
      GrowsTransitive(ns, a, Extend(a, |ns|, s[1..]));
    }
  }

  /** The chain hangs one node per letter under `m`, each a level deeper than the one before. */
  lemma ExtendNodes(ns: seq<Node>, m: nat, s: string)
    requires m < |ns|
    ensures var r := Extend(ns, m, s);
      forall t :: 0 <= t < |s| ==>
        && r[|ns| + t].letter == s[t]
        && r[|ns| + t].parent == Some(if t == 0 then m else |ns| + t - 1)
        && r[|ns| + t].depth == ns[m].depth + t + 1
        && !r[|ns| + t].isWordEnd
    ensures forall i :: 0 <= i < |ns| ==> Extend(ns, m, s)[i].letter == ns[i].letter
    ensures forall i :: 0 <= i < |ns| && i != m ==> Extend(ns, m, s)[i] == ns[i]
    ensures |s| > 0 ==> Extend(ns, m, s)[m] == ns[m].(children := ns[m].children + [|ns|])
  {
    ExtendChain(ns, m, s);
    ExtendKeeps(ns, m, s);
    if |s| > 0 {
      assert Extend(ns, m, s)[m].letter == ns[m].letter;
    }
  }

  /** The old nodes keep everything, except that `m` gains the first new node as its last child. */
  lemma {:induction false} ExtendKeeps(ns: seq<Node>, m: nat, s: string)
    requires m < |ns|
    ensures forall i :: 0 <= i < |ns| && i != m ==> Extend(ns, m, s)[i] == ns[i]
    ensures |s| > 0 ==> Extend(ns, m, s)[m] == ns[m].(children := ns[m].children + [|ns|])
    ensures |s| == 0 ==> Extend(ns, m, s) == ns
    decreases |s|
  {
    if |s| > 0 {
      var a := Append(ns, m, s[0]);
      ExtendKeeps(a, |ns|, s[1..]);
      assert Extend(a, |ns|, s[1..]) == Extend(ns, m, s);
    }
  }

  /** The new nodes form a chain under `m`, one per letter of `s`, none flagged. */
  lemma {:induction false} ExtendChain(ns: seq<Node>, m: nat, s: string)
    requires m < |ns|
    ensures var r := Extend(ns, m, s);
      forall t :: 0 <= t < |s| ==>
        && r[|ns| + t].letter == s[t]
        && r[|ns| + t].parent == Some(if t == 0 then m else |ns| + t - 1)
        && r[|ns| + t].depth == ns[m].depth + t + 1
        && !r[|ns| + t].isWordEnd
    decreases |s|
  {
    if |s| > 0 {
      var N := |ns|;
      var a := Append(ns, m, s[0]);
      ExtendChain(a, N, s[1..]);
      ExtendKeeps(a, N, s[1..]);
      var r := Extend(a, N, s[1..]);
      var e := Extend(ns, m, s);
      assert e == r;
      forall t | 0 <= t < |s|
        ensures
          && e[|ns| + t].letter == s[t]
          && e[|ns| + t].parent == Some(if t == 0 then m else |ns| + t - 1)
          && e[|ns| + t].depth == ns[m].depth + t + 1
          && !e[|ns| + t].isWordEnd
      {
        if t == 0 {
          assert e[N] == r[N];
          assert r[N].letter == s[0] && r[N].parent == Some(m) && r[N].depth == ns[m].depth + 1 && !r[N].isWordEnd;
        } else {
          assert e[N + t] == r[|a| + (t - 1)];
          assert s[1..][t - 1] == s[t];
        }
      }
    }
  }

  /** New letters from the alphabet keep a trie over the alphabet. */
  lemma ExtendOverAlphabet(ns: seq<Node>, m: nat, s: string)
    requires m < |ns| && OverAlphabet(ns) && IsWord(s)
    ensures OverAlphabet(Extend(ns, m, s))
  {
    ExtendNodes(ns, m, s);
    var r := Extend(ns, m, s);
    forall i | 0 < i < |r|
      ensures IsLetter(r[i].letter)
    {
      if i >= |ns| {
        assert r[|ns| + (i - |ns|)].letter == s[i - |ns|];
      }
    }
  }

  /** Following the letters of the chain from `m` ends at its last node. */
  lemma {:induction false} ExtendReach(ns: seq<Node>, m: nat, s: string)
    requires m < |ns| && |s| > 0 && WellFormed(Extend(ns, m, s))
    ensures Reach(Extend(ns, m, s), m, s) == Some(|ns| + |s| - 1)
    decreases |s|, 1
  {
    var N := |ns|;
    var r := Extend(ns, m, s);
    ExtendNodes(ns, m, s);
    assert r[N].letter == s[0] && N in r[m].children;
    FindChildUnique(r, m, N, s[0]);
    ReachStep(r, m, s, N);
    ExtendReachTail(ns, m, s);
  }

  /** Below the first new node, the rest of the chain is followed to its last node. */
  lemma {:induction false} ExtendReachTail(ns: seq<Node>, m: nat, s: string)
    requires m < |ns| && |s| > 0 && WellFormed(Extend(ns, m, s))
    ensures Reach(Extend(ns, m, s), |ns|, s[1..]) == Some(|ns| + |s| - 1)
    decreases |s|, 0
  {
    if |s| > 1 {
      ExtendReach(Append(ns, m, s[0]), |ns|, s[1..]);
    }
  }

  /** What `insert` leaves behind is again a trie. */
  lemma {:induction false} InsertWellFormed(ns: seq<Node>, n: nat, w: string)
    requires WellFormed(ns) && n < |ns|
    ensures WellFormed(InsertAsWritten(ns, n, w).nodes)
    decreases |w|
  {
    if |w| > 0 {
      match FindChild(ns, ns[n].children, w[0])
      case Some(k) =>
        if |w| > 1 {
          InsertWellFormed(ns, k, w[1..]);
        } else {
          FlagWellFormed(ns, n);
        }
      case None =>
        ChainWellFormed(ns, n, w);
    }
  }

  /** `insert` only grows the trie, and keeps it over the alphabet when the word is. */
  lemma {:induction false} InsertGrows(ns: seq<Node>, n: nat, w: string)
    requires WellFormed(ns) && n < |ns|
    ensures Grows(ns, InsertAsWritten(ns, n, w).nodes)
    ensures OverAlphabet(ns) && IsWord(w) ==> OverAlphabet(InsertAsWritten(ns, n, w).nodes)
    decreases |w|
  {
    if |w| > 0 {
      match FindChild(ns, ns[n].children, w[0])
      case Some(k) =>
        if |w| > 1 {
          if OverAlphabet(ns) && IsWord(w) {
            assert IsWord(w[1..]);
          }
          InsertGrows(ns, k, w[1..]);
        } else {
          FlagGrows(ns, n);
        }
      case None =>
        ChainGrows(ns, n, w);
    }
  }

  /** A new chain under `n` with its last node flagged keeps the trie well formed. */
  lemma ChainWellFormed(ns: seq<Node>, n: nat, w: string)
    requires WellFormed(ns) && n < |ns| && |w| > 0
    requires forall j :: 0 <= j < |ns[n].children| ==> ns[ns[n].children[j]].letter != w[0]
    ensures WellFormed(Flag(Extend(ns, n, w), |ns| + |w| - 1))
  {
    ExtendWellFormed(ns, n, w);
    FlagWellFormed(Extend(ns, n, w), |ns| + |w| - 1);
  }

  /** A new chain with its last node flagged only grows the trie. */
  lemma ChainGrows(ns: seq<Node>, n: nat, w: string)
    requires n < |ns| && |w| > 0
    ensures Grows(ns, Flag(Extend(ns, n, w), |ns| + |w| - 1))
    ensures OverAlphabet(ns) && IsWord(w) ==> OverAlphabet(Flag(Extend(ns, n, w), |ns| + |w| - 1))
  {
    var e := Extend(ns, n, w);
    ExtendGrows(ns, n, w);
    FlagGrows(e, |ns| + |w| - 1);
    GrowsTransitive(ns, e, Flag(e, |ns| + |w| - 1));
    if OverAlphabet(ns) && IsWord(w) {
      ExtendOverAlphabet(ns, n, w);
    }
  }

  /**
    `insert` reports true exactly when it turns one word-end flag on, so the
    number of flagged nodes goes up by one on true and stays on false.
  */
  lemma {:induction false} InsertFlagsOne(ns: seq<Node>, n: nat, w: string)
    requires WellFormed(ns) && n < |ns|
    ensures var r := InsertAsWritten(ns, n, w);
      FlaggedCount(r.nodes) == FlaggedCount(ns) + (if r.inserted then 1 else 0)
    decreases |w|
  {
    if |w| > 0 {
      match FindChild(ns, ns[n].children, w[0])
      case Some(k) =>
        if |w| > 1 {
          InsertFlagsOne(ns, k, w[1..]);
        } else if !ns[n].isWordEnd {
          FlaggedCountFlag(ns, n);
        }
      case None =>
        ChainFlagsOne(ns, n, w);
    }
  }

  /** The new chain adds exactly one flagged node: its last. */
  lemma ChainFlagsOne(ns: seq<Node>, n: nat, w: string)
    requires n < |ns| && |w| > 0
    ensures FlaggedCount(Flag(Extend(ns, n, w), |ns| + |w| - 1)) == FlaggedCount(ns) + 1
  {
    ExtendGrows(ns, n, w);
    ExtendNodes(ns, n, w);
    var e := Extend(ns, n, w);
    assert e[|ns| + (|w| - 1)].letter == w[|w| - 1];
    assert !e[|ns| + (|w| - 1)].isWordEnd;
    FlaggedCountFlag(e, |ns| + |w| - 1);
  }

  /** An empty word is not inserted and changes nothing. */
  lemma InsertEmpty(ns: seq<Node>, n: nat)
    requires WellFormed(ns) && n < |ns|
    ensures InsertAsWritten(ns, n, []) == Insertion(ns, false)
  {
  }

  /** A child found before growth is still the child found after it. */
  lemma {:induction false} FindChildGrows(ns: seq<Node>, ns': seq<Node>, kids: seq<nat>, kids': seq<nat>, c: char)
    requires forall j :: 0 <= j < |kids| ==> kids[j] < |ns|
    requires forall j :: 0 <= j < |kids'| ==> kids'[j] < |ns'|
    requires kids <= kids' && Grows(ns, ns')
    requires FindChild(ns, kids, c).Some?
    ensures FindChild(ns', kids', c) == FindChild(ns, kids, c)
    decreases |kids|
  {
    assert kids'[0] == kids[0];
    if ns[kids[0]].letter != c {
      assert kids[1..] <= kids'[1..];
      FindChildGrows(ns, ns', kids[1..], kids'[1..], c);
    }
  }

  /** Growth keeps every word: the dictionary never forgets one. */
  lemma {:induction false} ContainsGrows(ns: seq<Node>, ns': seq<Node>, n: nat, w: string)
    requires WellFormed(ns) && WellFormed(ns') && Grows(ns, ns') && n < |ns|
    requires NodeContains(ns, n, w)
    ensures NodeContains(ns', n, w)
    decreases |w|
  {
    if |w| != 0 {
      var k := FindChild(ns, ns[n].children, w[0]).value;
      FindChildGrows(ns, ns', ns[n].children, ns'[n].children, w[0]);
      ContainsGrows(ns, ns', k, w[1..]);
    }
  }

  /** Any word contained before an insertion is still contained after it. */
  lemma InsertKeepsWords(ns: seq<Node>, w: string, v: string)
    requires WellFormed(ns) && NodeContains(ns, 0, v)
    ensures var r := InsertAsWritten(ns, 0, w).nodes;
      WellFormed(r) && NodeContains(r, 0, v)
  {
    InsertWellFormed(ns, 0, w);
    InsertGrows(ns, 0, w);
    ContainsGrows(ns, InsertAsWritten(ns, 0, w).nodes, 0, v);
  }

  /**
    Insertion as the code has it. If the whole word is already a path, the
    node flagged is the one reached by all but its last letter (the parent of
    the path's last node), and the result says whether that flag was off.
    Otherwise the word is inserted properly and is contained afterwards.
  */
  lemma InsertAsWrittenEffect(ns: seq<Node>, n: nat, w: string)
    requires WellFormed(ns) && n < |ns| && |w| > 0
    ensures var r := InsertAsWritten(ns, n, w);
      if Reach(ns, n, w).Some? then
        && Reach(ns, n, w[..|w| - 1]).Some?
        && var p := Reach(ns, n, w[..|w| - 1]).value;
        && r.inserted == !ns[p].isWordEnd
        && r.nodes == (if r.inserted then Flag(ns, p) else ns)
      else
        r.inserted && WellFormed(r.nodes) && NodeContains(r.nodes, n, w)
  {
    if Reach(ns, n, w).Some? {
      InsertAlongPath(ns, n, w);
    } else {
      InsertOffPath(ns, n, w);
    }
  }

  /** When the whole word is a path, `insert` flags the node reached by all but its last letter. */
  lemma {:induction false} InsertAlongPath(ns: seq<Node>, n: nat, w: string)
    requires WellFormed(ns) && n < |ns| && |w| > 0 && Reach(ns, n, w).Some?
    ensures Reach(ns, n, w[..|w| - 1]).Some?
    ensures var p := Reach(ns, n, w[..|w| - 1]).value;
      var r := InsertAsWritten(ns, n, w);
      && r.inserted == !ns[p].isWordEnd
      && r.nodes == (if r.inserted then Flag(ns, p) else ns)
    decreases |w|
  {
    var k := FindChild(ns, ns[n].children, w[0]).value;
    ReachStep(ns, n, w, k);
    if |w| > 1 {
      InsertAlongPath(ns, k, w[1..]);
      var u := w[..|w| - 1];
      assert u[0] == w[0] && u[1..] == w[1..][..|w[1..]| - 1];
      ReachStep(ns, n, u, k);
    } else {
      assert w[..|w| - 1] == [];
    }
  }

  /** When some letter leaves the paths, `insert` adds the word and reports true. */
  lemma {:induction false} InsertOffPath(ns: seq<Node>, n: nat, w: string)
    requires WellFormed(ns) && n < |ns| && |w| > 0 && Reach(ns, n, w).None?
    ensures var r := InsertAsWritten(ns, n, w);
      r.inserted && WellFormed(r.nodes) && NodeContains(r.nodes, n, w)
    decreases |w|
  {
    var r := InsertAsWritten(ns, n, w);
    InsertWellFormed(ns, n, w);
    match FindChild(ns, ns[n].children, w[0])
    case Some(k) =>
      ReachStep(ns, n, w, k);
      InsertOffPath(ns, k, w[1..]);
      InsertGrows(ns, k, w[1..]);
      FindChildGrows(ns, r.nodes, ns[n].children, r.nodes[n].children, w[0]);
      ContainsStep(r.nodes, n, w, k);
    case None =>
      ChainContains(ns, n, w);
  }

  /** The new chain with its last node flagged spells the word from `n`. */
  lemma ChainContains(ns: seq<Node>, n: nat, w: string)
    requires WellFormed(ns) && n < |ns| && |w| > 0
    requires forall j :: 0 <= j < |ns[n].children| ==> ns[ns[n].children[j]].letter != w[0]
    ensures var r := Flag(Extend(ns, n, w), |ns| + |w| - 1);
      WellFormed(r) && NodeContains(r, n, w)
  {
    var e := Extend(ns, n, w);
    var r := Flag(e, |ns| + |w| - 1);
    ExtendWellFormed(ns, n, w);
    ExtendReach(ns, n, w);
    FlagWellFormed(e, |ns| + |w| - 1);
    ReachSameShape(e, r, n, w);
    ContainsViaReach(r, n, w);
  }

  /** Following letters depends only on the shape, not on the flags. */
  lemma {:induction false} ReachSameShape(ns: seq<Node>, ns': seq<Node>, n: nat, w: string)
    requires WellFormed(ns) && WellFormed(ns') && |ns| == |ns'| && n < |ns|
    requires forall i :: 0 <= i < |ns| ==> ns'[i].children == ns[i].children && ns'[i].letter == ns[i].letter
    ensures Reach(ns', n, w) == Reach(ns, n, w)
    decreases |w|
  {
    if |w| > 0 {
      FindChildSameShape(ns, ns', ns[n].children, w[0]);
      match FindChild(ns, ns[n].children, w[0])
      case None =>
      case Some(k) => ReachSameShape(ns, ns', k, w[1..]);
    }
  }

  lemma {:induction false} FindChildSameShape(ns: seq<Node>, ns': seq<Node>, kids: seq<nat>, c: char)
    requires |ns| == |ns'| && forall j :: 0 <= j < |kids| ==> kids[j] < |ns|
    requires forall i :: 0 <= i < |ns| ==> ns'[i].letter == ns[i].letter
    ensures FindChild(ns', kids, c) == FindChild(ns, kids, c)
    decreases |kids|
  {
    if |kids| > 0 {
      FindChildSameShape(ns, ns', kids[1..], c);
    }
  }

  /** The trie holding only "cat": root, 'c', 'a', 't', the last flagged. */
  const CatTrie: seq<Node> := [
    Node(None, '\0', [1], false, 0),
    Node(Some(0), 'c', [2], false, 1),
    Node(Some(1), 'a', [3], false, 2),
    Node(Some(2), 't', [], true, 3)]

  lemma CatTrieWellFormed()
    ensures WellFormed(CatTrie)
  {
    assert ParentsOk(CatTrie) by { CatTrieLinks(); }
    assert Owned(CatTrie) by {
      CatTrieLinks();
      forall i | 0 < i < |CatTrie|
        ensures Owner(CatTrie, i) < |CatTrie| && i in CatTrie[Owner(CatTrie, i)].children
      {
        assert Owner(CatTrie, i) == i - 1 && CatTrie[i - 1].children[0] == i;
      }
    }
    assert ChildrenOk(CatTrie) by {
      CatTrieLinks();
      forall i, j | 0 <= i < |CatTrie| && 0 <= j < |CatTrie[i].children|
        ensures i < CatTrie[i].children[j] < |CatTrie| && CatTrie[CatTrie[i].children[j]].parent == Some(i)
      {
        assert j == 0 && CatTrie[i].children[0] == i + 1;
      }
    }
    assert DistinctLetters(CatTrie) by { CatTrieLinks(); }
  }

  /** The links of `CatTrie`: each node has the next one as its only child. */
  lemma CatTrieLinks()
    ensures forall i :: 0 <= i < |CatTrie| ==> |CatTrie[i].children| == (if i < 3 then 1 else 0)
    ensures forall i :: 0 <= i < 3 ==> CatTrie[i].children[0] == i + 1
    ensures forall i :: 0 < i < |CatTrie| ==> CatTrie[i].parent == Some(i - 1) && CatTrie[i].depth == i
  {
    forall i | 0 <= i < |CatTrie|
      ensures |CatTrie[i].children| == (if i < 3 then 1 else 0)
      ensures i < 3 ==> CatTrie[i].children[0] == i + 1
      ensures 0 < i ==> CatTrie[i].parent == Some(i - 1) && CatTrie[i].depth == i
    {
      assert i == 0 || i == 1 || i == 2 || i == 3;
    }
  }

  /** `CatTrie` spells "cat" down to node 3, from the alphabet only. */
  lemma CatPathWord()
    ensures WellFormed(CatTrie) && OverAlphabet(CatTrie)
    ensures PathWord(CatTrie, 2) == "ca" && PathWord(CatTrie, 3) == "cat"
  {
    var ns := CatTrie;
    CatTrieWellFormed();
    assert PathWord(ns, 1) == "c" by {
      assert Parent(ns, 1) == 0;
    }
    assert PathWord(ns, 2) == "ca" by {
      assert Parent(ns, 2) == 1 && "ca" == "c" + ['a'];
    }
    assert PathWord(ns, 3) == "cat" by {
      assert Parent(ns, 3) == 2 && "cat" == "ca" + ['t'];
    }
  }

  /** Inserting "cat" into the empty trie builds `CatTrie`. */
  lemma InsertCatOnce()
    ensures WellFormed([EmptyRoot])
    ensures InsertAsWritten([EmptyRoot], 0, "cat") == Insertion(CatTrie, true)
  {
    var ns := [EmptyRoot];
    var c := Node(Some(0), 'c', [], false, 1);
    var a := Node(Some(1), 'a', [], false, 2);
    var t := Node(Some(2), 't', [], false, 3);
    var e1 := [EmptyRoot.(children := [1]), c];
    var e2 := [EmptyRoot.(children := [1]), c.(children := [2]), a];
    var e3 := [EmptyRoot.(children := [1]), c.(children := [2]), a.(children := [3]), t];
    AppendIs(ns, e1, 0, 'c');
    AppendIs(e1, e2, 1, 'a');
    AppendIs(e2, e3, 2, 't');
    assert Extend(e2, 2, "t") == e3 by {
      assert "t"[1..] == [];
    }
    assert Extend(e1, 1, "at") == e3 by {
      assert "at"[0] == 'a' && "at"[1..] == "t";
    }
    assert Extend(ns, 0, "cat") == e3 by {
      assert "cat"[0] == 'c' && "cat"[1..] == "at";
    }
    assert Flag(e3, 3) == CatTrie;
    assert WellFormed(ns);
    assert FindChild(ns, ns[0].children, 'c') == None;
  }

  /** Inserting "cat" a second time flags the node for "ca" and reports true. */
  lemma InsertCatTwice()
    ensures WellFormed(CatTrie)
    ensures InsertAsWritten(CatTrie, 0, "cat") == Insertion(Flag(CatTrie, 2), true)
  {
    var once := CatTrie;
    CatTrieWellFormed();
    assert FindChild(once, once[0].children, 'c') == Some(1);
    assert FindChild(once, once[1].children, 'a') == Some(2);
    assert FindChild(once, once[2].children, 't') == Some(3);
    var twice := Flag(once, 2);
    assert InsertAsWritten(once, 2, "t") == Insertion(twice, true);
    assert InsertAsWritten(once, 1, "at") == Insertion(twice, true) by {
      assert "at"[0] == 'a' && "at"[1..] == "t";
    }
    assert "cat"[0] == 'c' && "cat"[1..] == "at";
  }

  /**
    Inserting a word whose path is already complete can still report true:
    inserting "cat" a second time flags the node spelling "ca".
  */
  lemma ReinsertFlagsPrefix()
    ensures var once := InsertAsWritten([EmptyRoot], 0, "cat").nodes;
      && WellFormed(once)
      && var twice := InsertAsWritten(once, 0, "cat");
      && twice.inserted
      && |twice.nodes| == 4
      && twice.nodes[2].isWordEnd
      && WellFormed(twice.nodes)
      && PathWord(twice.nodes, 2) == "ca"
  {
    InsertCatOnce();
    InsertCatTwice();
    var twice := Flag(CatTrie, 2);
    CatPathWord();
    FlagWellFormed(CatTrie, 2);
    FlagGrows(CatTrie, 2);
    PathWordGrows(CatTrie, twice, 2);
  }

  // ---------------------------------------------------------------------
  // Insertion as evidently meant
  // ---------------------------------------------------------------------

  /**
    `Node::insert` with the node flagged corrected: when the whole word is
    already a path, the node flagged is the last node of that path, `*it`,
    and the result says whether its flag was off.
  */
  function Insert(ns: seq<Node>, n: nat, w: string): (r: Insertion)
    requires WellFormed(ns) && n < |ns|
    ensures |ns| <= |r.nodes|
    decreases |w|
  {
    if |w| == 0 then Insertion(ns, false)
    else match FindChild(ns, ns[n].children, w[0])
      case Some(k) =>
        if |w| > 1 then Insert(ns, k, w[1..])
        else if !ns[k].isWordEnd then Insertion(Flag(ns, k), true)
        else Insertion(ns, false)
      case None =>
        Insertion(Flag(Extend(ns, n, w), |ns| + |w| - 1), true)
  }

  /**
    Where some letter of the word leaves the paths, both insertions agree;
    where the whole word is a path, `Insert` flags the path's last node.
  */
  lemma {:induction false} InsertCases(ns: seq<Node>, n: nat, w: string)
    requires WellFormed(ns) && n < |ns| && |w| > 0
    ensures match Reach(ns, n, w)
      case None => Insert(ns, n, w) == InsertAsWritten(ns, n, w)
      case Some(t) => Insert(ns, n, w) == if ns[t].isWordEnd then Insertion(ns, false) else Insertion(Flag(ns, t), true)
    decreases |w|
  {
    match FindChild(ns, ns[n].children, w[0])
    case Some(k) =>
      ReachStep(ns, n, w, k);
      if |w| > 1 {
        InsertCases(ns, k, w[1..]);
      } else {
        assert Reach(ns, k, w[1..]) == Some(k);
      }
    case None =>
  }

  /** Growth keeps the word every old node spells. */
  lemma {:induction false} PathWordGrows(ns: seq<Node>, r: seq<Node>, m: nat)
    requires WellFormed(ns) && WellFormed(r) && Grows(ns, r) && m < |ns|
    ensures PathWord(r, m) == PathWord(ns, m)
    decreases m
  {
    if m > 0 {
      assert Parent(r, m) == Parent(ns, m);
      PathWordGrows(ns, r, Parent(ns, m));
    }
  }

  /** `r` has the flags of `ns` on its old nodes, and one more: node `t`. */
  ghost predicate FlagsOneMore(ns: seq<Node>, r: seq<Node>, t: nat) {
    && |ns| <= |r| && t < |r|
    && forall i :: 0 <= i < |r| ==> (r[i].isWordEnd <==> (i < |ns| && ns[i].isWordEnd) || i == t)
  }

  /** A new chain flags its last node and nothing else. */
  lemma ChainFlags(ns: seq<Node>, n: nat, w: string)
    requires n < |ns| && |w| > 0
    ensures var r := Flag(Extend(ns, n, w), |ns| + |w| - 1);
      FlagsOneMore(ns, r, |r| - 1)
  {
    ExtendNodes(ns, n, w);
    var e := Extend(ns, n, w);
    forall i | |ns| <= i < |e|
      ensures !e[i].isWordEnd
    {
      assert e[|ns| + (i - |ns|)].letter == w[i - |ns|];
    }
  }

  /** The last node of a new chain spells the word of `n` followed by the chain's letters. */
  lemma ChainSpells(ns: seq<Node>, n: nat, w: string)
    requires WellFormed(ns) && n < |ns| && |w| > 0
    requires forall j :: 0 <= j < |ns[n].children| ==> ns[ns[n].children[j]].letter != w[0]
    ensures var r := Flag(Extend(ns, n, w), |ns| + |w| - 1);
      WellFormed(r) && PathWord(r, |r| - 1) == PathWord(ns, n) + w
  {
    var e := Extend(ns, n, w);
    var last := |ns| + |w| - 1;
    var r := Flag(e, last);
    ExtendWellFormed(ns, n, w);
    ExtendGrows(ns, n, w);
    ExtendReach(ns, n, w);
    ReachSpells(e, n, w);
    PathWordGrows(ns, e, n);
    FlagWellFormed(e, last);
    FlagGrows(e, last);
    PathWordGrows(e, r, last);
  }

  /** Off the paths, a letter that has a child is never the last one, and `insert` descends into that child. */
  lemma OffPathStep(ns: seq<Node>, n: nat, w: string, k: nat)
    requires WellFormed(ns) && n < |ns| && |w| > 0 && Reach(ns, n, w).None?
    requires FindChild(ns, ns[n].children, w[0]) == Some(k)
    ensures k < |ns| && |w| > 1 && Reach(ns, k, w[1..]).None?
    ensures InsertAsWritten(ns, n, w) == InsertAsWritten(ns, k, w[1..])
  {
    ReachStep(ns, n, w, k);
    if |w| == 1 {
      assert false;
    }
  }

  /** Off the paths, `insert` flags exactly one new node: the last one. */
  lemma {:induction false} OffPathFlags(ns: seq<Node>, n: nat, w: string)
    requires WellFormed(ns) && n < |ns| && |w| > 0 && Reach(ns, n, w).None?
    ensures var r := InsertAsWritten(ns, n, w).nodes;
      |ns| < |r| && FlagsOneMore(ns, r, |r| - 1)
    decreases |w|
  {
    match FindChild(ns, ns[n].children, w[0])
    case Some(k) =>
      OffPathStep(ns, n, w, k);
      OffPathFlags(ns, k, w[1..]);
    case None =>
      ChainFlags(ns, n, w);
  }

  lemma PathWordChild(ns: seq<Node>, n: nat, k: nat, w: string)
    requires WellFormed(ns) && n < |ns| && k in ns[n].children && |w| > 0 && ns[k].letter == w[0]
    ensures k < |ns| && PathWord(ns, k) + w[1..] == PathWord(ns, n) + w
  {
    assert Parent(ns, k) == n;
    assert w == [w[0]] + w[1..];
  }

  /** Off the paths, the last node `insert` creates spells the word from `n`. */
  lemma {:induction false} OffPathSpells(ns: seq<Node>, n: nat, w: string)
    requires WellFormed(ns) && n < |ns| && |w| > 0 && Reach(ns, n, w).None?
    ensures var r := InsertAsWritten(ns, n, w).nodes;
      |ns| < |r| && WellFormed(r) && PathWord(r, |r| - 1) == PathWord(ns, n) + w
    decreases |w|
  {
    match FindChild(ns, ns[n].children, w[0])
    case Some(k) =>
      OffPathStep(ns, n, w, k);
      OffPathSpells(ns, k, w[1..]);
      PathWordChild(ns, n, k, w);
    case None =>
      ChainSpells(ns, n, w);
  }

  /** Flagging one more node whose word is `w` adds `w` to the dictionary and nothing else. */
  lemma WordsAfter(ns: seq<Node>, r: seq<Node>, t: nat, w: string)
    requires WellFormed(ns) && WellFormed(r) && Grows(ns, r) && FlagsOneMore(ns, r, t)
    requires PathWord(r, t) == w
    ensures forall v :: NodeContains(r, 0, v) <==> NodeContains(ns, 0, v) || v == w
  {
    forall v
      ensures NodeContains(r, 0, v) <==> NodeContains(ns, 0, v) || v == w
    {
      ContainsIffSpelled(ns, v);
      ContainsIffSpelled(r, v);
      if NodeContains(r, 0, v) && v != w {
        var m :| 0 <= m < |r| && r[m].isWordEnd && PathWord(r, m) == v;
        PathWordGrows(ns, r, m);
      }
      if NodeContains(ns, 0, v) {
        var m :| 0 <= m < |ns| && ns[m].isWordEnd && PathWord(ns, m) == v;
        PathWordGrows(ns, r, m);
      }
    }
  }

  /**
    The corrected `insert` from the root keeps a trie that only grows, and
    raises the number of flagged nodes by one exactly when it reports true.
  */
  lemma InsertShape(ns: seq<Node>, w: string)
    requires WellFormed(ns)
    ensures var r := Insert(ns, 0, w);
      && WellFormed(r.nodes) && Grows(ns, r.nodes)
      && FlaggedCount(r.nodes) == FlaggedCount(ns) + (if r.inserted then 1 else 0)
      && (OverAlphabet(ns) && IsWord(w) ==> OverAlphabet(r.nodes))
  {
    if |w| > 0 {
      InsertCases(ns, 0, w);
      match Reach(ns, 0, w)
      case None =>
        InsertWellFormed(ns, 0, w);
        InsertGrows(ns, 0, w);
        InsertFlagsOne(ns, 0, w);
      case Some(t) =>
        if !ns[t].isWordEnd {
          FlagWellFormed(ns, t);
          FlagGrows(ns, t);
          FlaggedCountFlag(ns, t);
        }
    }
  }

  /** Off the paths, `insert` grows the trie and flags one new node. */
  lemma OffPathShape(ns: seq<Node>, w: string)
    requires WellFormed(ns) && |w| > 0 && Reach(ns, 0, w).None?
    ensures var r := InsertAsWritten(ns, 0, w).nodes;
      Grows(ns, r) && FlagsOneMore(ns, r, |r| - 1)
  {
    InsertGrows(ns, 0, w);
    OffPathFlags(ns, 0, w);
  }

  /** Off the paths, the node `insert` flags spells the word. */
  lemma OffPathWord(ns: seq<Node>, w: string)
    requires WellFormed(ns) && |w| > 0 && Reach(ns, 0, w).None?
    ensures var r := InsertAsWritten(ns, 0, w).nodes;
      WellFormed(r) && PathWord(r, |r| - 1) == w
  {
    OffPathSpells(ns, 0, w);
    assert PathWord(ns, 0) + w == w;
  }

  /** Off the paths, `insert` adds the word and no other. */
  lemma InsertWordsOffPath(ns: seq<Node>, w: string)
    requires WellFormed(ns) && |w| > 0 && Reach(ns, 0, w).None?
    ensures var r := InsertAsWritten(ns, 0, w).nodes;
      && WellFormed(r)
      && forall v :: NodeContains(r, 0, v) <==> NodeContains(ns, 0, v) || v == w
  {
    var r := InsertAsWritten(ns, 0, w).nodes;
    OffPathShape(ns, w);
    OffPathWord(ns, w);
    WordsAfter(ns, r, |r| - 1, w);
  }

  lemma InsertWordsOnPath(ns: seq<Node>, w: string, t: nat)
    requires WellFormed(ns) && |w| > 0 && Reach(ns, 0, w) == Some(t) && !ns[t].isWordEnd
    ensures var r := Insert(ns, 0, w);
      && WellFormed(r.nodes) && r.inserted
      && forall v :: NodeContains(r.nodes, 0, v) <==> NodeContains(ns, 0, v) || v == w
  {
    InsertCases(ns, 0, w);
    var r := Flag(ns, t);
    ReachSpells(ns, 0, w);
    assert PathWord(ns, 0) + w == w;
    FlagWellFormed(ns, t);
    FlagGrows(ns, t);
    PathWordGrows(ns, r, t);
    WordsAfter(ns, r, t, w);
  }

  /**
    The corrected `insert` from the root reports true exactly when the word
    is non-empty and not yet in the dictionary, and afterwards the dictionary
    holds the words it held and that word, and no other.
  */
  lemma InsertWords(ns: seq<Node>, w: string)
    requires WellFormed(ns)
    ensures var r := Insert(ns, 0, w);
      && WellFormed(r.nodes)
      && r.inserted == (|w| > 0 && !NodeContains(ns, 0, w))
      && forall v :: NodeContains(r.nodes, 0, v) <==> NodeContains(ns, 0, v) || (|w| > 0 && v == w)
  {
    if |w| > 0 {
      InsertCases(ns, 0, w);
      ContainsViaReach(ns, 0, w);
      match Reach(ns, 0, w)
      case None =>
        InsertWordsOffPath(ns, w);
        InsertOffPath(ns, 0, w);
      case Some(t) =>
        if !ns[t].isWordEnd {
          InsertWordsOnPath(ns, w, t);
        }
    }
  }

  /** Inserting "cat" a second time, as meant, reports false and leaves the trie as it was. */
  lemma ReinsertUnchanged()
    ensures WellFormed(CatTrie)
    ensures Insert(CatTrie, 0, "cat") == Insertion(CatTrie, false)
  {
    CatPathWord();
    ReachPathWord(CatTrie, 3);
    assert CatTrie[3].isWordEnd;
    InsertCases(CatTrie, 0, "cat");
  }
}
