/**
  The searches of the dictionary as functions on the trie's nodes and on
  letter counts. Two of the C++ node searches do not do what their callers
  need, so each comes twice: as the code has it, and as evidently meant.
  `NodeDerivationsAsWritten` is `Node::anagramDerivations` and
  `NodeDerivations` the search that also finds derivations whose extra
  letter comes last; `NodeAnagrams` is `Node::anagrams` and
  `NodeExactAnagrams` the exact-anagram search it was meant to be. At the end
  come the chains that `findLongest` records.

  Each node search takes the histogram by value. Its result here is the
  sequence of what the C++ code pushes onto the result vector, in push order.
*/
module Search {
  import opened Histograms
  import opened Tries

  /** `Dictionary::Derivation`: a word end found, and the node whose letter is the extra one. */
  datatype Derivation = Derivation(wordEnd: nat, derivationNode: nat)

  /** `a` plus `b` is `c`, count by count. */
  predicate Balanced(a: Counts, b: Counts, c: Counts) {
    forall i :: 0 <= i < SIZE ==> a[i] + b[i] == c[i]
  }

  /** With nothing left over, the letters of the path are exactly the target. */
  lemma BalancedZero(a: Counts, b: Counts, c: Counts)
    requires Balanced(a, b, c) && IsZero(b)
    ensures a == c
  {
    assert forall i :: 0 <= i < SIZE ==> a[i] == c[i];
  }

  /** What the letters of a path must add up to: the query, plus the extra letter once one is chosen. */
  function Target(ns: seq<Node>, h0: Counts, dn: Option<nat>): Counts
    requires dn.Some? ==> dn.value < |ns|
  {
    if dn.Some? then Added(h0, ns[dn.value].letter) else h0
  }

  /** Appending a letter to a word adds it to the word's histogram. */
  lemma TallySnoc(w: string, c: char)
    ensures Tally(w + [c]) == Added(Tally(w), c)
  {
    assert (w + [c])[..|w|] == w;
  }

  /** The counts of the word a node spells: its parent's plus its own letter. */
  lemma TallyPathWord(ns: seq<Node>, n: nat)
    requires WellFormed(ns) && 0 < n < |ns|
    ensures Tally(PathWord(ns, n)) == Added(Tally(PathWord(ns, Parent(ns, n))), ns[n].letter)
  {
    TallySnoc(PathWord(ns, Parent(ns, n)), ns[n].letter);
  }

  // ---------------------------------------------------------------------
  // Node::anagramDerivations
  // ---------------------------------------------------------------------

  /**
    `Node::anagramDerivations` as the code has it, on node `n` with histogram
    `h` and extra-letter node `dn`. When the node's letter cannot be removed, it becomes the extra
    letter if none was chosen yet, and otherwise the branch is dropped. The
    search goes on into the children while the histogram is not clear, and
    records the node when the histogram is clear and the node ends a word.
  */
  function NodeDerivationsAsWritten(ns: seq<Node>, n: nat, h: Counts, dn: Option<nat>): seq<Derivation>
    requires WellFormed(ns) && n < |ns|
    requires dn.Some? ==> dn.value < |ns|
    decreases |ns| - n, 1, 0
  {
    var rm := Removed(h, ns[n].letter);
    if !rm.ok && dn.Some? then []
    else
      var dn' := if rm.ok then dn else Some(n);
      if !IsZero(rm.counts) then ChildrenDerivationsAsWritten(ns, n, |ns[n].children|, rm.counts, dn')
      else if ns[n].isWordEnd && dn'.Some? then [Derivation(n, dn'.value)]
      else []
  }

  /** The loop over the first `j` children of `p`, each searched with the same `h` and `dn`. */
  function ChildrenDerivationsAsWritten(ns: seq<Node>, p: nat, j: nat, h: Counts, dn: Option<nat>): seq<Derivation>
    requires WellFormed(ns) && p < |ns| && j <= |ns[p].children|
    requires dn.Some? ==> dn.value < |ns|
    decreases |ns| - p, 0, j
  {
    if j == 0 then []
    else ChildrenDerivationsAsWritten(ns, p, j - 1, h, dn) + NodeDerivationsAsWritten(ns, ns[p].children[j - 1], h, dn)
  }

  /** `Dictionary::anagramDerivations(Histogram)` as written: the search from every child of the root. */
  function DerivationsAsWritten(ns: seq<Node>, h0: Counts): seq<Derivation>
    requires WellFormed(ns)
  {
    ChildrenDerivationsAsWritten(ns, 0, |ns[0].children|, h0, None)
  }

  /**
    What a derivation found for query `h0` promises: the word end is flagged,
    the extra-letter node is a non-root node on its path, and the word's
    letters are the query's plus that node's letter.
  */
  ghost predicate Sound(ns: seq<Node>, h0: Counts, d: Derivation)
    requires WellFormed(ns)
  {
    && 0 < d.derivationNode < |ns| && d.wordEnd < |ns|
    && ns[d.wordEnd].isWordEnd
    && IsAncestor(ns, d.derivationNode, d.wordEnd)
    && Tally(PathWord(ns, d.wordEnd)) == Added(h0, ns[d.derivationNode].letter)
  }

  /**
    The search state at node `n`: the letters above `n` and the histogram
    left add up to the target, and the extra-letter node lies above `n`.
  */
  ghost predicate SearchState(ns: seq<Node>, n: nat, h: Counts, dn: Option<nat>, h0: Counts)
    requires WellFormed(ns) && 0 < n < |ns|
  {
    && (dn.Some? ==> 0 < dn.value < |ns| && IsAncestor(ns, dn.value, Parent(ns, n)))
    && Balanced(Tally(PathWord(ns, Parent(ns, n))), h, Target(ns, h0, dn))
  }

  /** The extra-letter node the search carries on from `n`. */
  function NextExtra(ns: seq<Node>, n: nat, h: Counts, dn: Option<nat>): Option<nat>
    requires n < |ns|
  {
    if Removed(h, ns[n].letter).ok then dn else Some(n)
  }

  /** Removing the node's letter, or choosing it as the extra one, keeps the search state one level down. */
  lemma StepState(ns: seq<Node>, n: nat, h: Counts, dn: Option<nat>, h0: Counts)
    requires WellFormed(ns) && 0 < n < |ns| && SearchState(ns, n, h, dn, h0)
    requires Removed(h, ns[n].letter).ok || dn.None?
    ensures var dn' := NextExtra(ns, n, h, dn);
      && (dn'.Some? ==> 0 < dn'.value < |ns| && IsAncestor(ns, dn'.value, n))
      && Balanced(Tally(PathWord(ns, n)), Removed(h, ns[n].letter).counts, Target(ns, h0, dn'))
  {
    TallyPathWord(ns, n);
  }

  /** A node the search records is sound: its letters are the query's and the extra one. */
  lemma RecordSound(ns: seq<Node>, n: nat, h: Counts, dn: Option<nat>, h0: Counts)
    requires WellFormed(ns) && 0 < n < |ns| && SearchState(ns, n, h, dn, h0)
    requires Removed(h, ns[n].letter).ok || dn.None?
    requires NextExtra(ns, n, h, dn).Some? && IsZero(Removed(h, ns[n].letter).counts) && ns[n].isWordEnd
    ensures Sound(ns, h0, Derivation(n, NextExtra(ns, n, h, dn).value))
    ensures !IsZero(h) ==> NextExtra(ns, n, h, dn).value != n
  {
    var dn' := NextExtra(ns, n, h, dn);
    StepState(ns, n, h, dn, h0);
    BalancedZero(Tally(PathWord(ns, n)), Removed(h, ns[n].letter).counts, Target(ns, h0, dn'));
    if Removed(h, ns[n].letter).ok {
      AncestorBelow(ns, dn'.value, Parent(ns, n));
    }
  }

  /** One step of `NodeDerivationsAsWritten` when the branch is not dropped. */
  lemma NodeDerivationsAsWrittenStep(ns: seq<Node>, n: nat, h: Counts, dn: Option<nat>)
    requires WellFormed(ns) && n < |ns| && (dn.Some? ==> dn.value < |ns|)
    requires Removed(h, ns[n].letter).ok || dn.None?
    ensures var rm := Removed(h, ns[n].letter);
      var dn' := NextExtra(ns, n, h, dn);
      NodeDerivationsAsWritten(ns, n, h, dn) ==
        if !IsZero(rm.counts) then ChildrenDerivationsAsWritten(ns, n, |ns[n].children|, rm.counts, dn')
        else if ns[n].isWordEnd && dn'.Some? then [Derivation(n, dn'.value)]
        else []
  {
  }

  lemma {:induction false} NodeDerivationsAsWrittenSound(ns: seq<Node>, n: nat, h: Counts, dn: Option<nat>, h0: Counts)
    requires WellFormed(ns) && 0 < n < |ns| && SearchState(ns, n, h, dn, h0)
    ensures forall d :: d in NodeDerivationsAsWritten(ns, n, h, dn) ==>
      Sound(ns, h0, d) && (!IsZero(h) ==> d.derivationNode != d.wordEnd)
    decreases |ns| - n, 1, 0
  {
    var rm := Removed(h, ns[n].letter);
    if rm.ok || dn.None? {
      var dn' := NextExtra(ns, n, h, dn);
      StepState(ns, n, h, dn, h0);
      NodeDerivationsAsWrittenStep(ns, n, h, dn);
      if !IsZero(rm.counts) {
        ChildrenDerivationsAsWrittenSound(ns, n, |ns[n].children|, rm.counts, dn', h0);
      } else if ns[n].isWordEnd && dn'.Some? {
        RecordSound(ns, n, h, dn, h0);
      }
    }
  }

  lemma {:induction false} ChildrenDerivationsAsWrittenSound(ns: seq<Node>, p: nat, j: nat, h: Counts, dn: Option<nat>, h0: Counts)
    requires WellFormed(ns) && p < |ns| && j <= |ns[p].children|
    requires dn.Some? ==> 0 < dn.value < |ns| && IsAncestor(ns, dn.value, p)
    requires Balanced(Tally(PathWord(ns, p)), h, Target(ns, h0, dn))
    ensures forall d :: d in ChildrenDerivationsAsWritten(ns, p, j, h, dn) ==>
      Sound(ns, h0, d) && (!IsZero(h) ==> d.derivationNode != d.wordEnd)
    decreases |ns| - p, 0, j
  {
    if j > 0 {
      var k := ns[p].children[j - 1];
      assert Parent(ns, k) == p;
      ChildrenDerivationsAsWrittenSound(ns, p, j - 1, h, dn, h0);
      NodeDerivationsAsWrittenSound(ns, k, h, dn, h0);
    }
  }

  /**
    Every derivation found for query `h0` is sound. When the query is not
    empty, the extra letter is never the word's last letter: the search stops
    at the node where the histogram becomes clear, so "cats" is not found for
    "cat".
  */
  lemma DerivationsAsWrittenSound(ns: seq<Node>, h0: Counts)
    requires WellFormed(ns)
    ensures forall d :: d in DerivationsAsWritten(ns, h0) ==>
      Sound(ns, h0, d) && (!IsZero(h0) ==> d.derivationNode != d.wordEnd)
  {
    assert PathWord(ns, 0) == [];
    assert Tally([]) == Zeros();
    ChildrenDerivationsAsWrittenSound(ns, 0, |ns[0].children|, h0, None, h0);
  }

  /**
    The derivation search as evidently meant. It differs from the code in one
    case only: when the histogram becomes clear before an extra letter has
    been chosen, it goes on into the children, where the extra letter can
    still come.
  */
  function NodeDerivations(ns: seq<Node>, n: nat, h: Counts, dn: Option<nat>): seq<Derivation>
    requires WellFormed(ns) && n < |ns|
    requires dn.Some? ==> dn.value < |ns|
    decreases |ns| - n, 1, 0
  {
    var rm := Removed(h, ns[n].letter);
    if !rm.ok && dn.Some? then []
    else
      var dn' := if rm.ok then dn else Some(n);
      if dn'.Some? && IsZero(rm.counts) then
        if ns[n].isWordEnd then [Derivation(n, dn'.value)] else []
      else ChildrenDerivations(ns, n, |ns[n].children|, rm.counts, dn')
  }

  function ChildrenDerivations(ns: seq<Node>, p: nat, j: nat, h: Counts, dn: Option<nat>): seq<Derivation>
    requires WellFormed(ns) && p < |ns| && j <= |ns[p].children|
    requires dn.Some? ==> dn.value < |ns|
    decreases |ns| - p, 0, j
  {
    if j == 0 then []
    else ChildrenDerivations(ns, p, j - 1, h, dn) + NodeDerivations(ns, ns[p].children[j - 1], h, dn)
  }

  /** One more child of `p` adds the derivations found below it; every child comes later than `p`. */
  lemma ChildrenDerivationsNext(ns: seq<Node>, p: nat, j: nat, h: Counts, dn: Option<nat>)
    requires WellFormed(ns) && p < |ns| && j < |ns[p].children|
    requires dn.Some? ==> dn.value < |ns|
    ensures p < ns[p].children[j] < |ns|
    ensures ChildrenDerivations(ns, p, j + 1, h, dn) ==
      ChildrenDerivations(ns, p, j, h, dn) + NodeDerivations(ns, ns[p].children[j], h, dn)
  {
  }

  function Derivations(ns: seq<Node>, h0: Counts): seq<Derivation>
    requires WellFormed(ns)
  {
    ChildrenDerivations(ns, 0, |ns[0].children|, h0, None)
  }

  lemma {:induction false} NodeDerivationsSound(ns: seq<Node>, n: nat, h: Counts, dn: Option<nat>, h0: Counts)
    requires WellFormed(ns) && 0 < n < |ns| && SearchState(ns, n, h, dn, h0)
    ensures forall d :: d in NodeDerivations(ns, n, h, dn) ==> Sound(ns, h0, d)
    decreases |ns| - n, 1, 0
  {
    var rm := Removed(h, ns[n].letter);
    if rm.ok || dn.None? {
      var dn' := NextExtra(ns, n, h, dn);
      StepState(ns, n, h, dn, h0);
      NodeDerivationsStep(ns, n, h, dn);
      if dn'.Some? && IsZero(rm.counts) {
        if ns[n].isWordEnd {
          RecordSound(ns, n, h, dn, h0);
        }
      } else {
        ChildrenDerivationsSound(ns, n, |ns[n].children|, rm.counts, dn', h0);
      }
    }
  }

  lemma {:induction false} ChildrenDerivationsSound(ns: seq<Node>, p: nat, j: nat, h: Counts, dn: Option<nat>, h0: Counts)
    requires WellFormed(ns) && p < |ns| && j <= |ns[p].children|
    requires dn.Some? ==> 0 < dn.value < |ns| && IsAncestor(ns, dn.value, p)
    requires Balanced(Tally(PathWord(ns, p)), h, Target(ns, h0, dn))
    ensures forall d :: d in ChildrenDerivations(ns, p, j, h, dn) ==> Sound(ns, h0, d)
    decreases |ns| - p, 0, j
  {
    if j > 0 {
      var k := ns[p].children[j - 1];
      assert Parent(ns, k) == p;
      ChildrenDerivationsSound(ns, p, j - 1, h, dn, h0);
      NodeDerivationsSound(ns, k, h, dn, h0);
    }
  }

  lemma {:induction false} ChildrenDerivationsMember(ns: seq<Node>, p: nat, j: nat, h: Counts, dn: Option<nat>, i: nat, d: Derivation)
    requires WellFormed(ns) && p < |ns| && i < j <= |ns[p].children|
    requires dn.Some? ==> dn.value < |ns|
    requires d in NodeDerivations(ns, ns[p].children[i], h, dn)
    ensures d in ChildrenDerivations(ns, p, j, h, dn)
    decreases j
  {
    assert ChildrenDerivations(ns, p, j, h, dn) ==
      ChildrenDerivations(ns, p, j - 1, h, dn) + NodeDerivations(ns, ns[p].children[j - 1], h, dn);
    if i < j - 1 {
      ChildrenDerivationsMember(ns, p, j - 1, h, dn, i, d);
    }
  }

  /**
    The search state after node `m`, on the way to word end `t`: `m` lies on
    the path to `t`; before the extra letter is chosen the letters down to
    `m` fit in the query, and once it is chosen the target is exactly the
    word's letters.
  */
  ghost predicate Tracked(ns: seq<Node>, m: nat, h: Counts, dn: Option<nat>, h0: Counts, t: nat)
    requires WellFormed(ns) && m < |ns| && t < |ns|
  {
    && (dn.Some? ==> 0 < dn.value < |ns| && IsAncestor(ns, dn.value, m))
    && Balanced(Tally(PathWord(ns, m)), h, Target(ns, h0, dn))
    && IsAncestor(ns, m, t)
    && (dn.None? ==> NonNegative(h))
    && (dn.Some? ==> Target(ns, h0, dn) == Tally(PathWord(ns, t)))
  }

  /** Removing a letter that is there keeps every count non-negative. */
  lemma RemovedNonNegative(h: Counts, c: char)
    requires NonNegative(h)
    ensures NonNegative(Removed(h, c).counts)
  {
  }

  /** Only the letter the query lacks can fail to be removed on the way to a derivation. */
  lemma ExtraLetter(h0: Counts, hp: Counts, h: Counts, hw: Counts, ln: char, c: char)
    requires IsLetter(ln) && IsLetter(c)
    requires Balanced(hp, h, h0) && h[Index(ln)] == 0
    requires hw == Added(h0, c) && Added(hp, ln)[Index(ln)] <= hw[Index(ln)]
    ensures ln == c
  {
  }

  /** One node further down the path to `t`, the search stays on track. */
  lemma TrackStep(ns: seq<Node>, n: nat, h: Counts, dn: Option<nat>, h0: Counts, t: nat, c: char)
    requires WellFormed(ns) && OverAlphabet(ns) && 0 < n < |ns| && t < |ns|
    requires IsLetter(c) && Tally(PathWord(ns, t)) == Added(h0, c)
    requires Tracked(ns, Parent(ns, n), h, dn, h0, t) && IsAncestor(ns, n, t)
    ensures Removed(h, ns[n].letter).ok || dn.None?
    ensures Tracked(ns, n, Removed(h, ns[n].letter).counts, NextExtra(ns, n, h, dn), h0, t)
  {
    AncestorBelow(ns, n, t);
    var w := PathWord(ns, t);
    var w0 := Tally(w);
    var u := PathWord(ns, n);
    var ln := ns[n].letter;
    var li := Index(ln);
    TallyPathWord(ns, n);
    TallyGap(w, u, li);
    var rm := Removed(h, ln);
    if !rm.ok {
      assert dn.None? && h[li] == 0;
      ExtraLetter(h0, Tally(PathWord(ns, Parent(ns, n))), h, Tally(w), ln, c);
      assert Target(ns, h0, Some(n)) == w0 by {
        assert Target(ns, h0, Some(n)) == Added(h0, c);
      }
    } else if dn.None? {
      RemovedNonNegative(h, ln);
    }
    StepState(ns, n, h, dn, h0);
  }

  /** Where the search stops: at `t` once the extra letter is chosen, and with letters left above it. */
  lemma TrackEnd(ns: seq<Node>, n: nat, h: Counts, dn: Option<nat>, h0: Counts, t: nat, c: char)
    requires WellFormed(ns) && OverAlphabet(ns) && n < |ns| && t < |ns|
    requires IsLetter(c) && Tally(PathWord(ns, t)) == Added(h0, c)
    requires Tracked(ns, n, h, dn, h0, t)
    ensures dn.Some? && n == t ==> IsZero(h)
    ensures !(dn.Some? && n == t) ==> n != t && (dn.Some? ==> !IsZero(h))
  {
    AncestorBelow(ns, n, t);
    var w := PathWord(ns, t);
    var u := PathWord(ns, n);
    if dn.Some? && n == t {
      BalancedSelf(u, h);
    } else {
      if dn.None? {
        NoExtraShort(w, u, h, h0, c);
      }
      assert n != t;
      PathWordOverAlphabet(ns, t);
      var gi := GapLetter(w, u);
      if dn.Some? {
        assert Balanced(Tally(u), h, Tally(w));
        assert h[gi] > 0;
      }
    }
  }

  /** With the path's letters already the whole target, nothing is left over. */
  lemma BalancedSelf(u: string, h: Counts)
    requires Balanced(Tally(u), h, Tally(u))
    ensures IsZero(h)
  {
    forall i | 0 <= i < SIZE
      ensures h[i] == 0
    {
      assert Tally(u)[i] + h[i] == Tally(u)[i];
    }
  }

  /** Without the extra letter, a prefix of a word one letter longer than the query is strictly shorter. */
  lemma NoExtraShort(w: string, u: string, h: Counts, h0: Counts, c: char)
    requires IsLetter(c) && Tally(w) == Added(h0, c)
    requires |u| <= |w| && u == w[..|u|]
    requires Balanced(Tally(u), h, h0) && NonNegative(h)
    ensures |u| < |w|
  {
    var ci := Index(c);
    TallyGap(w, u, ci);
    assert Tally(u)[ci] + h[ci] == h0[ci];
    assert multiset(w[|u|..])[c] > 0;
  }

  /** A word strictly longer than its prefix `u` has some letter more often than `u`. */
  lemma GapLetter(w: string, u: string) returns (gi: int)
    requires |u| < |w| && u == w[..|u|] && IsWord(w)
    ensures 0 <= gi < SIZE && Tally(w)[gi] > Tally(u)[gi]
  {
    var g := w[|u|..];
    assert g[0] == w[|u|] && IsLetter(g[0]);
    gi := Index(g[0]);
    TallyGap(w, u, gi);
    assert g[0] in multiset(g);
  }

  /** One step of `NodeDerivations` when the branch is not dropped. */
  lemma NodeDerivationsStep(ns: seq<Node>, n: nat, h: Counts, dn: Option<nat>)
    requires WellFormed(ns) && n < |ns| && (dn.Some? ==> dn.value < |ns|)
    requires Removed(h, ns[n].letter).ok || dn.None?
    ensures var rm := Removed(h, ns[n].letter);
      var dn' := NextExtra(ns, n, h, dn);
      NodeDerivations(ns, n, h, dn) ==
        if dn'.Some? && IsZero(rm.counts) then
          if ns[n].isWordEnd then [Derivation(n, dn'.value)] else []
        else ChildrenDerivations(ns, n, |ns[n].children|, rm.counts, dn')
  {
  }

  lemma {:induction false} NodeDerivationsComplete(ns: seq<Node>, n: nat, h: Counts, dn: Option<nat>, h0: Counts, t: nat, c: char)
    returns (d: Derivation)
    requires WellFormed(ns) && OverAlphabet(ns) && 0 < n < |ns| && t < |ns| && ns[t].isWordEnd
    requires IsLetter(c) && Tally(PathWord(ns, t)) == Added(h0, c)
    requires Tracked(ns, Parent(ns, n), h, dn, h0, t) && IsAncestor(ns, n, t)
    ensures d in NodeDerivations(ns, n, h, dn) && d.wordEnd == t
    decreases |ns| - n
  {
    TrackStep(ns, n, h, dn, h0, t, c);
    var h' := Removed(h, ns[n].letter).counts;
    var dn' := NextExtra(ns, n, h, dn);
    TrackEnd(ns, n, h', dn', h0, t, c);
    NodeDerivationsStep(ns, n, h, dn);
    if dn'.Some? && n == t {
      d := Derivation(n, dn'.value);
    } else {
      var j := ChildOnPath(ns, n, t);
      var k := ns[n].children[j];
      assert Parent(ns, k) == n;
      d := NodeDerivationsComplete(ns, k, h', dn', h0, t, c);
      ChildrenDerivationsMember(ns, n, |ns[n].children|, h', dn', j, d);
    }
  }

  /**
    With a query that has no negative count, over a trie of words over
    'a'..'z', every derivation found is sound, and a word end is found
    exactly when its word is the query plus one letter.
  */
  lemma DerivationsCorrect(ns: seq<Node>, h0: Counts)
    requires WellFormed(ns) && OverAlphabet(ns) && NonNegative(h0)
    ensures forall d :: d in Derivations(ns, h0) ==> Sound(ns, h0, d)
    ensures forall t :: (exists d :: d in Derivations(ns, h0) && d.wordEnd == t) <==>
      0 < t < |ns| && ns[t].isWordEnd && DiffByOne(Tally(PathWord(ns, t)), h0)
  {
    assert PathWord(ns, 0) == [];
    assert Tally([]) == Zeros();
    ChildrenDerivationsSound(ns, 0, |ns[0].children|, h0, None, h0);
    forall t | exists d :: d in Derivations(ns, h0) && d.wordEnd == t
      ensures 0 < t < |ns| && ns[t].isWordEnd && DiffByOne(Tally(PathWord(ns, t)), h0)
    {
      var d :| d in Derivations(ns, h0) && d.wordEnd == t;
      AncestorBelow(ns, d.derivationNode, t);
      SoundDiffByOne(ns, h0, d);
    }
    forall t | 0 < t < |ns| && ns[t].isWordEnd && DiffByOne(Tally(PathWord(ns, t)), h0)
      ensures exists d :: d in Derivations(ns, h0) && d.wordEnd == t
    {
      DerivationAt(ns, h0, t);
    }
  }

  /** A word end whose word is the query plus one letter is found, below the root's child on its path. */
  lemma DerivationAt(ns: seq<Node>, h0: Counts, t: nat)
    requires WellFormed(ns) && OverAlphabet(ns) && NonNegative(h0)
    requires 0 < t < |ns| && ns[t].isWordEnd && DiffByOne(Tally(PathWord(ns, t)), h0)
    ensures exists d :: d in Derivations(ns, h0) && d.wordEnd == t
  {
    DiffByOneIffAdded(Tally(PathWord(ns, t)), h0);
    var i :| 0 <= i < SIZE && Tally(PathWord(ns, t)) == Added(h0, Letter(i));
    RootAncestor(ns, t);
    var j := ChildOnPath(ns, 0, t);
    var k := ns[0].children[j];
    assert Parent(ns, k) == 0;
    assert PathWord(ns, 0) == [];
    assert Tally([]) == Zeros();
    var d := NodeDerivationsComplete(ns, k, h0, None, h0, t, Letter(i));
    ChildrenDerivationsMember(ns, 0, |ns[0].children|, h0, None, j, d);
  }

  /**
    A sound derivation's word is the query plus exactly one letter, and so
    one letter longer than the query, when the trie holds words over 'a'..'z'.
  */
  lemma SoundDiffByOne(ns: seq<Node>, h0: Counts, d: Derivation)
    requires WellFormed(ns) && OverAlphabet(ns) && Sound(ns, h0, d)
    ensures DiffByOne(Tally(PathWord(ns, d.wordEnd)), h0)
    ensures ns[d.wordEnd].depth == Total(h0) + 1
  {
    var c := ns[d.derivationNode].letter;
    AddedDiffByOne(h0, c);
    AddedTotal(h0, c);
    PathWordOverAlphabet(ns, d.wordEnd);
    TallyTotal(PathWord(ns, d.wordEnd));
  }

  // ---------------------------------------------------------------------
  // Node::anagrams, as written and as evidently intended
  // ---------------------------------------------------------------------

  /**
    `Node::anagrams` as the code has it: after removing the node's letter it
    goes into the children only when the histogram is clear, and records the
    node only when it is not.
  */
  function NodeAnagrams(ns: seq<Node>, n: nat, h: Counts): seq<nat>
    requires WellFormed(ns) && n < |ns|
    decreases |ns| - n, 1, 0
  {
    var rm := Removed(h, ns[n].letter);
    if !rm.ok then []
    else if IsZero(rm.counts) then ChildrenAnagrams(ns, n, |ns[n].children|, rm.counts)
    else if ns[n].isWordEnd then [n]
    else []
  }

  function ChildrenAnagrams(ns: seq<Node>, p: nat, j: nat, h: Counts): seq<nat>
    requires WellFormed(ns) && p < |ns| && j <= |ns[p].children|
    decreases |ns| - p, 0, j
  {
    if j == 0 then []
    else ChildrenAnagrams(ns, p, j - 1, h) + NodeAnagrams(ns, ns[p].children[j - 1], h)
  }

  /** `Dictionary::anagrams`: every child of the root searched with the query's histogram. */
  function Anagrams(ns: seq<Node>, h0: Counts): seq<nat>
    requires WellFormed(ns)
  {
    ChildrenAnagrams(ns, 0, |ns[0].children|, h0)
  }

  /** What the code reports for a child of the root: a word end whose letter the query has, with more left. */
  predicate ReportedAsWritten(ns: seq<Node>, h0: Counts, n: nat)
    requires n < |ns|
  {
    var rm := Removed(h0, ns[n].letter);
    ns[n].isWordEnd && rm.ok && !IsZero(rm.counts)
  }

  lemma {:induction false} ClearFindsNothing(ns: seq<Node>, p: nat, j: nat, h: Counts)
    requires WellFormed(ns) && p < |ns| && j <= |ns[p].children| && IsZero(h)
    ensures ChildrenAnagrams(ns, p, j, h) == []
    decreases j
  {
    if j > 0 {
      ClearFindsNothing(ns, p, j - 1, h);
    }
  }

  lemma {:induction false} AnagramsAsWrittenUpTo(ns: seq<Node>, h0: Counts, j: nat)
    requires WellFormed(ns) && j <= |ns[0].children|
    ensures forall n :: n in ChildrenAnagrams(ns, 0, j, h0) <==>
      n in ns[0].children[..j] && ReportedAsWritten(ns, h0, n)
    decreases j
  {
    if j > 0 {
      AnagramsAsWrittenUpTo(ns, h0, j - 1);
      var k := ns[0].children[j - 1];
      var rm := Removed(h0, ns[k].letter);
      if rm.ok && IsZero(rm.counts) {
        ClearFindsNothing(ns, k, |ns[k].children|, rm.counts);
      }
      assert NodeAnagrams(ns, k, h0) == if ReportedAsWritten(ns, h0, k) then [k] else [];
      assert ns[0].children[..j] == ns[0].children[..j - 1] + [k];
    }
  }

  /**
    As written, `anagrams` reports exactly the one-letter words that are in
    the query with letters to spare: the search never goes below the
    children of the root with a histogram that is not clear.
  */
  lemma AnagramsAsWritten(ns: seq<Node>, h0: Counts)
    requires WellFormed(ns)
    ensures forall n :: n in Anagrams(ns, h0) <==> n in ns[0].children && ReportedAsWritten(ns, h0, n)
    ensures forall n :: n in Anagrams(ns, h0) ==> n < |ns| && |PathWord(ns, n)| == 1
  {
    AnagramsAsWrittenUpTo(ns, h0, |ns[0].children|);
    assert ns[0].children[..|ns[0].children|] == ns[0].children;
    forall n | n in Anagrams(ns, h0)
      ensures n < |ns| && |PathWord(ns, n)| == 1
    {
      assert Parent(ns, n) == 0;
    }
  }

  /** The exact-anagram search: descend while letters remain, record a word end once the histogram is clear. */
  function NodeExactAnagrams(ns: seq<Node>, n: nat, h: Counts): seq<nat>
    requires WellFormed(ns) && n < |ns|
    decreases |ns| - n, 1, 0
  {
    var rm := Removed(h, ns[n].letter);
    if !rm.ok then []
    else if !IsZero(rm.counts) then ChildrenExactAnagrams(ns, n, |ns[n].children|, rm.counts)
    else if ns[n].isWordEnd then [n]
    else []
  }

  function ChildrenExactAnagrams(ns: seq<Node>, p: nat, j: nat, h: Counts): seq<nat>
    requires WellFormed(ns) && p < |ns| && j <= |ns[p].children|
    decreases |ns| - p, 0, j
  {
    if j == 0 then []
    else ChildrenExactAnagrams(ns, p, j - 1, h) + NodeExactAnagrams(ns, ns[p].children[j - 1], h)
  }

  function ExactAnagrams(ns: seq<Node>, h0: Counts): seq<nat>
    requires WellFormed(ns)
  {
    ChildrenExactAnagrams(ns, 0, |ns[0].children|, h0)
  }

  /** `n` is a non-root word end whose word has exactly the letters of `h0`. */
  ghost predicate IsAnagram(ns: seq<Node>, h0: Counts, n: nat)
    requires WellFormed(ns)
  {
    0 < n < |ns| && ns[n].isWordEnd && Tally(PathWord(ns, n)) == h0
  }

  lemma {:induction false} NodeExactSound(ns: seq<Node>, n: nat, h: Counts, h0: Counts)
    requires WellFormed(ns) && 0 < n < |ns|
    requires Balanced(Tally(PathWord(ns, Parent(ns, n))), h, h0)
    ensures forall t :: t in NodeExactAnagrams(ns, n, h) ==> IsAnagram(ns, h0, t)
    decreases |ns| - n, 1, 0
  {
    var rm := Removed(h, ns[n].letter);
    if rm.ok {
      TallyPathWord(ns, n);
      assert Balanced(Tally(PathWord(ns, n)), rm.counts, h0);
      if !IsZero(rm.counts) {
        assert NodeExactAnagrams(ns, n, h) == ChildrenExactAnagrams(ns, n, |ns[n].children|, rm.counts);
        ChildrenExactSound(ns, n, |ns[n].children|, rm.counts, h0);
      } else if ns[n].isWordEnd {
        assert NodeExactAnagrams(ns, n, h) == [n];
        assert Tally(PathWord(ns, n)) == h0;
      } else {
        assert NodeExactAnagrams(ns, n, h) == [];
      }
    } else {
      assert NodeExactAnagrams(ns, n, h) == [];
    }
  }

  lemma {:induction false} ChildrenExactSound(ns: seq<Node>, p: nat, j: nat, h: Counts, h0: Counts)
    requires WellFormed(ns) && p < |ns| && j <= |ns[p].children|
    requires Balanced(Tally(PathWord(ns, p)), h, h0)
    ensures forall t :: t in ChildrenExactAnagrams(ns, p, j, h) ==> IsAnagram(ns, h0, t)
    decreases |ns| - p, 0, j
  {
    if j > 0 {
      var k := ns[p].children[j - 1];
      assert Parent(ns, k) == p;
      ChildrenExactSound(ns, p, j - 1, h, h0);
      NodeExactSound(ns, k, h, h0);
    }
  }

  /** The root is above every node. */
  lemma {:induction false} RootAncestor(ns: seq<Node>, t: nat)
    requires WellFormed(ns) && t < |ns|
    ensures IsAncestor(ns, 0, t)
    decreases t
  {
    if t > 0 {
      RootAncestor(ns, Parent(ns, t));
    }
  }

  /** Below an ancestor `n` of `t` other than `t`, one child of `n` is again an ancestor of `t`. */
  lemma {:induction false} ChildOnPath(ns: seq<Node>, n: nat, t: nat) returns (j: nat)
    requires WellFormed(ns) && t < |ns| && IsAncestor(ns, n, t) && n != t
    ensures n < |ns| && j < |ns[n].children| && IsAncestor(ns, ns[n].children[j], t)
    decreases t
  {
    var p := Parent(ns, t);
    AncestorBelow(ns, n, t);
    if p == n {
      j :| j < |ns[n].children| && ns[n].children[j] == t;
    } else {
      j := ChildOnPath(ns, n, p);
      var k := ns[n].children[j];
      assert IsAncestor(ns, k, t);
    }
  }

  lemma {:induction false} ChildrenExactMember(ns: seq<Node>, p: nat, j: nat, h: Counts, i: nat, t: nat)
    requires WellFormed(ns) && p < |ns| && i < j <= |ns[p].children|
    requires t in NodeExactAnagrams(ns, ns[p].children[i], h)
    ensures t in ChildrenExactAnagrams(ns, p, j, h)
    decreases j
  {
    assert ChildrenExactAnagrams(ns, p, j, h) ==
      ChildrenExactAnagrams(ns, p, j - 1, h) + NodeExactAnagrams(ns, ns[p].children[j - 1], h);
    if i < j - 1 {
      ChildrenExactMember(ns, p, j - 1, h, i, t);
    }
  }

  /** The letters a word has beyond a prefix of it: the counts of the rest of the word. */
  lemma TallyGap(w: string, u: string, i: int)
    requires |u| <= |w| && u == w[..|u|] && 0 <= i < SIZE
    ensures Tally(w)[i] - Tally(u)[i] == multiset(w[|u|..])[Letter(i)]
  {
    assert w == u + w[|u|..];
    TallyCounts(w, i);
    TallyCounts(u, i);
  }

  lemma {:induction false} NodeExactComplete(ns: seq<Node>, n: nat, h: Counts, t: nat)
    requires WellFormed(ns) && OverAlphabet(ns) && 0 < n < |ns| && t < |ns| && ns[t].isWordEnd
    requires IsAncestor(ns, n, t)
    requires Balanced(Tally(PathWord(ns, Parent(ns, n))), h, Tally(PathWord(ns, t)))
    ensures t in NodeExactAnagrams(ns, n, h)
    decreases |ns| - n
  {
    AncestorBelow(ns, n, t);
    var w := PathWord(ns, t);
    var u := PathWord(ns, n);
    var c := ns[n].letter;
    var ci := Index(c);
    TallyPathWord(ns, n);
    TallyGap(w, u, ci);
    assert multiset(w[|u|..])[Letter(ci)] >= 0;
    var rm := Removed(h, c);
    assert rm.ok;
    assert Balanced(Tally(u), rm.counts, Tally(w));
    if n == t {
      assert IsZero(rm.counts);
    } else {
      PathWordOverAlphabet(ns, t);
      var g := w[|u|..];
      assert g[0] == w[|u|] && IsLetter(g[0]);
      var gi := Index(g[0]);
      TallyGap(w, u, gi);
      assert g[0] in multiset(g);
      assert rm.counts[gi] > 0;
      var j := ChildOnPath(ns, n, t);
      var k := ns[n].children[j];
      assert Parent(ns, k) == n;
      NodeExactComplete(ns, k, rm.counts, t);
      ChildrenExactMember(ns, n, |ns[n].children|, rm.counts, j, t);
    }
  }

  /**
    The exact-anagram search finds a node exactly when it is an anagram of
    the query, provided the trie holds words over 'a'..'z'.
  */
  lemma ExactAnagramsCorrect(ns: seq<Node>, h0: Counts)
    requires WellFormed(ns) && OverAlphabet(ns)
    ensures forall t :: t in ExactAnagrams(ns, h0) <==> IsAnagram(ns, h0, t)
  {
    assert PathWord(ns, 0) == [];
    assert Tally([]) == Zeros();
    ChildrenExactSound(ns, 0, |ns[0].children|, h0, h0);
    forall t | IsAnagram(ns, h0, t)
      ensures t in ExactAnagrams(ns, h0)
    {
      RootAncestor(ns, t);
      var j := ChildOnPath(ns, 0, t);
      var k := ns[0].children[j];
      assert Parent(ns, k) == 0;
      NodeExactComplete(ns, k, h0, t);
      ChildrenExactMember(ns, 0, |ns[0].children|, h0, j, t);
    }
  }

  /** As written, no query finds anything in the trie of "cat": its only root child is no word end. */
  lemma CatAnagramsAsWritten(h: Counts)
    ensures WellFormed(CatTrie)
    ensures Anagrams(CatTrie, h) == []
  {
    var ns := CatTrie;
    CatTrieWellFormed();
    AnagramsAsWritten(ns, h);
    assert ns[0].children == [1] && !ns[1].isWordEnd;
  }

  lemma CatLetters()
    ensures Tally("cat") == Tally("act")
  {
    assert multiset("cat") == multiset("act") by {
      assert "cat" == ['c'] + ['a'] + ['t'];
      assert "act" == ['a'] + ['c'] + ['t'];
    }
    TallyPermutation("cat", "act");
  }

  /**
    A dictionary holding only "cat", asked for the anagrams of "act": as
    written the search reports nothing, the exact-anagram search reports
    the node that ends "cat".
  */
  lemma CatAnagramOfAct()
    ensures WellFormed(CatTrie)
    ensures Anagrams(CatTrie, Tally("act")) == []
    ensures 3 in ExactAnagrams(CatTrie, Tally("act"))
  {
    var ns := CatTrie;
    var h := Tally("act");
    CatAnagramsAsWritten(h);
    CatPathWord();
    CatLetters();
    ExactAnagramsCorrect(ns, h);
    assert IsAnagram(ns, h, 3);
  }

  /** The trie holding "cat" and "cats". */
  const CatsTrie: seq<Node> := [
    Node(None, '\0', [1], false, 0),
    Node(Some(0), 'c', [2], false, 1),
    Node(Some(1), 'a', [3], false, 2),
    Node(Some(2), 't', [4], true, 3),
    Node(Some(3), 's', [], true, 4)]

  lemma CatsTrieWellFormed()
    ensures WellFormed(CatsTrie) && OverAlphabet(CatsTrie)
  {
    var a := Append(CatTrie, 3, 's');
    AppendIs(CatTrie, CatsTrie[4 := CatsTrie[4].(isWordEnd := false)], 3, 's');
    assert Flag(a, 4) == CatsTrie;
    CatTrieWellFormed();
    AppendWellFormed(CatTrie, 3, 's');
    FlagWellFormed(a, 4);
  }

  lemma CatsTrieShape()
    ensures WellFormed(CatsTrie) && OverAlphabet(CatsTrie)
    ensures PathWord(CatsTrie, 3) == "cat" && PathWord(CatsTrie, 4) == "cats"
  {
    var ns := CatsTrie;
    CatsTrieWellFormed();
    assert PathWord(ns, 1) == "c" by {
      assert Parent(ns, 1) == 0;
    }
    assert PathWord(ns, 2) == "ca" by {
      assert Parent(ns, 2) == 1 && "ca" == "c" + ['a'];
    }
    assert PathWord(ns, 3) == "cat" by {
      assert Parent(ns, 3) == 2 && "cat" == "ca" + ['t'];
    }
    assert PathWord(ns, 4) == "cats" by {
      assert Parent(ns, 4) == 3 && "cats" == "cat" + ['s'];
    }
  }

  /** Two additions to the same histogram agree only for the same letter. */
  lemma AddedInjective(h: Counts, x: char, y: char)
    requires IsLetter(y) && Added(h, x) == Added(h, y)
    ensures x == y
  {
    assert Added(h, y)[Index(y)] == h[Index(y)] + 1;
  }

  /** For "cat", the only sound derivation in the trie of "cat" and "cats" is "cats", whose extra letter is its last. */
  lemma CatsOnlyDerivation(d: Derivation)
    requires WellFormed(CatsTrie) && Sound(CatsTrie, Tally("cat"), d)
    ensures d == Derivation(4, 4)
  {
    var ns := CatsTrie;
    var h := Tally("cat");
    var x := ns[d.derivationNode].letter;
    CatsTrieShape();
    assert IsLetter(x);
    assert d.wordEnd == 3 || d.wordEnd == 4;
    AddedChanges(h, x);
    assert d.wordEnd == 4;
    assert "cats" == "cat" + ['s'];
    TallySnoc("cat", 's');
    AddedInjective(h, x, 's');
  }

  /** Adding a letter always changes the histogram. */
  lemma AddedChanges(h: Counts, x: char)
    requires IsLetter(x)
    ensures Added(h, x) != h
  {
    assert Added(h, x)[Index(x)] == h[Index(x)] + 1;
  }

  /** As written, the search finds no derivation of "cat" in the trie of "cat" and "cats". */
  lemma CatsAsWritten()
    ensures WellFormed(CatsTrie)
    ensures DerivationsAsWritten(CatsTrie, Tally("cat")) == []
  {
    var ns := CatsTrie;
    var h := Tally("cat");
    CatsTrieWellFormed();
    CatNotEmpty();
    DerivationsAsWrittenSound(ns, h);
    var r := DerivationsAsWritten(ns, h);
    if r != [] {
      CatsOnlyDerivation(r[0]);
    }
  }

  lemma CatNotEmpty()
    ensures !IsZero(Tally("cat"))
  {
    TallyCounts("cat", Index('c'));
    assert "cat" == ['c'] + "at";
  }

  /** The search as meant finds "cats" as a derivation of "cat", its last letter the extra one. */
  lemma CatsAsMeant()
    ensures WellFormed(CatsTrie)
    ensures Derivation(4, 4) in Derivations(CatsTrie, Tally("cat"))
  {
    var ns := CatsTrie;
    var h := Tally("cat");
    CatsTrieShape();
    TallyNonNegative("cat");
    assert "cats" == "cat" + ['s'];
    TallySnoc("cat", 's');
    AddedDiffByOne(h, 's');
    DerivationsCorrect(ns, h);
    var d :| d in Derivations(ns, h) && d.wordEnd == 4;
    CatsOnlyDerivation(d);
  }

  /**
    A dictionary holding "cat" and "cats", asked for the derivations of
    "cat": as written the search reports none, the search as meant reports
    "cats" with its last letter as the extra one.
  */
  lemma CatsFromCat()
    ensures WellFormed(CatsTrie) && PathWord(CatsTrie, 4) == "cats"
    ensures DerivationsAsWritten(CatsTrie, Tally("cat")) == []
    ensures Derivation(4, 4) in Derivations(CatsTrie, Tally("cat"))
  {
    CatsTrieShape();
    CatsAsWritten();
    CatsAsMeant();
  }

  // ---------------------------------------------------------------------
  // Chains of derivations: what findLongest records
  // ---------------------------------------------------------------------

  /** Every derivation the search finds is sound, whatever the query. */
  lemma DerivationsSound(ns: seq<Node>, h0: Counts)
    requires WellFormed(ns)
    ensures forall d :: d in Derivations(ns, h0) ==> Sound(ns, h0, d)
  {
    assert PathWord(ns, 0) == [];
    assert Tally([]) == Zeros();
    ChildrenDerivationsSound(ns, 0, |ns[0].children|, h0, None, h0);
  }

  /** The letter a derivation adds: the letter of its extra-letter node. */
  function Key(ns: seq<Node>, d: Derivation): char
  {
    if d.derivationNode < |ns| then ns[d.derivationNode].letter else ' '
  }

  /** The letters the derivations of `ds` add, in order. */
  function Keys(ns: seq<Node>, ds: seq<Derivation>): (cs: seq<char>)
    ensures |cs| == |ds| && forall i :: 0 <= i < |ds| ==> cs[i] == Key(ns, ds[i])
  {
    if |ds| == 0 then [] else Keys(ns, ds[..|ds| - 1]) + [Key(ns, ds[|ds| - 1])]
  }

  function Max(a: int, b: int): int {
    if a < b then b else a
  }

  /**
    `q` is a chain of derivations from `h`: the first is sound for `h`, and
    the rest form a chain from `h` with the first one's letter added.
  */
  ghost predicate ChainFrom(ns: seq<Node>, h: Counts, q: seq<Derivation>)
    requires WellFormed(ns)
    decreases |q|
  {
    |q| == 0 || (Sound(ns, h, q[0]) && ChainFrom(ns, Added(h, Key(ns, q[0])), q[1..]))
  }

  /** The word a chain's derivation reaches, or the query itself before the first one. */
  ghost function ChainTally(ns: seq<Node>, h: Counts, q: seq<Derivation>, i: int): Counts
    requires WellFormed(ns) && -1 <= i < |q|
  {
    if i < 0 || q[i].wordEnd >= |ns| then h else Tally(PathWord(ns, q[i].wordEnd))
  }

  /** Unfolding a chain once: its first word, and the rest as a chain from that word. */
  lemma ChainHead(ns: seq<Node>, h: Counts, q: seq<Derivation>)
    requires WellFormed(ns) && OverAlphabet(ns) && ChainFrom(ns, h, q) && |q| > 0
    ensures q[0].wordEnd < |ns| && ns[q[0].wordEnd].depth == Total(h) + 1
    ensures DiffByOne(Tally(PathWord(ns, q[0].wordEnd)), h)
    ensures ChainFrom(ns, Tally(PathWord(ns, q[0].wordEnd)), q[1..])
  {
    SoundDiffByOne(ns, h, q[0]);
    SoundBelowMaxDepth(ns, h, q[0]);
  }

  /** The `i`-th word of a chain is a node of the trie, `i + 1` letters longer than the query. */
  lemma {:induction false} ChainDepth(ns: seq<Node>, h: Counts, q: seq<Derivation>, i: nat)
    requires WellFormed(ns) && OverAlphabet(ns) && ChainFrom(ns, h, q) && i < |q|
    ensures q[i].wordEnd < |ns| && ns[q[i].wordEnd].depth == Total(h) + i + 1
    decreases i
  {
    ChainHead(ns, h, q);
    if i > 0 {
      var h' := Tally(PathWord(ns, q[0].wordEnd));
      ChainDepth(ns, h', q[1..], i - 1);
      DiffByOneTotal(h', h);
      assert q[i] == q[1..][i - 1];
    }
  }

  /** What follows the `i`-th derivation of a chain is a chain from the `i`-th word. */
  lemma {:induction false} ChainSuffix(ns: seq<Node>, h: Counts, q: seq<Derivation>, i: nat)
    requires WellFormed(ns) && OverAlphabet(ns) && ChainFrom(ns, h, q) && 0 < i <= |q|
    ensures q[i - 1].wordEnd < |ns| && ChainFrom(ns, Tally(PathWord(ns, q[i - 1].wordEnd)), q[i..])
    decreases i
  {
    ChainHead(ns, h, q);
    if i > 1 {
      ChainSuffix(ns, Tally(PathWord(ns, q[0].wordEnd)), q[1..], i - 1);
      assert q[1..][i - 2] == q[i - 1];
      assert q[1..][i - 1..] == q[i..];
    }
  }

  /**
    Each word of a chain is the one before it (the query, for the first)
    plus exactly one letter, and one letter longer.
  */
  lemma ChainDiffByOne(ns: seq<Node>, h: Counts, q: seq<Derivation>, i: nat)
    requires WellFormed(ns) && OverAlphabet(ns) && ChainFrom(ns, h, q) && i < |q|
    ensures q[i].wordEnd < |ns| && ns[q[i].wordEnd].depth == Total(h) + i + 1
    ensures DiffByOne(ChainTally(ns, h, q, i), ChainTally(ns, h, q, i - 1))
  {
    ChainDepth(ns, h, q, i);
    if i == 0 {
      ChainHead(ns, h, q);
    } else {
      ChainSuffix(ns, h, q, i);
      var before := Tally(PathWord(ns, q[i - 1].wordEnd));
      ChainHead(ns, before, q[i..]);
      assert q[i..][0] == q[i];
      assert ChainTally(ns, h, q, i - 1) == before;
    }
  }

  /**
    The length of the longest chain of derivations from `h`: one more than
    the longest from `h` plus the letter of some derivation found, or 0 when
    none is found. No derivation exists once the query is as long as the
    deepest word, which bounds the recursion.
  */
  ghost function Height(ns: seq<Node>, h: Counts): nat
    requires WellFormed(ns)
    decreases MaxDepth(ns) - Total(h), 1, 0
  {
    if Total(h) >= MaxDepth(ns) then 0 else HeightAmong(ns, h, Keys(ns, Derivations(ns, h)))
  }

  /** The longest chain from `h` whose first derivation adds one of the letters `cs`. */
  ghost function HeightAmong(ns: seq<Node>, h: Counts, cs: seq<char>): nat
    requires WellFormed(ns) && Total(h) < MaxDepth(ns)
    decreases MaxDepth(ns) - Total(h), 0, |cs|
  {
    if |cs| == 0 then 0
    else
      var c := cs[|cs| - 1];
      var rest := HeightAmong(ns, h, cs[..|cs| - 1]);
      if IsLetter(c) then
        AddedTotal(h, c);
        Max(rest, 1 + Height(ns, Added(h, c)))
      else rest
  }

  lemma {:induction false} HeightAmongMember(ns: seq<Node>, h: Counts, cs: seq<char>, c: char)
    requires WellFormed(ns) && Total(h) < MaxDepth(ns) && c in cs && IsLetter(c)
    ensures 1 + Height(ns, Added(h, c)) <= HeightAmong(ns, h, cs)
    decreases |cs|
  {
    if c != cs[|cs| - 1] {
      assert c in cs[..|cs| - 1];
      HeightAmongMember(ns, h, cs[..|cs| - 1], c);
    }
  }

  lemma {:induction false} HeightAmongAttained(ns: seq<Node>, h: Counts, cs: seq<char>) returns (j: nat)
    requires WellFormed(ns) && Total(h) < MaxDepth(ns) && HeightAmong(ns, h, cs) > 0
    ensures j < |cs| && IsLetter(cs[j])
    ensures HeightAmong(ns, h, cs) == 1 + Height(ns, Added(h, cs[j]))
    decreases |cs|
  {
    var c := cs[|cs| - 1];
    if IsLetter(c) && HeightAmong(ns, h, cs) == 1 + Height(ns, Added(h, c)) {
      j := |cs| - 1;
    } else {
      j := HeightAmongAttained(ns, h, cs[..|cs| - 1]);
    }
  }

  /** `HeightAmong` depends on the letters only: more letters never make it smaller. */
  lemma {:induction false} HeightAmongSubset(ns: seq<Node>, h: Counts, a: seq<char>, b: seq<char>)
    requires WellFormed(ns) && Total(h) < MaxDepth(ns)
    requires forall c :: c in a ==> c in b
    ensures HeightAmong(ns, h, a) <= HeightAmong(ns, h, b)
    decreases |a|
  {
    if |a| > 0 {
      var c := a[|a| - 1];
      assert c in a;
      if IsLetter(c) {
        HeightAmongMember(ns, h, b, c);
      }
      HeightAmongSubset(ns, h, a[..|a| - 1], b);
    }
  }

  /** A derivation sound for `h` shows that `h` is shorter than the deepest word. */
  lemma SoundBelowMaxDepth(ns: seq<Node>, h: Counts, d: Derivation)
    requires WellFormed(ns) && OverAlphabet(ns) && Sound(ns, h, d)
    ensures Total(h) < MaxDepth(ns) && IsLetter(Key(ns, d))
    ensures Tally(PathWord(ns, d.wordEnd)) == Added(h, Key(ns, d))
  {
    SoundDiffByOne(ns, h, d);
  }

  /** No chain from a query without negative counts is longer than `Height`. */
  lemma {:induction false} HeightBound(ns: seq<Node>, h: Counts, q: seq<Derivation>)
    requires WellFormed(ns) && OverAlphabet(ns) && NonNegative(h) && ChainFrom(ns, h, q)
    ensures |q| <= Height(ns, h)
    decreases |q|
  {
    if |q| > 0 {
      var c := Key(ns, q[0]);
      SoundBelowMaxDepth(ns, h, q[0]);
      KeyFound(ns, h, q[0]);
      TallyNonNegative(PathWord(ns, q[0].wordEnd));
      HeightBound(ns, Added(h, c), q[1..]);
      HeightAmongMember(ns, h, Keys(ns, Derivations(ns, h)), c);
    }
  }

  /** The letter of a sound derivation is the letter of one the search finds. */
  lemma KeyFound(ns: seq<Node>, h: Counts, s: Derivation)
    requires WellFormed(ns) && OverAlphabet(ns) && NonNegative(h) && Sound(ns, h, s)
    ensures Key(ns, s) in Keys(ns, Derivations(ns, h))
  {
    var ds := Derivations(ns, h);
    var d := FoundWithSameKey(ns, h, s);
    var k :| 0 <= k < |ds| && ds[k] == d;
    assert Keys(ns, ds)[k] == Key(ns, s);
  }

  /** The search finds, for each sound derivation, one that adds the same letter. */
  lemma FoundWithSameKey(ns: seq<Node>, h: Counts, s: Derivation) returns (d: Derivation)
    requires WellFormed(ns) && OverAlphabet(ns) && NonNegative(h) && Sound(ns, h, s)
    ensures d in Derivations(ns, h) && Sound(ns, h, d) && Key(ns, d) == Key(ns, s)
  {
    DerivationsCorrect(ns, h);
    SoundBelowMaxDepth(ns, h, s);
    d :| d in Derivations(ns, h) && d.wordEnd == s.wordEnd;
    SoundBelowMaxDepth(ns, h, d);
    AddedInjective(h, Key(ns, d), Key(ns, s));
  }

  /** Some chain from `h` is as long as `Height`. */
  lemma {:induction false} TallestChain(ns: seq<Node>, h: Counts) returns (q: seq<Derivation>)
    requires WellFormed(ns) && OverAlphabet(ns)
    ensures ChainFrom(ns, h, q) && |q| == Height(ns, h)
    decreases MaxDepth(ns) - Total(h)
  {
    if Height(ns, h) == 0 {
      q := [];
    } else {
      var ds := Derivations(ns, h);
      var j := HeightAmongAttained(ns, h, Keys(ns, ds));
      var d := ds[j];
      DerivationsSound(ns, h);
      assert d in ds;
      AddedTotal(h, Key(ns, d));
      var rest := TallestChain(ns, Added(h, Key(ns, d)));
      q := [d] + rest;
      assert q[1..] == rest;
    }
  }

  /**
    `Height` is the length of the longest chains from the query: every chain
    is at most that long, and some chain is exactly that long.
  */
  lemma HeightIsLongest(ns: seq<Node>, h: Counts)
    requires WellFormed(ns) && OverAlphabet(ns) && NonNegative(h)
    ensures forall q :: ChainFrom(ns, h, q) ==> |q| <= Height(ns, h)
    ensures exists q :: ChainFrom(ns, h, q) && |q| == Height(ns, h)
  {
    forall q | ChainFrom(ns, h, q)
      ensures |q| <= Height(ns, h)
    {
      HeightBound(ns, h, q);
    }
    var q := TallestChain(ns, h);
  }

  /**
    A path as `findLongest` builds it over the code's own derivation search:
    each derivation is one that search reports from the query plus the
    letters of the derivations before it.
  */
  ghost predicate StepsAsWritten(ns: seq<Node>, h: Counts, q: seq<Derivation>)
    requires WellFormed(ns)
    decreases |q|
  {
    |q| == 0 || (q[0] in DerivationsAsWritten(ns, h) && StepsAsWritten(ns, Added(h, Key(ns, q[0])), q[1..]))
  }

  /**
    Over the code's own search too, every path `findLongest` builds is a
    chain: each word differs by one from the one before it.
  */
  lemma {:induction false} StepsAsWrittenChain(ns: seq<Node>, h: Counts, q: seq<Derivation>)
    requires WellFormed(ns) && StepsAsWritten(ns, h, q)
    ensures ChainFrom(ns, h, q)
    ensures OverAlphabet(ns) ==> forall i :: 0 <= i < |q| ==> DiffByOne(ChainTally(ns, h, q, i), ChainTally(ns, h, q, i - 1))
    decreases |q|
  {
    if |q| > 0 {
      DerivationsAsWrittenSound(ns, h);
      StepsAsWrittenChain(ns, Added(h, Key(ns, q[0])), q[1..]);
    }
    if OverAlphabet(ns) {
      forall i | 0 <= i < |q|
        ensures DiffByOne(ChainTally(ns, h, q, i), ChainTally(ns, h, q, i - 1))
      {
        ChainDiffByOne(ns, h, q, i);
      }
    }
  }
}
