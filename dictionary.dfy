/**
  The dictionary: a trie of words held as an arena of nodes (`nodes[0]` is
  the root, an index stands for a node's address) together with the number
  of words inserted. Its searches walk the trie with a histogram of the
  letters still to be used; `LongestAnagramDerivations` chains derivations
  as far as they go and reports the longest chains.
*/
module Dictionaries {
  import opened Histograms
  import opened Tries
  import opened Search

  // ---------------------------------------------------------------------
  // What the searches return, in words
  // ---------------------------------------------------------------------

  /**
    The words `anagrams` returns are exactly the non-empty dictionary words
    with the letters of the query, each as often.
  */
  lemma AnagramWords(ns: seq<Node>, h0: Counts, ends: seq<nat>, words: seq<string>)
    requires WellFormed(ns) && OverAlphabet(ns) && ends == ExactAnagrams(ns, h0)
    requires |words| == |ends| && forall i :: 0 <= i < |ends| ==> ends[i] < |ns| && words[i] == PathWord(ns, ends[i])
    ensures forall v :: v in words <==> |v| > 0 && NodeContains(ns, 0, v) && Tally(v) == h0
  {
    ExactAnagramsCorrect(ns, h0);
    forall v | v in words
      ensures |v| > 0 && NodeContains(ns, 0, v) && Tally(v) == h0
    {
      var i :| 0 <= i < |words| && words[i] == v;
      assert IsAnagram(ns, h0, ends[i]);
      ContainsIffSpelled(ns, v);
    }
    forall v | |v| > 0 && NodeContains(ns, 0, v) && Tally(v) == h0
      ensures v in words
    {
      ContainsIffSpelled(ns, v);
      var n :| 0 <= n < |ns| && ns[n].isWordEnd && PathWord(ns, n) == v;
      assert IsAnagram(ns, h0, n);
      var i :| 0 <= i < |ends| && ends[i] == n;
      assert words[i] == v;
    }
  }

  /**
    The words `anagramDerivations` returns are exactly the dictionary words
    made of the letters of the query plus one more.
  */
  lemma DerivationWords(ns: seq<Node>, h0: Counts, ds: seq<Derivation>, words: seq<string>)
    requires WellFormed(ns) && OverAlphabet(ns) && NonNegative(h0) && ds == Derivations(ns, h0)
    requires |words| == |ds| && forall i :: 0 <= i < |ds| ==> ds[i].wordEnd < |ns| && words[i] == PathWord(ns, ds[i].wordEnd)
    ensures forall v :: v in words <==> NodeContains(ns, 0, v) && DiffByOne(Tally(v), h0)
  {
    forall v | v in words
      ensures NodeContains(ns, 0, v) && DiffByOne(Tally(v), h0)
    {
      var i :| 0 <= i < |words| && words[i] == v;
      DerivedWord(ns, h0, ds[i]);
      ContainsIffSpelled(ns, v);
    }
    forall v | NodeContains(ns, 0, v) && DiffByOne(Tally(v), h0)
      ensures v in words
    {
      ContainsIffSpelled(ns, v);
      var n :| 0 <= n < |ns| && ns[n].isWordEnd && PathWord(ns, n) == v;
      var i := WordDerived(ns, h0, ds, n);
      assert words[i] == v;
    }
  }

  /** The word of a derivation found ends at a flagged node and is the query plus one letter. */
  lemma DerivedWord(ns: seq<Node>, h0: Counts, d: Derivation)
    requires WellFormed(ns) && OverAlphabet(ns) && d in Derivations(ns, h0)
    ensures d.wordEnd < |ns| && ns[d.wordEnd].isWordEnd && DiffByOne(Tally(PathWord(ns, d.wordEnd)), h0)
  {
    DerivationsSound(ns, h0);
    SoundDiffByOne(ns, h0, d);
  }

  /** A flagged node whose word is the query plus one letter is the word end of a derivation found. */
  lemma WordDerived(ns: seq<Node>, h0: Counts, ds: seq<Derivation>, n: nat) returns (i: nat)
    requires WellFormed(ns) && OverAlphabet(ns) && NonNegative(h0) && ds == Derivations(ns, h0)
    requires n < |ns| && ns[n].isWordEnd && DiffByOne(Tally(PathWord(ns, n)), h0)
    ensures i < |ds| && ds[i].wordEnd == n
  {
    DerivationsCorrect(ns, h0);
    assert 0 < n < |ns| && ns[n].isWordEnd && DiffByOne(Tally(PathWord(ns, n)), h0);
    assert exists d :: d in ds && d.wordEnd == n;
    var d :| d in ds && d.wordEnd == n;
    i := IndexOf(ds, d);
  }

  /**
    One step of `intoString`'s loop: writing the letter of `m` at position
    `depth - 1` leaves the word's prefix down to `m`'s parent still to write.
  */
  lemma IntoStringStep(ns: seq<Node>, n: nat, m: nat, str: string)
    requires WellFormed(ns) && n < |ns| && 0 < m < |ns|
    requires ns[m].depth <= ns[n].depth && PathWord(ns, m) == PathWord(ns, n)[..ns[m].depth]
    requires str == seq(ns[m].depth, _ => '\0') + PathWord(ns, n)[ns[m].depth..]
    ensures var p := Parent(ns, m);
      && PathWord(ns, p) == PathWord(ns, n)[..ns[p].depth]
      && str[ns[m].depth - 1 := ns[m].letter] == seq(ns[p].depth, _ => '\0') + PathWord(ns, n)[ns[p].depth..]
  {
    var d := ns[m].depth;
    var p := Parent(ns, m);
    var w := PathWord(ns, n);
    assert PathWord(ns, m) == PathWord(ns, p) + [ns[m].letter];
    assert w[d - 1] == ns[m].letter by {
      assert PathWord(ns, m)[d - 1] == w[..d][d - 1];
    }
    assert PathWord(ns, p) == w[..d - 1] by {
      assert PathWord(ns, p) == PathWord(ns, m)[..d - 1];
    }
    FillOne(w, d, str);
  }

  /** Filling in position `d - 1` of a word whose first `d` letters are still blank leaves `d - 1` blank. */
  lemma FillOne(w: string, d: nat, str: string)
    requires 0 < d <= |w| && str == seq(d, _ => '\0') + w[d..]
    ensures str[d - 1 := w[d - 1]] == seq(d - 1, _ => '\0') + w[d - 1..]
  {
    var r := str[d - 1 := w[d - 1]];
    var e := seq(d - 1, _ => '\0') + w[d - 1..];
    assert |r| == |e|;
    forall k | 0 <= k < |r|
      ensures r[k] == e[k]
    {
      if k >= d {
        assert r[k] == w[k];
      }
    }
  }

  /** Where `x` sits in `s`. */
  lemma IndexOf<T>(s: seq<T>, x: T) returns (i: nat)
    requires x in s
    ensures i < |s| && s[i] == x
  {
    i :| 0 <= i < |s| && s[i] == x;
  }

  // ---------------------------------------------------------------------
  // findLongest: sorting and de-duplicating by letter, chains of paths
  // ---------------------------------------------------------------------

  ghost predicate SortedByLetter(ns: seq<Node>, ds: seq<Derivation>) {
    forall i, j :: 0 <= i < j < |ds| ==> Key(ns, ds[i]) <= Key(ns, ds[j])
  }

  ghost predicate StrictlyByLetter(ns: seq<Node>, ds: seq<Derivation>) {
    forall i, j :: 0 <= i < j < |ds| ==> Key(ns, ds[i]) < Key(ns, ds[j])
  }

  /** Inserts `d` after every derivation whose letter is not greater. */
  method InsertByLetter(ns: seq<Node>, s: seq<Derivation>, d: Derivation) returns (r: seq<Derivation>)
    requires SortedByLetter(ns, s)
    ensures SortedByLetter(ns, r)
    ensures multiset(r) == multiset(s) + multiset{d}
  {
    var j := 0;
    while j < |s| && Key(ns, s[j]) <= Key(ns, d)
      invariant 0 <= j <= |s|
      invariant forall i :: 0 <= i < j ==> Key(ns, s[i]) <= Key(ns, d)
    {
      j := j + 1;
    }
    r := s[..j] + [d] + s[j..];
    InsertedSorted(ns, s, d, j);
    assert s == s[..j] + s[j..];
  }

  /** `d` placed after the derivations whose letters are not greater and before the rest keeps the order. */
  lemma InsertedSorted(ns: seq<Node>, s: seq<Derivation>, d: Derivation, j: nat)
    requires SortedByLetter(ns, s) && j <= |s|
    requires forall i :: 0 <= i < j ==> Key(ns, s[i]) <= Key(ns, d)
    requires j < |s| ==> Key(ns, d) < Key(ns, s[j])
    ensures SortedByLetter(ns, s[..j] + [d] + s[j..])
  {
    var r := s[..j] + [d] + s[j..];
    forall a, b | 0 <= a < b < |r|
      ensures Key(ns, r[a]) <= Key(ns, r[b])
    {
      assert r[a] == if a < j then s[a] else if a == j then d else s[a - 1];
      assert r[b] == if b < j then s[b] else if b == j then d else s[b - 1];
      if a <= j < b {
        assert Key(ns, s[j]) <= Key(ns, s[b - 1]);
      }
    }
  }

  /** `std::sort` of the derivations by the letter they add. */
  method SortByLetter(ns: seq<Node>, ds: seq<Derivation>) returns (sorted: seq<Derivation>)
    ensures SortedByLetter(ns, sorted)
    ensures multiset(sorted) == multiset(ds)
  {
    sorted := [];
    var i := 0;
    while i < |ds|
      invariant 0 <= i <= |ds|
      invariant SortedByLetter(ns, sorted)
      invariant multiset(sorted) == multiset(ds[..i])
    {
      sorted := InsertByLetter(ns, sorted, ds[i]);
      assert ds[..i + 1] == ds[..i] + [ds[i]];
      i := i + 1;
    }
    assert ds[..i] == ds;
  }

  /**
    `std::unique` with letters compared, as a value: a derivation is kept
    only when its letter differs from that of the last one kept.
  */
  function Uniq(ns: seq<Node>, s: seq<Derivation>): seq<Derivation>
    decreases |s|
  {
    if |s| == 0 then []
    else
      var r := Uniq(ns, s[..|s| - 1]);
      if |r| == 0 || Key(ns, r[|r| - 1]) != Key(ns, s[|s| - 1]) then r + [s[|s| - 1]] else r
  }

  /** `std::unique` by letter keeps only derivations of `s`. */
  lemma {:induction false} UniqWithin(ns: seq<Node>, s: seq<Derivation>)
    ensures forall e :: e in Uniq(ns, s) ==> e in s
    decreases |s|
  {
    if |s| > 0 {
      UniqWithin(ns, s[..|s| - 1]);
      forall e | e in Uniq(ns, s[..|s| - 1]) ensures e in s {
        var i :| 0 <= i < |s| - 1 && s[..|s| - 1][i] == e;
        assert s[i] == e;
      }
    }
  }

  /** The last derivation kept carries the letter of the last of `s`. */
  lemma {:induction false} UniqLast(ns: seq<Node>, s: seq<Derivation>)
    ensures |s| > 0 ==> |Uniq(ns, s)| > 0 && Key(ns, Uniq(ns, s)[|Uniq(ns, s)| - 1]) == Key(ns, s[|s| - 1])
  {
  }

  /** Every letter of `s` is the letter of a derivation kept. */
  lemma {:induction false} UniqCovers(ns: seq<Node>, s: seq<Derivation>)
    ensures forall i :: 0 <= i < |s| ==> Key(ns, s[i]) in Keys(ns, Uniq(ns, s))
    decreases |s|
  {
    if |s| > 0 {
      var init := s[..|s| - 1];
      var x := s[|s| - 1];
      var r := Uniq(ns, init);
      var u := Uniq(ns, s);
      UniqCovers(ns, init);
      assert Keys(ns, r) <= Keys(ns, u) by {
        if u != r {
          assert u[..|u| - 1] == r;
        }
      }
      assert Key(ns, x) in Keys(ns, u) by {
        UniqLast(ns, s);
        assert Keys(ns, u)[|u| - 1] == Key(ns, x);
      }
      forall i | 0 <= i < |s|
        ensures Key(ns, s[i]) in Keys(ns, u)
      {
        if i < |s| - 1 {
          assert s[i] == init[i];
          assert Key(ns, init[i]) in Keys(ns, r);
        }
      }
    }
  }

  /** On derivations sorted by letter, the letters kept strictly increase. */
  lemma {:induction false} UniqStrict(ns: seq<Node>, s: seq<Derivation>)
    requires SortedByLetter(ns, s)
    ensures StrictlyByLetter(ns, Uniq(ns, s))
    decreases |s|
  {
    if |s| > 0 {
      var init := s[..|s| - 1];
      var x := s[|s| - 1];
      var r := Uniq(ns, init);
      assert SortedByLetter(ns, init);
      UniqStrict(ns, init);
      if |r| == 0 || Key(ns, r[|r| - 1]) != Key(ns, x) {
        UniqLast(ns, init);
        assert |init| > 0 ==> Key(ns, init[|init| - 1]) <= Key(ns, x);
        StrictSnoc(ns, r, x);
      }
    }
  }

  /** `std::unique` with letters compared. */
  method UniqueByLetter(ns: seq<Node>, s: seq<Derivation>) returns (u: seq<Derivation>)
    ensures u == Uniq(ns, s)
    ensures forall e :: e in u ==> e in s
    ensures forall i :: 0 <= i < |s| ==> Key(ns, s[i]) in Keys(ns, u)
    ensures SortedByLetter(ns, s) ==> StrictlyByLetter(ns, u)
  {
    u := [];
    var i := 0;
    while i < |s|
      invariant 0 <= i <= |s|
      invariant u == Uniq(ns, s[..i])
    {
      assert s[..i + 1][..i] == s[..i];
      if |u| == 0 || Key(ns, u[|u| - 1]) != Key(ns, s[i]) {
        u := u + [s[i]];
      }
      i := i + 1;
    }
    assert s[..i] == s;
    UniqWithin(ns, s);
    UniqCovers(ns, s);
    if SortedByLetter(ns, s) {
      UniqStrict(ns, s);
    }
  }

  /** A derivation whose letter is above the last one kept keeps the letters strictly increasing. */
  lemma StrictSnoc(ns: seq<Node>, u: seq<Derivation>, x: Derivation)
    requires StrictlyByLetter(ns, u) && (|u| > 0 ==> Key(ns, u[|u| - 1]) < Key(ns, x))
    ensures StrictlyByLetter(ns, u + [x])
  {
    var r := u + [x];
    forall a, b | 0 <= a < b < |r|
      ensures Key(ns, r[a]) < Key(ns, r[b])
    {
      if b == |u| && a < |u| - 1 {
        assert Key(ns, u[a]) < Key(ns, u[|u| - 1]);
      }
    }
  }

  /** Every path has the same length (the `longest` list of findLongest). */
  ghost predicate SameLength(ls: seq<seq<Derivation>>) {
    forall i, j :: 0 <= i < |ls| && 0 <= j < |ls| ==> |ls[i]| == |ls[j]|
  }

  function LongestLength(ls: seq<seq<Derivation>>): nat {
    if |ls| == 0 then 0 else |ls[0]|
  }

  /** `p` is `path` followed by a non-empty chain of derivations from `h`. */
  ghost predicate Extends(ns: seq<Node>, h: Counts, path: seq<Derivation>, p: seq<Derivation>)
    requires WellFormed(ns)
  {
    |path| < |p| && p[..|path|] == path && ChainFrom(ns, h, p[|path|..])
  }

  /** A path extending `path + [d]` from `h` plus `d`'s letter extends `path` from `h`. */
  lemma ExtendsStep(ns: seq<Node>, h: Counts, path: seq<Derivation>, d: Derivation, p: seq<Derivation>)
    requires WellFormed(ns) && Sound(ns, h, d)
    requires p == path + [d] || Extends(ns, Added(h, Key(ns, d)), path + [d], p)
    ensures Extends(ns, h, path, p)
  {
    var q := p[|path|..];
    assert q == [d] + p[|path| + 1..];
    assert q[1..] == p[|path| + 1..];
    assert p[..|path| + 1][..|path|] == p[..|path|];
  }

  /**
    The update of `longest` with a new path: it replaces a list of shorter
    paths, joins a list of paths as long, and is dropped otherwise.
  */
  function Keep(longest: seq<seq<Derivation>>, newPath: seq<Derivation>): (r: seq<seq<Derivation>>)
    ensures SameLength(longest) ==> SameLength(r)
    ensures LongestLength(r) == Max(LongestLength(longest), |newPath|)
    ensures forall p :: p in r ==> p in longest || p == newPath
    ensures |longest| == 0 || LongestLength(longest) < |newPath| ==> r == [newPath]
    ensures |longest| > 0 && LongestLength(longest) == |newPath| ==> r == longest + [newPath]
    ensures |newPath| < LongestLength(longest) ==> r == longest
    ensures Retained(longest, r)
    ensures |newPath| == LongestLength(r) ==> newPath in r
  {
    if |longest| == 0 || |longest[0]| < |newPath| then [newPath]
    else if |longest[0]| == |newPath| then longest + [newPath]
    else longest
  }

  /**
    When the longest length ends where it started, the paths of `longest`
    still lead `lg`, in their order: a tie never drops a path, and new ties
    come after the old ones.
  */
  ghost predicate Retained(longest: seq<seq<Derivation>>, lg: seq<seq<Derivation>>) {
    LongestLength(lg) == LongestLength(longest) ==> longest <= lg
  }

  /** Under `Retained`, a path of `longest` as long as the paths of `lg` is still in `lg`. */
  lemma RetainedMember(longest: seq<seq<Derivation>>, lg: seq<seq<Derivation>>, p: seq<Derivation>)
    requires SameLength(longest) && Retained(longest, lg)
    requires p in longest && |p| == LongestLength(lg)
    ensures p in lg
  {
    var k :| 0 <= k < |longest| && longest[k] == p;
    assert |longest[k]| == |longest[0]|;
    assert lg[k] == p;
  }

  /** Some path of `lg` is `path` followed by derivations that add the letters of `q`, in its order. */
  ghost predicate Covered(ns: seq<Node>, path: seq<Derivation>, lg: seq<seq<Derivation>>, q: seq<Derivation>) {
    exists p :: p in lg && |path| <= |p| && p[..|path|] == path && Keys(ns, p[|path|..]) == Keys(ns, q)
  }

  /**
    Every chain from `h` whose first letter is in `cs` and that, after
    `path`, is as long as the paths of `lg`, has its letters in `lg`.
  */
  ghost predicate CoveredFrom(ns: seq<Node>, h: Counts, path: seq<Derivation>, lg: seq<seq<Derivation>>, cs: seq<char>)
    requires WellFormed(ns)
  {
    forall q {:trigger Covered(ns, path, lg, q)} :: ChainFrom(ns, h, q) && 0 < |q| && Key(ns, q[0]) in cs && |path| + |q| == LongestLength(lg) ==>
      Covered(ns, path, lg, q)
  }

  /** Every chain from `h` that, after `path`, is as long as the paths of `lg` has its letters in `lg`. */
  ghost predicate CoveredAll(ns: seq<Node>, h: Counts, path: seq<Derivation>, lg: seq<seq<Derivation>>)
    requires WellFormed(ns)
  {
    forall q {:trigger Covered(ns, path, lg, q)} :: ChainFrom(ns, h, q) && 0 < |q| && |path| + |q| == LongestLength(lg) ==> Covered(ns, path, lg, q)
  }

  /**
    What `findLongest` has recorded once the first `i` of the derivations in
    `unique` are done: `lg` holds paths of one length; `best` is the longest
    chain from `h` that starts with one of their letters, and the longest
    length is the greater of the old one and `path` plus `best`; every path
    added is `path` followed by a chain from `h`; when the longest length
    has not grown, the paths of `longest` still lead `lg`, and every chain
    starting with one of their letters that reaches that length has its
    letters in `lg`.
  */
  ghost predicate Recorded(ns: seq<Node>, h: Counts, path: seq<Derivation>, longest: seq<seq<Derivation>>,
                           unique: seq<Derivation>, i: nat, lg: seq<seq<Derivation>>, best: int)
    requires WellFormed(ns) && i <= |unique|
  {
    && SameLength(longest) && SameLength(lg)
    && (i == 0 ==> lg == longest && best == 0)
    && (i > 0 ==> (Total(h) < MaxDepth(ns) && best == HeightAmong(ns, h, Keys(ns, unique[..i])) &&
         LongestLength(lg) == Max(LongestLength(longest), |path| + best)))
    && (forall p :: p in lg ==> p in longest || Extends(ns, h, path, p))
    && Retained(longest, lg)
    && CoveredFrom(ns, h, path, lg, Keys(ns, unique[..i]))
  }

  /**
    What `findLongest` from `h` after `path` promises: `lg` holds paths of
    one length; when there is no chain from `h`, `longest` is unchanged,
    and otherwise the longest length is the greater of the old one and
    `path` plus the longest chain from `h`, `n`; every path added is `path`
    followed by a chain from `h`; when the longest length has not grown, the
    paths of `longest` still lead the result, and every chain from `h` that
    reaches that length after `path` has its letters in the result.
  */
  ghost predicate Found(ns: seq<Node>, h: Counts, path: seq<Derivation>, longest: seq<seq<Derivation>>,
                        lg: seq<seq<Derivation>>, n: int)
    requires WellFormed(ns)
  {
    && SameLength(lg)
    && (n == 0 ==> lg == longest)
    && (n > 0 ==> LongestLength(lg) == Max(LongestLength(longest), |path| + n))
    && (forall p :: p in lg ==> p in longest || Extends(ns, h, path, p))
    && Retained(longest, lg)
    && CoveredAll(ns, h, path, lg)
  }

  /**
    One turn of `findLongest`'s loop: keep `path + [d]`, then go on from `h`
    plus `d`'s letter, where the longest chain has length `n`.
  */
  lemma RecordedStep(ns: seq<Node>, h: Counts, path: seq<Derivation>, longest: seq<seq<Derivation>>,
                     unique: seq<Derivation>, i: nat, lg: seq<seq<Derivation>>, best: int, n: int,
                     lg': seq<seq<Derivation>>)
    requires WellFormed(ns) && OverAlphabet(ns) && NonNegative(h)
    requires i < |unique| && forall e :: e in unique ==> Sound(ns, h, e)
    requires Recorded(ns, h, path, longest, unique, i, lg, best)
    requires n == Height(ns, Added(h, Key(ns, unique[i])))
    requires Found(ns, Added(h, Key(ns, unique[i])), path + [unique[i]], Keep(lg, path + [unique[i]]), lg', n)
    ensures Recorded(ns, h, path, longest, unique, i + 1, lg', Max(best, 1 + n))
  {
    var d := unique[i];
    var mid := Keep(lg, path + [d]);
    assert d in unique;
    SoundBelowMaxDepth(ns, h, d);
    RecordedPaths(ns, h, path, longest, lg, d, lg');
    RecordedLength(ns, h, path, longest, unique, i, lg, best, n, lg');
    RetainedTrans(longest, lg, mid);
    RetainedTrans(longest, mid, lg');
    RecordedCovered(ns, h, path, unique, i, lg, best, lg');
  }

  /** No tie is dropped across two updates while the longest length only grows. */
  lemma RetainedTrans(a: seq<seq<Derivation>>, b: seq<seq<Derivation>>, c: seq<seq<Derivation>>)
    requires LongestLength(a) <= LongestLength(b) <= LongestLength(c)
    requires Retained(a, b) && Retained(b, c)
    ensures Retained(a, c)
  {
    if LongestLength(c) == LongestLength(a) {
      assert a <= b <= c;
      assert forall k :: 0 <= k < |a| ==> c[k] == b[k] == a[k];
    }
  }

  /**
    After one turn, the chains starting with the letters done so far, or
    with the new one, that reach the longest length have their letters in
    the paths kept.
  */
  lemma RecordedCovered(ns: seq<Node>, h: Counts, path: seq<Derivation>, unique: seq<Derivation>, i: nat,
                        lg: seq<seq<Derivation>>, best: int, lg': seq<seq<Derivation>>)
    requires WellFormed(ns) && OverAlphabet(ns) && NonNegative(h) && i < |unique|
    requires SameLength(lg)
    requires i > 0 ==> Total(h) < MaxDepth(ns) && best == HeightAmong(ns, h, Keys(ns, unique[..i]))
    requires i > 0 ==> LongestLength(lg) >= |path| + best
    requires CoveredFrom(ns, h, path, lg, Keys(ns, unique[..i]))
    requires LongestLength(Keep(lg, path + [unique[i]])) <= LongestLength(lg')
    requires Retained(Keep(lg, path + [unique[i]]), lg')
    requires CoveredAll(ns, Added(h, Key(ns, unique[i])), path + [unique[i]], lg')
    ensures CoveredFrom(ns, h, path, lg', Keys(ns, unique[..i + 1]))
  {
    var d := unique[i];
    var mid := Keep(lg, path + [d]);
    var cs := Keys(ns, unique[..i]);
    assert unique[..i + 1][..i] == unique[..i];
    assert Keys(ns, unique[..i + 1]) == cs + [Key(ns, d)];
    forall q | ChainFrom(ns, h, q) && 0 < |q| && Key(ns, q[0]) in Keys(ns, unique[..i + 1]) && |path| + |q| == LongestLength(lg')
      ensures Covered(ns, path, lg', q)
    {
      if i > 0 && Key(ns, q[0]) in cs {
        CoveredEarlier(ns, h, path, cs, lg, best, mid, lg', q);
      } else {
        CoveredHere(ns, h, path, d, mid, lg', q);
      }
    }
  }

  /**
    A chain starting with a letter done before is no longer than `best`, so
    it reaches the longest length only when that length did not grow: the
    path that has its letters was kept.
  */
  lemma CoveredEarlier(ns: seq<Node>, h: Counts, path: seq<Derivation>, cs: seq<char>, lg: seq<seq<Derivation>>, best: int,
                       mid: seq<seq<Derivation>>, lg': seq<seq<Derivation>>, q: seq<Derivation>)
    requires WellFormed(ns) && OverAlphabet(ns) && NonNegative(h) && Total(h) < MaxDepth(ns)
    requires best == HeightAmong(ns, h, cs) && LongestLength(lg) >= |path| + best
    requires CoveredFrom(ns, h, path, lg, cs)
    requires SameLength(lg) && LongestLength(lg) <= LongestLength(mid) <= LongestLength(lg')
    requires Retained(lg, mid) && Retained(mid, lg')
    requires ChainFrom(ns, h, q) && 0 < |q| && Key(ns, q[0]) in cs && |path| + |q| == LongestLength(lg')
    ensures Covered(ns, path, lg', q)
  {
    var c := Key(ns, q[0]);
    SoundBelowMaxDepth(ns, h, q[0]);
    TallyNonNegative(PathWord(ns, q[0].wordEnd));
    HeightBound(ns, Added(h, c), q[1..]);
    HeightAmongMember(ns, h, cs, c);
    assert Covered(ns, path, lg, q);
    var p :| p in lg && |path| <= |p| && p[..|path|] == path && Keys(ns, p[|path|..]) == Keys(ns, q);
    assert |p[|path|..]| == |q|;
    RetainedTrans(lg, mid, lg');
    RetainedMember(lg, lg', p);
  }

  /** A chain starting with the new letter has its letters in the new path or in a path after it. */
  lemma CoveredHere(ns: seq<Node>, h: Counts, path: seq<Derivation>, d: Derivation,
                    mid: seq<seq<Derivation>>, lg': seq<seq<Derivation>>, q: seq<Derivation>)
    requires WellFormed(ns)
    requires LongestLength(mid) >= |path| + 1 && (LongestLength(mid) == |path| + 1 ==> path + [d] in mid)
    requires SameLength(mid) && LongestLength(mid) <= LongestLength(lg') && Retained(mid, lg')
    requires CoveredAll(ns, Added(h, Key(ns, d)), path + [d], lg')
    requires ChainFrom(ns, h, q) && 0 < |q| && Key(ns, q[0]) == Key(ns, d) && |path| + |q| == LongestLength(lg')
    ensures Covered(ns, path, lg', q)
  {
    if |q| == 1 {
      CoveredByNewPath(ns, path, d, mid, lg', q);
    } else {
      CoveredAfterNewPath(ns, h, path, d, lg', q);
    }
  }

  /** A one-derivation chain with the new letter has its letter in `path + [d]`, which is kept. */
  lemma CoveredByNewPath(ns: seq<Node>, path: seq<Derivation>, d: Derivation,
                         mid: seq<seq<Derivation>>, lg': seq<seq<Derivation>>, q: seq<Derivation>)
    requires LongestLength(mid) == |path| + 1 ==> path + [d] in mid
    requires SameLength(mid) && LongestLength(mid) <= LongestLength(lg') && Retained(mid, lg')
    requires |q| == 1 && Key(ns, q[0]) == Key(ns, d) && |path| + 1 == LongestLength(lg')
    requires LongestLength(mid) >= |path| + 1
    ensures Covered(ns, path, lg', q)
  {
    var np := path + [d];
    RetainedMember(mid, lg', np);
    assert np[..|path|] == path && np[|path|..] == [d];
    assert Keys(ns, [d]) == [Key(ns, d)];
    assert Keys(ns, q) == [Key(ns, q[0])];
  }

  /** A longer chain with the new letter has the letters of its rest after `path + [d]` in some kept path. */
  lemma CoveredAfterNewPath(ns: seq<Node>, h: Counts, path: seq<Derivation>, d: Derivation,
                            lg': seq<seq<Derivation>>, q: seq<Derivation>)
    requires WellFormed(ns)
    requires CoveredAll(ns, Added(h, Key(ns, d)), path + [d], lg')
    requires ChainFrom(ns, h, q) && 1 < |q| && Key(ns, q[0]) == Key(ns, d) && |path| + |q| == LongestLength(lg')
    ensures Covered(ns, path, lg', q)
  {
    var np := path + [d];
    assert ChainFrom(ns, Added(h, Key(ns, d)), q[1..]);
    assert Covered(ns, np, lg', q[1..]);
    var p :| p in lg' && |np| <= |p| && p[..|np|] == np && Keys(ns, p[|np|..]) == Keys(ns, q[1..]);
    PrefixStep(path, d, p);
    var s := p[|path|..];
    assert s[1..] == p[|np|..];
    KeysFront(ns, s);
    KeysFront(ns, q);
  }

  /** A path that starts with `path + [d]` starts with `path`, and `d` comes next. */
  lemma PrefixStep(path: seq<Derivation>, d: Derivation, p: seq<Derivation>)
    requires |path| + 1 <= |p| && p[..|path| + 1] == path + [d]
    ensures p[..|path|] == path && p[|path|] == d
  {
    assert forall k :: 0 <= k <= |path| ==> p[k] == p[..|path| + 1][k];
  }

  /** The letters of a non-empty list of derivations: its first's, then the rest's. */
  lemma KeysFront(ns: seq<Node>, s: seq<Derivation>)
    requires |s| > 0
    ensures Keys(ns, s) == [Key(ns, s[0])] + Keys(ns, s[1..])
  {
    var r := [Key(ns, s[0])] + Keys(ns, s[1..]);
    forall k | 0 <= k < |s|
      ensures Keys(ns, s)[k] == r[k]
    {
      if k > 0 {
        assert r[k] == Keys(ns, s[1..])[k - 1] == Key(ns, s[1..][k - 1]);
      }
    }
  }

  /** The lengths after one turn: `best` and the longest length both take in the new letter's chains. */
  lemma RecordedLength(ns: seq<Node>, h: Counts, path: seq<Derivation>, longest: seq<seq<Derivation>>,
                       unique: seq<Derivation>, i: nat, lg: seq<seq<Derivation>>, best: int, n: int,
                       lg': seq<seq<Derivation>>)
    requires WellFormed(ns) && Total(h) < MaxDepth(ns) && i < |unique| && IsLetter(Key(ns, unique[i]))
    requires i == 0 ==> lg == longest && best == 0
    requires i > 0 ==> best == HeightAmong(ns, h, Keys(ns, unique[..i])) &&
                       LongestLength(lg) == Max(LongestLength(longest), |path| + best)
    requires n == Height(ns, Added(h, Key(ns, unique[i])))
    requires n == 0 ==> lg' == Keep(lg, path + [unique[i]])
    requires n > 0 ==> LongestLength(lg') == Max(LongestLength(Keep(lg, path + [unique[i]])), |path| + 1 + n)
    ensures Max(best, 1 + n) == HeightAmong(ns, h, Keys(ns, unique[..i + 1]))
    ensures LongestLength(lg') == Max(LongestLength(longest), |path| + Max(best, 1 + n))
  {
    TurnLength(lg, path + [unique[i]], n, lg');
    HeightStep(ns, h, unique, i, best, n);
    LengthStep(longest, lg, lg', |path|, best, n, i == 0);
  }

  /** The longest length after one turn: the greater of the old one and `path` plus the new `best`. */
  lemma LengthStep(longest: seq<seq<Derivation>>, lg: seq<seq<Derivation>>, lg': seq<seq<Derivation>>,
                   p: int, best: int, n: int, first: bool)
    requires 0 <= best && 0 <= n
    requires first ==> lg == longest && best == 0
    requires !first ==> LongestLength(lg) == Max(LongestLength(longest), p + best)
    requires LongestLength(lg') == Max(LongestLength(lg), p + 1 + n)
    ensures LongestLength(lg') == Max(LongestLength(longest), p + Max(best, 1 + n))
  {
    MaxStep(LongestLength(longest), LongestLength(lg), LongestLength(lg'), p, best, n, first);
  }

  /** `best` after one more letter: the greater with the new letter's chains. */
  lemma HeightStep(ns: seq<Node>, h: Counts, unique: seq<Derivation>, i: nat, best: int, n: int)
    requires WellFormed(ns) && Total(h) < MaxDepth(ns) && i < |unique| && IsLetter(Key(ns, unique[i]))
    requires n == Height(ns, Added(h, Key(ns, unique[i])))
    requires i == 0 ==> best == 0
    requires i > 0 ==> best == HeightAmong(ns, h, Keys(ns, unique[..i]))
    ensures Max(best, 1 + n) == HeightAmong(ns, h, Keys(ns, unique[..i + 1]))
  {
    HeightAmongSnoc(ns, h, unique, i, n);
    if i == 0 {
      assert unique[..i] == [];
    }
  }

  /** One turn keeps the new path and then the longest chains after it: the length grows to cover both. */
  lemma TurnLength(lg: seq<seq<Derivation>>, newPath: seq<Derivation>, n: int, lg': seq<seq<Derivation>>)
    requires n == 0 ==> lg' == Keep(lg, newPath)
    requires n > 0 ==> LongestLength(lg') == Max(LongestLength(Keep(lg, newPath)), |newPath| + n)
    requires n >= 0
    ensures LongestLength(lg') == Max(LongestLength(lg), |newPath| + n)
  {
  }

  /** The arithmetic of one turn: the longest length after it is the greater with the new letter's chains. */
  lemma MaxStep(a: int, before: int, after: int, p: int, sofar: int, next: int, first: bool)
    requires 0 <= sofar && 0 <= next && (first ==> sofar == 0)
    requires before == (if first then a else Max(a, p + sofar))
    requires after == Max(before, p + 1 + next)
    ensures after == Max(a, p + Max(sofar, 1 + next))
  {
  }

  lemma RecordedPaths(ns: seq<Node>, h: Counts, path: seq<Derivation>, longest: seq<seq<Derivation>>,
                      lg: seq<seq<Derivation>>, d: Derivation, lg': seq<seq<Derivation>>)
    requires WellFormed(ns) && Sound(ns, h, d)
    requires forall p :: p in lg ==> p in longest || Extends(ns, h, path, p)
    requires forall p :: p in lg' ==> p in Keep(lg, path + [d]) || Extends(ns, Added(h, Key(ns, d)), path + [d], p)
    ensures forall p :: p in lg' ==> p in longest || Extends(ns, h, path, p)
  {
    forall p | p in lg'
      ensures p in longest || Extends(ns, h, path, p)
    {
      if p !in Keep(lg, path + [d]) || p == path + [d] {
        ExtendsStep(ns, h, path, d, p);
      }
    }
  }

  /** The letters of one more derivation: `HeightAmong` takes the greater with the new letter's chains. */
  lemma HeightAmongSnoc(ns: seq<Node>, h: Counts, unique: seq<Derivation>, i: nat, n: int)
    requires WellFormed(ns) && Total(h) < MaxDepth(ns) && i < |unique| && IsLetter(Key(ns, unique[i]))
    requires n == Height(ns, Added(h, Key(ns, unique[i])))
    ensures HeightAmong(ns, h, Keys(ns, unique[..i + 1])) == Max(HeightAmong(ns, h, Keys(ns, unique[..i])), 1 + n)
  {
    var cs := Keys(ns, unique[..i + 1]);
    assert unique[..i + 1][..i] == unique[..i];
    assert cs[..|cs| - 1] == Keys(ns, unique[..i]);
  }

  /** The copy of `h` with one more `c` that each turn of `findLongest` searches from; `h` itself is left alone. */
  method PlusLetter(h: Histogram, c: char) returns (h': Histogram)
    requires h.Valid()
    ensures h'.Valid() && h'.Counts() == Added(h.Counts(), c)
  {
    h' := new Histogram.Copy(h);
    h'.Add(c);
  }

  /** After the loop: every letter is done, and the letters of `unique` give `Height`. */
  lemma RecordedEnd(ns: seq<Node>, h: Counts, path: seq<Derivation>, longest: seq<seq<Derivation>>,
                    unique: seq<Derivation>, lg: seq<seq<Derivation>>, best: int)
    requires WellFormed(ns) && OverAlphabet(ns) && forall e :: e in unique ==> Sound(ns, h, e)
    requires forall s :: Sound(ns, h, s) ==> Key(ns, s) in Keys(ns, unique)
    requires Recorded(ns, h, path, longest, unique, |unique|, lg, best)
    requires |unique| > 0 ==> Total(h) < MaxDepth(ns) && Height(ns, h) == HeightAmong(ns, h, Keys(ns, unique))
    requires |unique| == 0 ==> Height(ns, h) == 0
    ensures best == Height(ns, h)
    ensures Found(ns, h, path, longest, lg, best)
  {
    assert unique[..|unique|] == unique;
    if |unique| > 0 {
      var last := unique[|unique| - 1];
      assert last in unique;
      SoundBelowMaxDepth(ns, h, last);
      HeightAmongPositive(ns, h, Keys(ns, unique));
    }
    forall q | ChainFrom(ns, h, q) && 0 < |q| && |path| + |q| == LongestLength(lg)
      ensures Covered(ns, path, lg, q)
    {
      assert Sound(ns, h, q[0]);
    }
  }

  /** A last letter from the alphabet gives a chain of at least one derivation. */
  lemma HeightAmongPositive(ns: seq<Node>, h: Counts, cs: seq<char>)
    requires WellFormed(ns) && Total(h) < MaxDepth(ns) && |cs| > 0 && IsLetter(cs[|cs| - 1])
    ensures HeightAmong(ns, h, cs) > 0
  {
  }

  /** What one turn of the loop needs of the derivation it takes: its letter, and the query one letter longer. */
  lemma TurnFacts(ns: seq<Node>, h: Counts, unique: seq<Derivation>, i: nat)
    requires WellFormed(ns) && OverAlphabet(ns) && i < |unique| && forall e :: e in unique ==> Sound(ns, h, e)
    ensures 0 < unique[i].derivationNode < |ns| && Key(ns, unique[i]) == ns[unique[i].derivationNode].letter
    ensures Total(h) < MaxDepth(ns) && Total(Added(h, Key(ns, unique[i]))) == Total(h) + 1
  {
    assert unique[i] in unique;
    SoundBelowMaxDepth(ns, h, unique[i]);
    AddedTotal(h, Key(ns, unique[i]));
  }

  /** Every derivation of `p` ends at a node of the trie. */
  ghost predicate InTrie(ns: seq<Node>, p: seq<Derivation>) {
    forall k :: 0 <= k < |p| ==> p[k].wordEnd < |ns|
  }

  /** The line `longestAnagramDerivations` prints for a chain: the query, then `+letter=word` per derivation. */
  function Rendered(ns: seq<Node>, word: string, p: seq<Derivation>): string
    requires WellFormed(ns) && InTrie(ns, p)
  {
    if |p| == 0 then word
    else Rendered(ns, word, p[..|p| - 1]) + ['+', Key(ns, p[|p| - 1]), '='] + PathWord(ns, p[|p| - 1].wordEnd)
  }

  // ---------------------------------------------------------------------
  // The dictionary
  // ---------------------------------------------------------------------

  class Dictionary {
    /** `m_root` and every node below it. */
    var nodes: seq<Node>
    /** `m_size`: how many insertions added a word. */
    var size: int

    /** The trie is well formed and `size` counts its word ends. */
    ghost predicate Valid()
      reads this
    {
      WellFormed(nodes) && size == FlaggedCount(nodes)
    }

    /** An empty dictionary: the root alone, no words. */
    constructor ()
      ensures Valid() && nodes == [EmptyRoot] && size == 0
      ensures forall w :: !Contains(w)
    {
      nodes := [EmptyRoot];
      size := 0;
      new;
      forall w ensures !Contains(w) {
        if |w| > 0 {
          assert FindChild(nodes, nodes[0].children, w[0]) == None;
        }
      }
    }

    /** The number of words: the word ends of the trie. */
    function Size(): (n: int)
      reads this
      requires Valid()
      ensures n == FlaggedCount(nodes) && n >= 0
    {
      size
    }

    /** `contains`: the word ends at a flagged node. */
    function Contains(word: string): (b: bool)
      reads this
      requires WellFormed(nodes)
      ensures b <==> exists n :: 0 <= n < |nodes| && nodes[n].isWordEnd && PathWord(nodes, n) == word
    {
      ContainsIffSpelled(nodes, word);
      NodeContains(nodes, 0, word)
    }

    /** `std::find_if` over the children of `n` for the letter `c`. */
    method FindChildOf(n: nat, c: char) returns (it: Option<nat>)
      requires WellFormed(nodes) && n < |nodes|
      ensures it == FindChild(nodes, nodes[n].children, c)
    {
      var kids := nodes[n].children;
      var j := 0;
      while j < |kids|
        invariant 0 <= j <= |kids|
        invariant FindChild(nodes, kids, c) == FindChild(nodes, kids[j..], c)
      {
        if nodes[kids[j]].letter == c {
          return Some(kids[j]);
        }
        assert kids[j..][1..] == kids[j + 1..];
        j := j + 1;
      }
      return None;
    }

    /**
      `Node::insert` on node `n` with the letters `w` still to place, with the
      flag set on the last node of an existing path.
    */
    method InsertAt(n: nat, w: string) returns (inserted: bool)
      requires WellFormed(nodes) && n < |nodes|
      modifies this
      ensures Insertion(nodes, inserted) == Tries.Insert(old(nodes), n, w)
      ensures size == old(size)
      decreases |w|
    {
      if |w| == 0 {
        return false;
      }
      var it := FindChildOf(n, w[0]);
      match it
      case Some(k) =>
        if |w| > 1 {
          inserted := InsertAt(k, w[1..]);
        } else if !nodes[k].isWordEnd {
          nodes := Flag(nodes, k);
          inserted := true;
        } else {
          inserted := false;
        }
      case None =>
        ghost var ns := nodes;
        var current: nat := n;
        var b := 0;
        while b < |w|
          invariant 0 <= b <= |w|
          invariant current < |nodes| == |ns| + b
          invariant b > 0 ==> current == |nodes| - 1
          invariant Extend(nodes, current, w[b..]) == Extend(ns, n, w)
          invariant size == old(size)
        {
          assert w[b..][1..] == w[b + 1..];
          nodes := Append(nodes, current, w[b]);
          current := |nodes| - 1;
          b := b + 1;
        }
        nodes := Flag(nodes, current);
        inserted := true;
    }

    /** `insert`: adds the word and counts it when it was not there. */
    method Insert(word: string)
      requires Valid()
      modifies this
      ensures Valid()
      ensures nodes == Tries.Insert(old(nodes), 0, word).nodes
      ensures forall v :: Contains(v) <==> old(Contains(v)) || (|word| > 0 && v == word)
      ensures size == old(size) + (if |word| > 0 && !old(Contains(word)) then 1 else 0)
    {
      InsertShape(nodes, word);
      InsertWords(nodes, word);
      var inserted := InsertAt(0, word);
      if inserted {
        size := size + 1;
      }
    }

    /** `intoString`: the word spelled from the root down to `n`, written back to front. */
    method IntoString(n: nat) returns (str: string)
      requires WellFormed(nodes) && n < |nodes|
      ensures str == PathWord(nodes, n)
    {
      var m: nat := n;
      str := seq(nodes[n].depth, _ => '\0');
      while !IsRoot(nodes, m)
        invariant m < |nodes| && nodes[m].depth <= nodes[n].depth == |str|
        invariant PathWord(nodes, m) == PathWord(nodes, n)[..nodes[m].depth]
        invariant str == seq(nodes[m].depth, _ => '\0') + PathWord(nodes, n)[nodes[m].depth..]
        decreases m
      {
        IsRootIffFirst(nodes, m);
        IntoStringStep(nodes, n, m, str);
        str := str[nodes[m].depth - 1 := nodes[m].letter];
        m := nodes[m].parent.value;
      }
      IsRootIffFirst(nodes, m);
    }

    /** `intoStrings` over the nodes found by `anagrams`. */
    method IntoStrings(ends: seq<nat>) returns (strs: seq<string>)
      requires WellFormed(nodes) && forall i :: 0 <= i < |ends| ==> ends[i] < |nodes|
      ensures |strs| == |ends| && forall i :: 0 <= i < |ends| ==> strs[i] == PathWord(nodes, ends[i])
    {
      strs := [];
      var i := 0;
      while i < |ends|
        invariant 0 <= i <= |ends|
        invariant |strs| == i && forall k :: 0 <= k < i ==> strs[k] == PathWord(nodes, ends[k])
      {
        var s := IntoString(ends[i]);
        strs := strs + [s];
        i := i + 1;
      }
    }

    /** `intoStrings` over derivations: the word of each derivation. */
    method DerivationStrings(ds: seq<Derivation>) returns (strs: seq<string>)
      requires WellFormed(nodes) && forall i :: 0 <= i < |ds| ==> ds[i].wordEnd < |nodes|
      ensures |strs| == |ds| && forall i :: 0 <= i < |ds| ==> strs[i] == PathWord(nodes, ds[i].wordEnd)
    {
      strs := [];
      var i := 0;
      while i < |ds|
        invariant 0 <= i <= |ds|
        invariant |strs| == i && forall k :: 0 <= k < i ==> strs[k] == PathWord(nodes, ds[k].wordEnd)
      {
        var s := IntoString(ds[i].wordEnd);
        strs := strs + [s];
        i := i + 1;
      }
    }

    /**
      `anagrams`: the dictionary words with exactly the letters of `word`
      (under the letters 'a'..'z', which every stored word keeps to).
    */
    method Anagrams(word: string) returns (words: seq<string>)
      requires Valid()
      ensures OverAlphabet(nodes) ==> forall v :: v in words <==> |v| > 0 && Contains(v) && Tally(v) == Tally(word)
    {
      var found: seq<nat> := [];
      var j := 0;
      while j < |nodes[0].children|
        invariant 0 <= j <= |nodes[0].children|
        invariant found == ChildrenExactAnagrams(nodes, 0, j, Tally(word))
      {
        var h := new Histogram(word);
        found := SearchAnagrams(nodes, nodes[0].children[j], h, found);
        j := j + 1;
      }
      ExactAnagramsBelow(nodes, Tally(word));
      assert found == ExactAnagrams(nodes, Tally(word));
      words := IntoStrings(found);
      if OverAlphabet(nodes) {
        AnagramWords(nodes, Tally(word), found, words);
      }
    }

    /** `anagramDerivations` on a histogram: the search from every child of the root. */
    method AnagramDerivationsOf(h: Histogram) returns (ds: seq<Derivation>)
      requires WellFormed(nodes) && h.Valid()
      ensures ds == Derivations(nodes, h.Counts())
    {
      ds := [];
      var j := 0;
      while j < |nodes[0].children|
        invariant 0 <= j <= |nodes[0].children|
        invariant ds == ChildrenDerivations(nodes, 0, j, h.Counts(), None)
      {
        ds := SearchDerivations(nodes, nodes[0].children[j], h, h.Counts(), None, ds);
        j := j + 1;
      }
    }

    /**
      `anagramDerivations` on a word: the dictionary words made of the
      letters of `word` plus exactly one more.
    */
    method AnagramDerivations(word: string) returns (words: seq<string>)
      requires Valid()
      ensures OverAlphabet(nodes) ==> forall v :: v in words <==> Contains(v) && DiffByOne(Tally(v), Tally(word))
    {
      var h := new Histogram(word);
      var ds := AnagramDerivationsOf(h);
      DerivationsSound(nodes, Tally(word));
      assert forall i :: 0 <= i < |ds| ==> ds[i] in ds;
      words := DerivationStrings(ds);
      if OverAlphabet(nodes) {
        TallyNonNegative(word);
        DerivationWords(nodes, Tally(word), ds, words);
      }
    }

    /**
      `findLongest`: for each letter a derivation of `h` can add (the first
      derivation found for it, in letter order), record `path` plus that
      derivation when it is at least as long as the longest so far, then go
      on from `h` plus that letter. The longest length becomes the greater of
      the old one and `path` plus the longest chain from `h`; every path added
      is `path` followed by a chain from `h`.
    */
    method FindLongest(h: Histogram, ghost hc: Counts, path: seq<Derivation>, longest: seq<seq<Derivation>>)
      returns (longest': seq<seq<Derivation>>, ghost height: nat)
      requires WellFormed(nodes) && OverAlphabet(nodes) && h.Valid() && h.Counts() == hc && SameLength(longest)
      ensures height == Height(nodes, hc)
      ensures Found(nodes, hc, path, longest, longest', height)
      decreases MaxDepth(nodes) - Total(hc), 1
    {
      var unique := LettersToTry(h);
      ghost var ns := nodes;
      longest' := longest;
      ghost var best := 0;
      var i := 0;
      while i < |unique|
        invariant 0 <= i <= |unique| && nodes == ns && h.Counts() == hc
        invariant Recorded(ns, hc, path, longest, unique, i, longest', best)
      {
        longest', best := Turn(h, hc, path, longest, unique, i, longest', best);
        i := i + 1;
      }
      RecordedEnd(ns, hc, path, longest, unique, longest', best);
      height := best;
    }

    /**
      One turn of `findLongest`'s loop, for the `i`-th derivation of
      `unique`: keep `path` plus it when it is at least as long as the
      longest so far, then go on from a copy of `h` with its letter added.
      What is recorded covers one more derivation.
    */
    method Turn(h: Histogram, ghost hc: Counts, path: seq<Derivation>, ghost longest: seq<seq<Derivation>>,
                unique: seq<Derivation>, i: nat, lg: seq<seq<Derivation>>, ghost best: int)
      returns (lg': seq<seq<Derivation>>, ghost best': int)
      requires WellFormed(nodes) && OverAlphabet(nodes) && h.Valid() && h.Counts() == hc
      requires i < |unique| && forall e :: e in unique ==> Sound(nodes, hc, e)
      requires Recorded(nodes, hc, path, longest, unique, i, lg, best)
      ensures Recorded(nodes, hc, path, longest, unique, i + 1, lg', best')
      decreases MaxDepth(nodes) - Total(hc), 0
    {
      var derivation := unique[i];
      TurnFacts(nodes, hc, unique, i);
      assert NonNegative(hc);
      var newPath := path + [derivation];
      lg' := Keep(lg, newPath);
      var newHistogram := PlusLetter(h, nodes[derivation.derivationNode].letter);
      ghost var next;
      lg', next := FindLongest(newHistogram, Added(hc, Key(nodes, derivation)), newPath, lg');
      RecordedStep(nodes, hc, path, longest, unique, i, lg, best, next, lg');
      best' := Max(best, 1 + next);
    }

    /**
      The derivations `findLongest` tries from `h`: those found, sorted by
      the letter they add, keeping the first for each letter. They are
      sound, one per letter in increasing order, and their letters give
      the longest chain from `h`.
    */
    method LettersToTry(h: Histogram) returns (unique: seq<Derivation>)
      requires WellFormed(nodes) && OverAlphabet(nodes) && h.Valid()
      ensures forall e :: e in unique ==> Sound(nodes, h.Counts(), e)
      ensures StrictlyByLetter(nodes, unique)
      ensures |unique| > 0 ==> Total(h.Counts()) < MaxDepth(nodes) && Height(nodes, h.Counts()) == HeightAmong(nodes, h.Counts(), Keys(nodes, unique))
      ensures |unique| == 0 ==> Height(nodes, h.Counts()) == 0
      ensures forall s :: Sound(nodes, h.Counts(), s) ==> Key(nodes, s) in Keys(nodes, unique)
    {
      var derivations := AnagramDerivationsOf(h);
      var sorted := SortByLetter(nodes, derivations);
      unique := UniqueByLetter(nodes, sorted);
      UniqueKeys(nodes, h.Counts(), derivations, sorted, unique);
      assert NonNegative(h.Counts());
      SoundKeysKept(nodes, h.Counts(), derivations, sorted, unique);
    }

    /**
      `longestAnagramDerivations`: the lines for the longest chains of
      derivations from `word`. `chains` names the paths behind the lines:
      chains of maximal length, none when there is no chain, and one for
      every sequence of added letters a longest chain can take.
    */
    method LongestAnagramDerivations(word: string) returns (paths: seq<string>, ghost chains: seq<seq<Derivation>>)
      requires Valid() && OverAlphabet(nodes)
      ensures |paths| == |chains|
      ensures forall p :: p in chains ==> ChainFrom(nodes, Tally(word), p) && |p| == Height(nodes, Tally(word))
      ensures forall q :: ChainFrom(nodes, Tally(word), q) && |q| > 0 ==> |chains| > 0 && |q| <= |chains[0]|
      ensures |chains| == 0 <==> Height(nodes, Tally(word)) == 0
      ensures forall q :: ChainFrom(nodes, Tally(word), q) && 0 < |q| == Height(nodes, Tally(word)) ==>
        exists p :: p in chains && Keys(nodes, p) == Keys(nodes, q)
      ensures forall i :: 0 <= i < |chains| ==>
        InTrie(nodes, chains[i]) && paths[i] == Rendered(nodes, word, chains[i])
    {
      var h := new Histogram(word);
      var longest, height := FindLongest(h, Tally(word), [], []);
      chains := longest;
      LongestChains(nodes, Tally(word), word, longest, height);
      LongestTies(nodes, Tally(word), longest, height);
      paths := RenderAll(word, longest);
    }

    /** The lines printed for the chains found, one per chain and in their order. */
    method RenderAll(word: string, chains: seq<seq<Derivation>>) returns (paths: seq<string>)
      requires WellFormed(nodes) && forall p :: p in chains ==> InTrie(nodes, p)
      ensures |paths| == |chains|
      ensures forall i :: 0 <= i < |chains| ==> InTrie(nodes, chains[i]) && paths[i] == Rendered(nodes, word, chains[i])
    {
      paths := [];
      var i := 0;
      while i < |chains|
        invariant 0 <= i <= |chains| && |paths| == i
        invariant forall j :: 0 <= j < i ==> InTrie(nodes, chains[j]) && paths[j] == Rendered(nodes, word, chains[j])
      {
        assert chains[i] in chains;
        var line := Render(word, chains[i]);
        paths := paths + [line];
        i := i + 1;
      }
    }

    /** The line printed for one chain: `word`, then `+letter=word` for each derivation. */
    method Render(word: string, path: seq<Derivation>) returns (line: string)
      requires WellFormed(nodes) && InTrie(nodes, path)
      ensures line == Rendered(nodes, word, path)
    {
      line := word;
      var k := 0;
      while k < |path|
        invariant 0 <= k <= |path|
        invariant line == Rendered(nodes, word, path[..k])
      {
        var derived := IntoString(path[k].wordEnd);
        line := line + ['+', Key(nodes, path[k]), '='] + derived;
        assert path[..k + 1][..k] == path[..k];
        k := k + 1;
      }
      assert path[..k] == path;
    }
  }

  // ---------------------------------------------------------------------
  // The searches of `Node`, over the nodes of a trie
  // ---------------------------------------------------------------------

  /**
    `Node::anagrams` with its branches the right way round: the copy of the
    histogram loses `n`'s letter; while letters remain the children are
    searched, and once none remain a word end is recorded.
  */
  method SearchAnagrams(ns: seq<Node>, n: nat, h: Histogram, result: seq<nat>) returns (result': seq<nat>)
    requires WellFormed(ns) && n < |ns| && h.Valid()
    ensures result' == result + NodeExactAnagrams(ns, n, h.Counts())
    decreases |ns| - n, 1
  {
    var histogram := new Histogram.Copy(h);
    var removed := histogram.Remove(ns[n].letter);
    result' := result;
    if removed {
      if !histogram.IsClear() {
        result' := SearchChildrenAnagrams(ns, n, histogram, result');
      } else if ns[n].isWordEnd {
        result' := result' + [n];
      }
    }
  }

  /** The loop of `Node::anagrams` over the children of `n`, each given a copy of `h`. */
  method SearchChildrenAnagrams(ns: seq<Node>, n: nat, h: Histogram, result: seq<nat>) returns (result': seq<nat>)
    requires WellFormed(ns) && n < |ns| && h.Valid()
    ensures result' == result + ChildrenExactAnagrams(ns, n, |ns[n].children|, h.Counts())
    decreases |ns| - n, 0
  {
    result' := result;
    var j := 0;
    while j < |ns[n].children|
      invariant 0 <= j <= |ns[n].children|
      invariant result' == result + ChildrenExactAnagrams(ns, n, j, h.Counts())
    {
      result' := SearchAnagrams(ns, ns[n].children[j], h, result');
      j := j + 1;
    }
  }

  /**
    `Node::anagramDerivations` as evidently meant: a letter the histogram
    lacks becomes the extra letter once, a second one ends the branch; a
    word end is recorded once an extra letter is chosen and the histogram
    is clear, and otherwise the children are searched.
  */
  method SearchDerivations(ns: seq<Node>, n: nat, h: Histogram, ghost hc: Counts, dn: Option<nat>, result: seq<Derivation>)
    returns (result': seq<Derivation>)
    requires WellFormed(ns) && n < |ns| && h.Valid() && h.Counts() == hc
    requires dn.Some? ==> dn.value < |ns|
    ensures result' == result + NodeDerivations(ns, n, hc, dn)
    decreases |ns| - n, 1
  {
    var histogram := new Histogram.Copy(h);
    var removed := histogram.Remove(ns[n].letter);
    result' := result;
    if !removed && dn.Some? {
      return;
    }
    var derivationNode := if removed then dn else Some(n);
    if derivationNode.Some? && histogram.IsClear() {
      if ns[n].isWordEnd {
        result' := result' + [Derivation(n, derivationNode.value)];
      }
    } else {
      result' := SearchChildrenDerivations(ns, n, histogram, histogram.Counts(), derivationNode, result');
    }
  }

  /** The loop of `Node::anagramDerivations` over the children of `n`, each given a copy of `h`. */
  method SearchChildrenDerivations(ns: seq<Node>, n: nat, h: Histogram, ghost hc: Counts, dn: Option<nat>, result: seq<Derivation>)
    returns (result': seq<Derivation>)
    requires WellFormed(ns) && n < |ns| && h.Valid() && h.Counts() == hc
    requires dn.Some? ==> dn.value < |ns|
    ensures result' == result + ChildrenDerivations(ns, n, |ns[n].children|, hc, dn)
    decreases |ns| - n, 0
  {
    result' := result;
    var j := 0;
    while j < |ns[n].children|
      invariant 0 <= j <= |ns[n].children| && h.Counts() == hc
      invariant result' == result + ChildrenDerivations(ns, n, j, hc, dn)
    {
      ChildrenDerivationsNext(ns, n, j, hc, dn);
      result' := SearchDerivations(ns, ns[n].children[j], h, hc, dn, result');
      j := j + 1;
    }
  }

  /**
    The paths `findLongest` records from a query with nothing before them
    are the longest chains from it: each is a chain of `Height` derivations
    whose words are nodes of the trie, and no chain is longer.
  */
  lemma LongestChains(ns: seq<Node>, h: Counts, word: string, longest: seq<seq<Derivation>>, height: int)
    requires WellFormed(ns) && OverAlphabet(ns) && h == Tally(word)
    requires height == Height(ns, h) && Found(ns, h, [], [], longest, height)
    ensures forall p :: p in longest ==> ChainFrom(ns, h, p) && |p| == Height(ns, h)
    ensures forall q :: ChainFrom(ns, h, q) && |q| > 0 ==> |longest| > 0 && |q| <= |longest[0]|
    ensures forall p :: p in longest ==> InTrie(ns, p)
  {
    TallyNonNegative(word);
    HeightIsLongest(ns, h);
    LongestPaths(ns, h, longest, height);
    ChainsInTrie(ns, h, longest);
  }

  // ---------------------------------------------------------------------
  // Facts the methods above rely on
  // ---------------------------------------------------------------------

  /** From a query with nothing before it, every path recorded is a chain of `Height` derivations. */
  lemma LongestPaths(ns: seq<Node>, h: Counts, longest: seq<seq<Derivation>>, height: int)
    requires WellFormed(ns) && height == Height(ns, h) && Found(ns, h, [], [], longest, height)
    ensures forall p :: p in longest ==> ChainFrom(ns, h, p) && |p| == height
    ensures height > 0 ==> |longest| > 0 && |longest[0]| == height
  {
    forall p | p in longest
      ensures ChainFrom(ns, h, p) && |p| == height
    {
      assert p[0..] == p;
      var k :| 0 <= k < |longest| && longest[k] == p;
      assert |longest[k]| == |longest[0]|;
    }
  }

  /** The derivations of chains end at nodes of the trie. */
  lemma ChainsInTrie(ns: seq<Node>, h: Counts, longest: seq<seq<Derivation>>)
    requires WellFormed(ns) && OverAlphabet(ns) && forall p :: p in longest ==> ChainFrom(ns, h, p)
    ensures forall p :: p in longest ==> InTrie(ns, p)
  {
    forall p: seq<Derivation> | p in longest
      ensures InTrie(ns, p)
    {
      forall k | 0 <= k < |p|
        ensures p[k].wordEnd < |ns|
      {
        ChainDiffByOne(ns, h, p, k);
      }
    }
  }

  /**
    From a query with nothing before it, `findLongest` records no path when
    there is no chain, and every longest chain has its letters in one of the
    paths (one path per sequence of added letters is what the
    de-duplication by letter leaves).
  */
  lemma LongestTies(ns: seq<Node>, h: Counts, longest: seq<seq<Derivation>>, height: int)
    requires WellFormed(ns) && height == Height(ns, h) && Found(ns, h, [], [], longest, height)
    ensures |longest| == 0 <==> height == 0
    ensures forall q :: ChainFrom(ns, h, q) && 0 < |q| == height ==> exists p :: p in longest && Keys(ns, p) == Keys(ns, q)
  {
    forall q | ChainFrom(ns, h, q) && 0 < |q| == height
      ensures exists p :: p in longest && Keys(ns, p) == Keys(ns, q)
    {
      assert Covered(ns, [], longest, q);
      var p :| p in longest && 0 <= |p| && p[..0] == [] && Keys(ns, p[0..]) == Keys(ns, q);
      assert p[0..] == p;
    }
  }

  /** The nodes the exact-anagram search finds are nodes of the trie. */
  lemma ExactAnagramsBelow(ns: seq<Node>, h0: Counts)
    requires WellFormed(ns)
    ensures forall i :: 0 <= i < |ExactAnagrams(ns, h0)| ==> ExactAnagrams(ns, h0)[i] < |ns|
  {
    assert PathWord(ns, 0) == [];
    assert Tally([]) == Zeros();
    ChildrenExactSound(ns, 0, |ns[0].children|, h0, h0);
    var found := ExactAnagrams(ns, h0);
    assert forall i :: 0 <= i < |found| ==> found[i] in found;
  }

  /**
    Sorting and de-duplicating the derivations keeps their letters: the
    unique ones are sound, and they add the same letters as all of them.
  */
  lemma UniqueKeys(ns: seq<Node>, h: Counts, ds: seq<Derivation>, sorted: seq<Derivation>, unique: seq<Derivation>)
    requires WellFormed(ns) && OverAlphabet(ns) && ds == Derivations(ns, h)
    requires multiset(sorted) == multiset(ds)
    requires forall e :: e in unique ==> e in sorted
    requires forall i :: 0 <= i < |sorted| ==> Key(ns, sorted[i]) in Keys(ns, unique)
    ensures forall e :: e in unique ==> Sound(ns, h, e)
    ensures |unique| > 0 ==> Total(h) < MaxDepth(ns) && Height(ns, h) == HeightAmong(ns, h, Keys(ns, unique))
    ensures |unique| == 0 ==> Height(ns, h) == 0
  {
    UniqueSound(ns, h, ds, sorted, unique);
    if |unique| > 0 {
      assert unique[0] in unique;
      SoundBelowMaxDepth(ns, h, unique[0]);
      KeysWithin(ns, ds, sorted, unique);
      KeysCovered(ns, ds, sorted, unique);
      HeightAmongSubset(ns, h, Keys(ns, unique), Keys(ns, ds));
      HeightAmongSubset(ns, h, Keys(ns, ds), Keys(ns, unique));
    } else {
      KeptSome(ns, sorted, unique);
      assert |ds| == |multiset(ds)| == 0;
      assert Keys(ns, ds) == [];
    }
  }

  /** Every letter a sound derivation adds is the letter of a kept one. */
  lemma SoundKeysKept(ns: seq<Node>, h: Counts, ds: seq<Derivation>, sorted: seq<Derivation>, unique: seq<Derivation>)
    requires WellFormed(ns) && OverAlphabet(ns) && NonNegative(h) && ds == Derivations(ns, h)
    requires multiset(sorted) == multiset(ds)
    requires forall i :: 0 <= i < |sorted| ==> Key(ns, sorted[i]) in Keys(ns, unique)
    ensures forall s :: Sound(ns, h, s) ==> Key(ns, s) in Keys(ns, unique)
  {
    KeysCovered(ns, ds, sorted, unique);
    forall s | Sound(ns, h, s)
      ensures Key(ns, s) in Keys(ns, unique)
    {
      KeyFound(ns, h, s);
    }
  }

  /** Some derivation is kept whenever one was found. */
  lemma KeptSome(ns: seq<Node>, sorted: seq<Derivation>, unique: seq<Derivation>)
    requires forall i :: 0 <= i < |sorted| ==> Key(ns, sorted[i]) in Keys(ns, unique)
    ensures |sorted| > 0 ==> |unique| > 0
  {
    if |sorted| > 0 {
      assert Key(ns, sorted[0]) in Keys(ns, unique);
    }
  }

  /** The derivations kept after sorting and de-duplicating are among those found, so they are sound. */
  lemma UniqueSound(ns: seq<Node>, h: Counts, ds: seq<Derivation>, sorted: seq<Derivation>, unique: seq<Derivation>)
    requires WellFormed(ns) && ds == Derivations(ns, h)
    requires multiset(sorted) == multiset(ds)
    requires forall e :: e in unique ==> e in sorted
    ensures forall e :: e in unique ==> Sound(ns, h, e)
  {
    DerivationsSound(ns, h);
    forall e | e in unique ensures Sound(ns, h, e) {
      assert e in multiset(sorted);
    }
  }

  /** Every letter the kept derivations add is one some derivation found adds. */
  lemma KeysWithin(ns: seq<Node>, ds: seq<Derivation>, sorted: seq<Derivation>, unique: seq<Derivation>)
    requires multiset(sorted) == multiset(ds)
    requires forall e :: e in unique ==> e in sorted
    ensures forall c :: c in Keys(ns, unique) ==> c in Keys(ns, ds)
  {
    forall c | c in Keys(ns, unique) ensures c in Keys(ns, ds) {
      var i :| 0 <= i < |unique| && Keys(ns, unique)[i] == c;
      assert unique[i] in unique;
      assert unique[i] in multiset(ds);
      var j :| 0 <= j < |ds| && ds[j] == unique[i];
      assert Keys(ns, ds)[j] == c;
    }
  }

  /** Every letter a derivation found adds is one the kept derivations add. */
  lemma KeysCovered(ns: seq<Node>, ds: seq<Derivation>, sorted: seq<Derivation>, unique: seq<Derivation>)
    requires multiset(sorted) == multiset(ds)
    requires forall i :: 0 <= i < |sorted| ==> Key(ns, sorted[i]) in Keys(ns, unique)
    ensures forall c :: c in Keys(ns, ds) ==> c in Keys(ns, unique)
  {
    forall c | c in Keys(ns, ds) ensures c in Keys(ns, unique) {
      var j :| 0 <= j < |ds| && Keys(ns, ds)[j] == c;
      assert ds[j] in multiset(sorted);
      var i :| 0 <= i < |sorted| && sorted[i] == ds[j];
    }
  }
}
