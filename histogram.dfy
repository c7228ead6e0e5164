/**
  The letter histogram: 26 counters, one per letter 'a'..'z', and a
  "dirty mask" with one bit per letter that is set exactly when the letter's
  count is positive, so that `IsClear` need not scan the counts.

  The first half of the module gives the value-level view (a `Counts`
  sequence and the pure operations on it); the class `Histogram` at the end
  is the object the search copies and changes in place.
*/
module Histograms {

  /** Number of letters counted: 'z' - 'a' + 1. */
  const SIZE: int := 26

  /** The 26 counts of a histogram, index 0 for 'a'. */
  type Counts = h: seq<int> | |h| == SIZE witness seq(26, _ => 0)

  predicate IsLetter(c: char) {
    'a' <= c <= 'z'
  }

  /** A word every character of which the histogram counts. */
  predicate IsWord(w: string) {
    forall k :: 0 <= k < |w| ==> IsLetter(w[k])
  }

  /** The letter counted at index `i`. */
  function Letter(i: int): (c: char)
    requires 0 <= i < SIZE
    ensures IsLetter(c)
  {
    ('a' as int + i) as char
  }

  /** The position of `c` among 'a'..'z', or -1 for every other character. */
  function Index(c: char): (i: int)
    ensures -1 <= i < SIZE
    ensures i >= 0 <==> IsLetter(c)
    ensures i >= 0 ==> Letter(i) == c
    ensures forall j :: 0 <= j < SIZE ==> (i == j <==> Letter(j) == c)
  {
    var i := c as int - 'a' as int;
    if 0 <= i < SIZE then i else -1
  }

  function Zeros(): (h: Counts)
    ensures forall i :: 0 <= i < SIZE ==> h[i] == 0
  {
    seq(SIZE, _ => 0)
  }

  predicate IsZero(h: Counts) {
    forall i :: 0 <= i < SIZE ==> h[i] == 0
  }

  predicate NonNegative(h: Counts) {
    forall i :: 0 <= i < SIZE ==> h[i] >= 0
  }

  /** The sum of all counts. */
  function Total(h: seq<int>): int
    decreases |h|
  {
    if |h| == 0 then 0 else Total(h[..|h| - 1]) + h[|h| - 1]
  }

  /** The counts after `+= c`: one more `c`, and nothing else for a character outside 'a'..'z'. */
  function Added(h: Counts, c: char): (r: Counts)
    ensures forall i :: 0 <= i < SIZE ==> r[i] == h[i] + (if i == Index(c) then 1 else 0)
    ensures !IsLetter(c) ==> r == h
  {
    var i := Index(c);
    if i >= 0 then h[i := h[i] + 1] else h
  }

  /** The outcome of `remove(c)`: whether it succeeded, and the counts afterwards. */
  datatype Removal = Removal(ok: bool, counts: Counts)

  function Removed(h: Counts, c: char): (r: Removal)
    ensures r.ok <==> IsLetter(c) && h[Index(c)] > 0
    ensures r.ok ==> Added(r.counts, c) == h
    ensures !r.ok ==> r.counts == h
  {
    var i := Index(c);
    if i >= 0 && h[i] > 0 then Removal(true, h[i := h[i] - 1]) else Removal(false, h)
  }

  /** Elementwise difference, as `-=` and `-` compute it; counts may go negative. */
  function Difference(a: Counts, b: Counts): (r: Counts)
    ensures forall i :: 0 <= i < SIZE ==> r[i] == a[i] - b[i]
  {
    seq(SIZE, i requires 0 <= i < SIZE => a[i] - b[i])
  }

  /** The histogram of a word: every 'a'..'z' character counted once, all others skipped. */
  function Tally(w: string): Counts
    decreases |w|
  {
    if |w| == 0 then Zeros() else Added(Tally(w[..|w| - 1]), w[|w| - 1])
  }

  /**
    "a is b plus exactly one letter": exactly one index where a exceeds b by
    one, and equal counts everywhere else.
  */
  predicate DiffByOne(a: Counts, b: Counts) {
    exists i :: 0 <= i < SIZE && a[i] - b[i] == 1 && forall j :: 0 <= j < SIZE && j != i ==> a[j] == b[j]
  }

  // ---------------------------------------------------------------------
  // Properties of the value-level operations
  // ---------------------------------------------------------------------

  /** Each count of `Tally(w)` is the number of occurrences of its letter in `w`. */
  lemma {:induction false} TallyCounts(w: string, i: int)
    requires 0 <= i < SIZE
    ensures Tally(w)[i] == multiset(w)[Letter(i)]
    decreases |w|
  {
    if |w| > 0 {
      var u, c := w[..|w| - 1], w[|w| - 1];
      assert w == u + [c];
      TallyCounts(u, i);
    }
  }

  /** The histogram of a word is the same for every rearrangement of its characters. */
  lemma TallyPermutation(u: string, v: string)
    requires multiset(u) == multiset(v)
    ensures Tally(u) == Tally(v)
  {
    forall i | 0 <= i < SIZE
      ensures Tally(u)[i] == Tally(v)[i]
    {
      TallyCounts(u, i);
      TallyCounts(v, i);
    }
  }

  lemma {:induction false} TallyNonNegative(w: string)
    ensures NonNegative(Tally(w))
    decreases |w|
  {
    if |w| > 0 {
      TallyNonNegative(w[..|w| - 1]);
    }
  }

  lemma {:induction false} TotalUpdate(h: seq<int>, i: int, v: int)
    requires 0 <= i < |h|
    ensures Total(h[i := v]) == Total(h) - h[i] + v
    decreases |h|
  {
    var n := |h|;
    if i < n - 1 {
      assert h[i := v][..n - 1] == h[..n - 1][i := v];
      TotalUpdate(h[..n - 1], i, v);
    } else {
      assert h[i := v][..n - 1] == h[..n - 1];
    }
  }

  /** Adding a letter raises the total by one; any other character leaves it. */
  lemma AddedTotal(h: Counts, c: char)
    ensures Total(Added(h, c)) == Total(h) + (if IsLetter(c) then 1 else 0)
  {
    if IsLetter(c) {
      TotalUpdate(h, Index(c), h[Index(c)] + 1);
    }
  }

  lemma {:induction false} ZerosTotal(h: seq<int>)
    requires forall i :: 0 <= i < |h| ==> h[i] == 0
    ensures Total(h) == 0
    decreases |h|
  {
    if |h| > 0 {
      ZerosTotal(h[..|h| - 1]);
    }
  }

  /** The histogram of a word over 'a'..'z' counts every one of its characters. */
  lemma {:induction false} TallyTotal(w: string)
    ensures Total(Tally(w)) <= |w|
    ensures IsWord(w) ==> Total(Tally(w)) == |w|
    decreases |w|
  {
    if |w| == 0 {
      ZerosTotal(Zeros());
    } else {
      TallyTotal(w[..|w| - 1]);
      AddedTotal(Tally(w[..|w| - 1]), w[|w| - 1]);
    }
  }

  /** Adding one letter yields a histogram that differs by one. */
  lemma AddedDiffByOne(h: Counts, c: char)
    requires IsLetter(c)
    ensures DiffByOne(Added(h, c), h)
  {
    var r := Added(h, c);
    assert r[Index(c)] - h[Index(c)] == 1;
  }

  /** `DiffByOne(a, b)` holds exactly when `a` is `b` with one letter added. */
  lemma DiffByOneIffAdded(a: Counts, b: Counts)
    ensures DiffByOne(a, b) <==> exists i :: 0 <= i < SIZE && a == Added(b, Letter(i))
  {
    if DiffByOne(a, b) {
      var i :| 0 <= i < SIZE && a[i] - b[i] == 1 && forall j :: 0 <= j < SIZE && j != i ==> a[j] == b[j];
      assert a == Added(b, Letter(i));
    }
    if exists i :: 0 <= i < SIZE && a == Added(b, Letter(i)) {
      var i :| 0 <= i < SIZE && a == Added(b, Letter(i));
      AddedDiffByOne(b, Letter(i));
    }
  }

  /** No histogram is a derivation of itself. */
  lemma DiffByOneIrreflexive(h: Counts)
    ensures !DiffByOne(h, h)
  {
  }

  /** If a derives from b, b does not derive from a. */
  lemma DiffByOneAsymmetric(a: Counts, b: Counts)
    requires DiffByOne(a, b)
    ensures !DiffByOne(b, a)
  {
  }

  /** A derivation has exactly one letter more than what it derives from. */
  lemma DiffByOneTotal(a: Counts, b: Counts)
    requires DiffByOne(a, b)
    ensures Total(a) == Total(b) + 1
  {
    var i :| 0 <= i < SIZE && a[i] - b[i] == 1 && forall j :: 0 <= j < SIZE && j != i ==> a[j] == b[j];
    assert a == b[i := b[i] + 1];
    TotalUpdate(b, i, b[i] + 1);
  }

  /**
    Appending a letter to a word, and then rearranging the characters in any
    way, gives a word whose histogram differs from the original's by one.
  */
  lemma WordPlusLetter(w: string, c: char, p: string)
    requires IsLetter(c)
    requires multiset(p) == multiset(w + [c])
    ensures DiffByOne(Tally(p), Tally(w))
  {
    var wc := w + [c];
    assert wc[..|wc| - 1] == w;
    TallyPermutation(p, wc);
    AddedDiffByOne(Tally(w), c);
  }

  // ---------------------------------------------------------------------
  // The histogram object
  // ---------------------------------------------------------------------

  class Histogram {
    /** One count per letter (`m_hits`). */
    var hits: array<int>
    /** One bit per letter, set when its count is positive (`m_dirtyMask`). */
    var dirtyMask: array<bool>

    ghost predicate Shaped()
      reads this
    {
      hits.Length == SIZE && dirtyMask.Length == SIZE
    }

    /** The counts are non-negative and the mask marks exactly the positive ones. */
    ghost predicate Valid()
      reads this, hits, dirtyMask
    {
      Shaped() && forall i :: 0 <= i < SIZE ==> hits[i] >= 0 && (dirtyMask[i] <==> hits[i] > 0)
    }

    function Counts(): Counts
      reads this, hits
      requires Shaped()
    {
      hits[..]
    }

    /** Builds the histogram of `word`: all counts zero, then `+=` for each character. */
    constructor (word: string)
      ensures Valid() && fresh(hits) && fresh(dirtyMask)
      ensures Counts() == Tally(word)
    {
      hits := new int[SIZE](_ => 0);
      dirtyMask := new bool[SIZE](_ => false);
      new;
      var k := 0;
      while k < |word|
        invariant 0 <= k <= |word|
        invariant fresh(hits) && fresh(dirtyMask)
        invariant Valid() && Counts() == Tally(word[..k])
      {
        assert word[..k + 1][..k] == word[..k];
        Add(word[k]);
        k := k + 1;
      }
      assert word[..k] == word;
    }

    /** The copy the C++ code makes when a histogram is passed or assigned by value. */
    constructor Copy(other: Histogram)
      requires other.Shaped()
      ensures Shaped() && fresh(hits) && fresh(dirtyMask)
      ensures hits[..] == other.hits[..] && dirtyMask[..] == other.dirtyMask[..]
      ensures other.Valid() ==> Valid()
    {
      var h, m := other.hits[..], other.dirtyMask[..];
      hits := new int[SIZE](i => if 0 <= i < |h| then h[i] else 0);
      dirtyMask := new bool[SIZE](i => if 0 <= i < |m| then m[i] else false);
      new;
      assert hits[..] == h;
      assert dirtyMask[..] == m;
    }

    /** `add(c)` / `+= c`: one more `c`; a character outside 'a'..'z' changes nothing. */
    method Add(c: char)
      requires Valid()
      modifies hits, dirtyMask
      ensures Valid()
      ensures Counts() == Added(old(Counts()), c)
    {
      var i := Index(c);
      if i >= 0 {
        hits[i] := hits[i] + 1;
        dirtyMask[i] := true;
      }
    }

    /**
      `remove(c)`: takes one `c` away when there is one; otherwise reports
      false and leaves the histogram as it was.
    */
    method Remove(c: char) returns (removed: bool)
      requires Valid()
      modifies hits, dirtyMask
      ensures Valid()
      ensures Removal(removed, Counts()) == Removed(old(Counts()), c)
      ensures !removed ==> Counts() == old(Counts())
    {
      var i := Index(c);
      if i >= 0 && hits[i] > 0 {
        hits[i] := hits[i] - 1;
        if hits[i] == 0 {
          dirtyMask[i] := false;
        }
        removed := true;
      } else {
        removed := false;
      }
    }

    /** `isClear()`: no mask bit is set; for a valid histogram, every count is zero. */
    function IsClear(): (clear: bool)
      reads this, hits, dirtyMask
      requires Shaped()
      ensures Valid() ==> (clear <==> IsZero(Counts()))
    {
      forall i :: 0 <= i < SIZE ==> !dirtyMask[i]
    }

    /** `occurrences(c)`: how many `c` the histogram holds; 0 outside 'a'..'z'. */
    function Occurrences(c: char): (n: int)
      reads this, hits
      requires Shaped()
      ensures Valid() ==> n >= 0
      ensures n > 0 <==> Removed(Counts(), c).ok
      ensures IsLetter(c) ==> n == Counts()[Index(c)]
      ensures !IsLetter(c) ==> n == 0
    {
      var i := Index(c);
      if i >= 0 then hits[i] else 0
    }

    /** `contains(c)`: whether a `c` is there to be removed. */
    function Contains(c: char): (b: bool)
      reads this, hits
      requires Shaped()
      ensures b <==> Removed(Counts(), c).ok
    {
      Occurrences(c) > 0
    }

    /**
      `-= other`: subtracts count by count. The mask is not touched, so a
      histogram that was valid may not be afterwards.
    */
    method SubtractAssign(other: Histogram)
      requires Shaped() && other.Shaped()
      modifies hits
      ensures Shaped()
      ensures Counts() == Difference(old(Counts()), old(other.Counts()))
    {
      ghost var before, subtrahend := hits[..], other.hits[..];
      var i := 0;
      while i < SIZE
        invariant 0 <= i <= SIZE
        invariant forall j :: 0 <= j < i ==> hits[j] == before[j] - subtrahend[j]
        invariant forall j :: i <= j < SIZE ==> hits[j] == before[j]
        invariant other.hits != hits ==> other.hits[..] == subtrahend
      {
        hits[i] := hits[i] - other.hits[i];
        i := i + 1;
      }
      assert hits[..] == Difference(before, subtrahend);
    }

    /** `this - other`: a new histogram holding the difference; `this` is unchanged. */
    method Minus(other: Histogram) returns (r: Histogram)
      requires Shaped() && other.Shaped()
      ensures fresh(r) && fresh(r.hits) && r.Shaped()
      ensures r.Counts() == Difference(Counts(), other.Counts())
      ensures r.dirtyMask[..] == dirtyMask[..]
    {
      r := new Histogram.Copy(this);
      r.SubtractAssign(other);
    }

    /** `diffByOne(other)`: whether this histogram is `other` plus exactly one letter. */
    method DiffByOneWith(other: Histogram) returns (isDiffByOne: bool)
      requires Shaped() && other.Shaped()
      ensures isDiffByOne == DiffByOne(Counts(), other.Counts())
    {
      ghost var a, b := Counts(), other.Counts();
      ghost var at := -1;
      isDiffByOne := false;
      var i := 0;
      while i < SIZE
        invariant 0 <= i <= SIZE
        invariant -1 <= at < i
        invariant isDiffByOne <==> 0 <= at
        invariant isDiffByOne ==> a[at] - b[at] == 1
        invariant forall j :: 0 <= j < i && j != at ==> a[j] == b[j]
      {
        var diff := hits[i] - other.hits[i];
        if diff == 1 && !isDiffByOne {
          isDiffByOne, at := true, i;
        } else if diff == 1 && isDiffByOne {
          assert a[at] - b[at] == 1 && a[i] - b[i] == 1;
          return false;
        } else if diff != 0 {
          assert a[i] - b[i] != 0 && a[i] - b[i] != 1;
          return false;
        }
        i := i + 1;
      }
      if !isDiffByOne {
        assert forall j :: 0 <= j < SIZE ==> a[j] == b[j];
      }
    }
  }
}
