/** The in-place co-sort of detection scores and their indices. */
module QuickSort {

  type Scored = (real, int)

  /** The pairs the two vectors hold together. */
  ghost function Zip(scores: seq<real>, indices: seq<int>): (z: seq<Scored>)
    requires |scores| == |indices|
    ensures |z| == |scores|
  {
    seq(|scores|, i requires 0 <= i < |scores| => (scores[i], indices[i]))
  }

  /** Positions left to right are in non-increasing order of score. */
  ghost predicate Sorted(z: seq<Scored>, left: int, right: int)
    requires 0 <= left && right < |z|
  {
    forall i, j | left <= i < j <= right :: z[i].0 >= z[j].0
  }

  /** The same pairs, rearranged only between left and right. */
  ghost predicate Rearranged(a: seq<Scored>, b: seq<Scored>, left: int, right: int) {
    && |a| == |b| && multiset(a) == multiset(b)
    && forall i | 0 <= i < |a| && !(left <= i <= right) :: a[i] == b[i]
  }

  ghost predicate AtLeast(z: seq<Scored>, from: int, to: int, key: real) {
    forall i | from <= i < to && 0 <= i < |z| :: z[i].0 >= key
  }

  ghost predicate AtMost(z: seq<Scored>, from: int, to: int, key: real) {
    forall i | from <= i < to && 0 <= i < |z| :: z[i].0 <= key
  }

  lemma RearrangedTrans(a: seq<Scored>, b: seq<Scored>, c: seq<Scored>, l1: int, r1: int, l2: int, r2: int, left: int, right: int)
    requires Rearranged(a, b, l1, r1) && Rearranged(b, c, l2, r2)
    requires left <= l1 && r1 <= right && left <= l2 && r2 <= right
    ensures Rearranged(a, c, left, right)
  {
  }

  /** What a stretch contains survives its rearrangement. */
  lemma SegmentKept(a: seq<Scored>, b: seq<Scored>, left: nat, right: int)
    requires Rearranged(a, b, left, right) && left <= right + 1 <= |a|
    ensures multiset(a[left..right + 1]) == multiset(b[left..right + 1])
  {
    var pre, post := a[..left], a[right + 1..];
    var s, t := a[left..right + 1], b[left..right + 1];
    assert a == pre + s + post;
    assert b[..left] == pre && b[right + 1..] == post && b == pre + t + post;
    assert multiset(pre + s + post) == multiset(pre) + multiset(s) + multiset(post);
    assert multiset(pre + t + post) == multiset(pre) + multiset(t) + multiset(post);
    MultisetCancel(multiset(pre), multiset(s), multiset(t), multiset(post));
  }

  lemma MultisetCancel(p: multiset<Scored>, s: multiset<Scored>, t: multiset<Scored>, q: multiset<Scored>)
    requires p + s + q == p + t + q
    ensures s == t
  {
    assert s == p + s + q - p - q;
    assert t == p + t + q - p - q;
  }

  lemma FoundBefore(a: seq<Scored>, b: seq<Scored>, left: nat, right: int, i: nat) returns (k: nat)
    requires Rearranged(a, b, left, right) && left <= i <= right < |a|
    ensures left <= k <= right && a[k] == b[i]
  {
    SegmentKept(a, b, left, right);
    var s, t := a[left..right + 1], b[left..right + 1];
    assert t[i - left] in multiset(t);
    assert b[i] in s;
    var m :| 0 <= m < |s| && s[m] == b[i];
    k := left + m;
  }

  lemma BoundsKept(a: seq<Scored>, b: seq<Scored>, left: nat, right: int, key: real)
    requires Rearranged(a, b, left, right) && left <= right + 1 <= |a|
    ensures AtLeast(a, left, right + 1, key) ==> AtLeast(b, left, right + 1, key)
    ensures AtMost(a, left, right + 1, key) ==> AtMost(b, left, right + 1, key)
  {
    forall i: nat | left <= i <= right
      ensures (AtLeast(a, left, right + 1, key) ==> b[i].0 >= key) && (AtMost(a, left, right + 1, key) ==> b[i].0 <= key)
    {
      var k := FoundBefore(a, b, left, right, i);
      assert a[k].0 == b[i].0;
    }
  }

  /** Filling the hole from another position moves the hole there and loses nothing. */
  lemma MoveHole(z: seq<Scored>, hole: nat, from: nat, key: Scored)
    requires hole < |z| && from < |z|
    ensures multiset(z[hole := z[from]][from := key]) == multiset(z[hole := key])
  {
    var a := z[hole := key];
    var b := z[hole := z[from]][from := key];
    if hole != from {
      assert b == a[hole := a[from]][from := a[hole]];
    } else {
      assert b == a;
    }
  }

  /** With the key put back into the hole the pairs are the original ones, rearranged. */
  ghost predicate Filled(z0: seq<Scored>, z: seq<Scored>, left: int, right: int, hole: nat, k: Scored) {
    hole < |z| && Rearranged(z0, z[hole := k], left, right)
  }

  lemma FillStep(z0: seq<Scored>, z: seq<Scored>, left: int, right: int, hole: nat, from: nat, k: Scored)
    requires Filled(z0, z, left, right, hole, k) && left <= hole <= right && left <= from <= right && from < |z|
    ensures Filled(z0, z[hole := z[from]], left, right, from, k)
  {
    MoveHole(z, hole, from, k);
  }

  /** What the cursors have passed: scores not below the key on the left, not above it on the right. */
  ghost predicate Parted(z: seq<Scored>, left: int, low: int, high: int, right: int, key: real) {
    AtLeast(z, left, low, key) && AtMost(z, high + 1, right + 1, key)
  }

  /** Writing between the cursors disturbs neither side. */
  lemma PartedUpdate(z: seq<Scored>, left: int, low: int, high: int, right: int, key: real, at: nat, x: Scored)
    requires Parted(z, left, low, high, right, key) && low <= at <= high && at < |z|
    ensures Parted(z[at := x], left, low, high, right, key)
  {
  }

  /** Copies pair `from` over pair `hole`. */
  method CopyPair(input: array<real>, indices: array<int>, hole: nat, from: nat)
    requires input.Length == indices.Length && hole < input.Length && from < input.Length
    modifies input, indices
    ensures Zip(input[..], indices[..]) == var z := old(Zip(input[..], indices[..])); z[hole := z[from]]
  {
    input[hole] := input[from];
    indices[hole] := indices[from];
  }

  /** The left half of a round: from the right end, the next score above the key goes into the hole. */
  method FillFromRight(input: array<real>, indices: array<int>, left: nat, low: nat, from: nat, right: nat,
                       k: Scored, ghost z0: seq<Scored>) returns (high: nat)
    requires input.Length == indices.Length && left <= low < from <= right < input.Length
    requires Filled(z0, Zip(input[..], indices[..]), left, right, low, k)
    requires Parted(Zip(input[..], indices[..]), left, low, from, right, k.0)
    modifies input, indices
    ensures low <= high <= from
    ensures Filled(z0, Zip(input[..], indices[..]), left, right, high, k)
    ensures Parted(Zip(input[..], indices[..]), left, low, high, right, k.0)
    ensures low < high ==> input[low] > k.0
  {
    hide Filled;
    high := SkipDown(input, low, from, k.0);
    ghost var z := Zip(input[..], indices[..]);
    assert forall i | high < i <= from :: z[i].0 == input[i];
    assert Parted(z, left, low, high, right, k.0);
    FillStep(z0, z, left, right, low, high, k);
    PartedUpdate(z, left, low, high, right, k.0, low, z[high]);
    assert z[high].0 == input[high];
    hide Parted;
    CopyPair(input, indices, low, high);
    assert Zip(input[..], indices[..])[low] == z[high];
  }

  /** The right half of a round: from the left end, the next score below the key goes into the hole. */
  method FillFromLeft(input: array<real>, indices: array<int>, left: nat, from: nat, high: nat, right: nat,
                      k: Scored, ghost z0: seq<Scored>) returns (low: nat)
    requires input.Length == indices.Length && left <= from <= high <= right < input.Length
    requires Filled(z0, Zip(input[..], indices[..]), left, right, high, k)
    requires Parted(Zip(input[..], indices[..]), left, from, high, right, k.0)
    requires from < high ==> input[from] > k.0
    modifies input, indices
    ensures from <= low <= high && (from < high ==> from < low)
    ensures Filled(z0, Zip(input[..], indices[..]), left, right, low, k)
    ensures Parted(Zip(input[..], indices[..]), left, low, high, right, k.0)
  {
    hide Filled;
    low := SkipUp(input, from, high, k.0);
    ghost var z := Zip(input[..], indices[..]);
    assert forall i | from <= i < low :: z[i].0 == input[i];
    assert Parted(z, left, low, high, right, k.0);
    FillStep(z0, z, left, right, high, low, k);
    PartedUpdate(z, left, low, high, right, k.0, high, z[low]);
    hide Parted, Zip;
    CopyPair(input, indices, high, low);
  }

  /** The hole-filling partition: the loop of `quick_sort_indice_inverse` up to its recursive calls. */
  method Partition(input: array<real>, left: nat, right: nat, indices: array<int>) returns (low: nat)
    requires input.Length == indices.Length && left < right < input.Length
    modifies input, indices
    ensures left <= low <= right
    ensures Rearranged(old(Zip(input[..], indices[..])), Zip(input[..], indices[..]), left, right)
    ensures Parted(Zip(input[..], indices[..]), left, low, low, right, input[low])
  {
    ghost var z0 := Zip(input[..], indices[..]);
    var keyIndex, key := indices[left], input[left];
    low := left;
    var high := right;
    assert z0[low := (key, keyIndex)] == z0;
    while low < high
      invariant left <= low <= high <= right
      invariant Filled(z0, Zip(input[..], indices[..]), left, right, low, (key, keyIndex))
      invariant Parted(Zip(input[..], indices[..]), left, low, high, right, key)
      decreases high - low
    {
      high := FillFromRight(input, indices, left, low, high, right, (key, keyIndex), z0);
      low := FillFromLeft(input, indices, left, low, high, right, (key, keyIndex), z0);
    }
    ghost var z := Zip(input[..], indices[..]);
    input[low] := key;
    indices[low] := keyIndex;
    assert Zip(input[..], indices[..]) == z[low := (key, keyIndex)];
  }

  /** Steps the right cursor over scores not above the key. */
  method SkipDown(input: array<real>, low: nat, from: nat, key: real) returns (high: nat)
    requires low <= from < input.Length
    ensures low <= high <= from
    ensures forall i | high < i <= from :: input[i] <= key
    ensures low < high ==> input[high] > key
  {
    high := from;
    while low < high && input[high] <= key
      invariant low <= high <= from
      invariant forall i | high < i <= from :: input[i] <= key
    {
      high := high - 1;
    }
  }

  /** Steps the left cursor over scores not below the key. */
  method SkipUp(input: array<real>, from: nat, high: nat, key: real) returns (low: nat)
    requires from <= high < input.Length
    ensures from <= low <= high
    ensures forall i | from <= i < low :: input[i] >= key
    ensures low < high ==> input[low] < key
    ensures from < high && input[from] >= key ==> low > from
  {
    low := from;
    while low < high && input[low] >= key
      invariant from <= low <= high
      invariant forall i | from <= i < low :: input[i] >= key
      invariant low == from || from < low
    {
      low := low + 1;
    }
  }

  lemma Assembled(z: seq<Scored>, left: nat, low: nat, right: nat)
    requires left <= low <= right < |z|
    requires Sorted(z, left, low - 1) && Sorted(z, low + 1, right)
    requires AtLeast(z, left, low, z[low].0) && AtMost(z, low + 1, right + 1, z[low].0)
    ensures Sorted(z, left, right)
  {
    forall i, j | left <= i < j <= right
      ensures z[i].0 >= z[j].0
    {
      if i < low && j > low {
        assert z[i].0 >= z[low].0 >= z[j].0;
      }
    }
  }

  /** `quick_sort_indice_inverse`. */
  method QuickSort(input: array<real>, left: int, right: int, indices: array<int>) returns (low: int)
    requires input.Length == indices.Length && 0 <= left && right < input.Length
    modifies input, indices
    ensures Sorted(Zip(input[..], indices[..]), left, right)
    ensures Rearranged(old(Zip(input[..], indices[..])), Zip(input[..], indices[..]), left, right)
    decreases right - left
  {
    low := left;
    if left < right {
      ghost var z0 := Zip(input[..], indices[..]);
      low := Partition(input, left, right, indices);
      ghost var z1 := Zip(input[..], indices[..]);
      assert z1[low].0 == input[low];
      var _ := QuickSort(input, left, low - 1, indices);
      ghost var z2 := Zip(input[..], indices[..]);
      var _ := QuickSort(input, low + 1, right, indices);
      ghost var z3 := Zip(input[..], indices[..]);
      SortedBothSides(z0, z1, z2, z3, left, low, right);
    }
  }

  lemma SortedBothSides(z0: seq<Scored>, z1: seq<Scored>, z2: seq<Scored>, z3: seq<Scored>, left: nat, low: nat, right: nat)
    requires left <= low <= right < |z0| && Rearranged(z0, z1, left, right)
    requires AtLeast(z1, left, low, z1[low].0) && AtMost(z1, low + 1, right + 1, z1[low].0)
    requires Rearranged(z1, z2, left, low - 1) && Sorted(z2, left, low - 1)
    requires Rearranged(z2, z3, low + 1, right) && Sorted(z3, low + 1, right)
    ensures Sorted(z3, left, right) && Rearranged(z0, z3, left, right)
  {
    BoundsKept(z1, z2, left, low - 1, z1[low].0);
    BoundsKept(z2, z3, low + 1, right, z1[low].0);
    RearrangedTrans(z1, z2, z3, left, low - 1, low + 1, right, left, right);
    RearrangedTrans(z0, z1, z3, left, right, left, right, left, right);
    Assembled(z3, left, low, right);
  }
}
