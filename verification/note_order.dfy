/** Decoded notes and the order the segment decoder returns them in: ascending
    by the composite key onset*128 + offset. */
module NoteOrder {

  /** A decoded note: onset and offset are time-grid indices. */
  datatype NoteEvent = NoteEvent(onset: int, offset: int, pitch: int, velocity: int)

  function Key(n: NoteEvent): int {
    n.onset * 128 + n.offset
  }

  predicate SortedByKey(s: seq<NoteEvent>) {
    forall i, j :: 0 <= i < j < |s| ==> Key(s[i]) <= Key(s[j])
  }

  /** Key order with no two equal keys, so that no tie order is involved. */
  predicate StrictlySortedByKey(s: seq<NoteEvent>) {
    forall i, j :: 0 <= i < j < |s| ==> Key(s[i]) < Key(s[j])
  }

  /** Places `n` before the first element whose key is not smaller. */
  function Insert(n: NoteEvent, s: seq<NoteEvent>): (r: seq<NoteEvent>)
    requires SortedByKey(s)
    ensures SortedByKey(r)
    ensures multiset(r) == multiset(s) + multiset{n}
  {
    if |s| == 0 then [n]
    else if Key(n) <= Key(s[0]) then [n] + s
    else
      var tail := Insert(n, s[1..]);
      assert s == [s[0]] + s[1..];
      InsertedAboveHead(n, s, tail);
      [s[0]] + tail
  }

  /** Every element of a permutation of s[1..] plus n, with n above s[0], has
      a key no smaller than s[0]'s. */
  lemma InsertedAboveHead(n: NoteEvent, s: seq<NoteEvent>, t: seq<NoteEvent>)
    requires SortedByKey(s) && |s| > 0 && Key(s[0]) < Key(n)
    requires multiset(t) == multiset(s[1..]) + multiset{n}
    ensures forall j :: 0 <= j < |t| ==> Key(s[0]) <= Key(t[j])
  {
    forall j | 0 <= j < |t| ensures Key(s[0]) <= Key(t[j]) {
      assert t[j] in multiset(t);
      if t[j] != n {
        assert t[j] in multiset(s[1..]);
        var i :| 0 <= i < |s[1..]| && s[1..][i] == t[j];
        assert s[i + 1] == t[j];
      }
    }
  }

  /** The `argsort` of `relative_tokens_to_notes`, as a sort on keys. Its
      order among equal keys is unspecified; this one keeps them in input
      order, and no contract relies on that. */
  function SortByKey(s: seq<NoteEvent>): (r: seq<NoteEvent>)
    ensures SortedByKey(r)
    ensures multiset(r) == multiset(s)
  {
    if |s| == 0 then []
    else
      assert s == [s[0]] + s[1..];
      Insert(s[0], SortByKey(s[1..]))
  }

  /** Sorting a sequence whose keys already strictly increase leaves it
      unchanged. With equal keys present any order among them is a valid
      key sort, so nothing is claimed then. */
  lemma {:induction false} SortSortedIsIdentity(s: seq<NoteEvent>)
    requires StrictlySortedByKey(s)
    ensures SortByKey(s) == s
  {
    if |s| > 0 {
      SortSortedIsIdentity(s[1..]);
      assert s == [s[0]] + s[1..];
      assert Insert(s[0], s[1..]) == s;
    }
  }

  /** The first elements of two key-sorted permutations share their key. */
  lemma HeadKeysAgree(a: seq<NoteEvent>, b: seq<NoteEvent>)
    requires SortedByKey(a) && SortedByKey(b)
    requires multiset(a) == multiset(b)
    requires |a| > 0
    ensures |b| == |a| && Key(a[0]) == Key(b[0])
  {
    assert |a| == |multiset(a)| == |multiset(b)| == |b|;
    assert a[0] in multiset(b);
    assert b[0] in multiset(a);
  }

  /** Exchanges the first element with the one at index i. */
  function SwapFront(a: seq<NoteEvent>, i: nat): (r: seq<NoteEvent>)
    requires 0 < i < |a|
    ensures |r| == |a| && r[0] == a[i]
    ensures forall k :: 0 < k < |a| && k != i ==> r[k] == a[k]
    ensures r[i] == a[0]
    ensures multiset(r) == multiset(a)
  {
    assert a == [a[0]] + a[1..i] + [a[i]] + a[i + 1..];
    [a[i]] + a[1..i] + [a[0]] + a[i + 1..]
  }

  /** Exchanging two elements with equal keys keeps a sorted sequence's key
      sequence unchanged. */
  lemma SwapEqualKeys(a: seq<NoteEvent>, i: nat)
    requires SortedByKey(a) && 0 < i < |a| && Key(a[0]) == Key(a[i])
    ensures forall k :: 0 <= k < |a| ==> Key(SwapFront(a, i)[k]) == Key(a[k])
    ensures SortedByKey(SwapFront(a, i))
  {
  }

  /** Dropping the common first element keeps the rest permutations. */
  lemma TailsPermute(a: seq<NoteEvent>, b: seq<NoteEvent>)
    requires |a| > 0 && |b| > 0 && a[0] == b[0]
    requires multiset(a) == multiset(b)
    ensures multiset(a[1..]) == multiset(b[1..])
  {
    assert a == [a[0]] + a[1..];
    assert b == [b[0]] + b[1..];
    assert multiset(a) == multiset{a[0]} + multiset(a[1..]);
    assert multiset(b) == multiset{b[0]} + multiset(b[1..]);
    assert multiset(a[1..]) == multiset(a) - multiset{a[0]};
    assert multiset(b[1..]) == multiset(b) - multiset{b[0]};
  }

  /** Two key-sorted permutations of the same notes agree on their key
      sequence: the only freedom a sort has is the order among equal keys. */
  lemma {:induction false} SortedPermutationsShareKeys(a: seq<NoteEvent>, b: seq<NoteEvent>)
    requires SortedByKey(a) && SortedByKey(b)
    requires multiset(a) == multiset(b)
    ensures |a| == |b|
    ensures forall i :: 0 <= i < |a| ==> Key(a[i]) == Key(b[i])
    decreases |a|
  {
    if |a| == 0 {
      assert |multiset(b)| == 0;
    } else {
      HeadKeysAgree(a, b);
      if a[0] == b[0] {
        SameHeadShareKeys(a, b);
      } else {
        // move b's first element to the front of a
        assert b[0] in multiset(a);
        var i :| 0 <= i < |a| && a[i] == b[0];
        SwapEqualKeys(a, i);
        SameHeadShareKeys(SwapFront(a, i), b);
      }
    }
  }

  /** The inductive step: equal heads, then the tails by induction. */
  lemma {:induction false} SameHeadShareKeys(a: seq<NoteEvent>, b: seq<NoteEvent>)
    requires SortedByKey(a) && SortedByKey(b)
    requires multiset(a) == multiset(b)
    requires |a| > 0 && |b| > 0 && a[0] == b[0]
    ensures |a| == |b|
    ensures forall i :: 0 <= i < |a| ==> Key(a[i]) == Key(b[i])
    decreases |a|, 0
  {
    TailsPermute(a, b);
    SortedPermutationsShareKeys(a[1..], b[1..]);
    forall k | 0 < k < |a| ensures Key(a[k]) == Key(b[k]) {
      assert a[1..][k - 1] == a[k] && b[1..][k - 1] == b[k];
    }
  }
}
