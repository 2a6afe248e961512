/**
 The material-type filter of the collection-point discovery screen.

 A selection is the list of chosen material-type ids in the order they were
 chosen. The screen keeps it as an array and changes it only through the
 toggle handler: an id already present is filtered out, an absent id is
 appended at the end.
 */
module Selection {

  /** No id occurs twice in `s`. */
  predicate NoDuplicates(s: seq<int>) {
    forall i, j :: 0 <= i < j < |s| ==> s[i] != s[j]
  }

  /** Index of the first entry of `s` equal to `id`, or -1 when there is none,
      as the array method `findIndex` with the test `type === id` returns it. */
  function FindIndex(s: seq<int>, id: int): (r: int)
    ensures -1 <= r < |s|
    ensures r == -1 <==> id !in s
    ensures 0 <= r ==> s[r] == id && id !in s[..r]
  {
    if |s| == 0 then -1
    else if s[0] == id then 0
    else
      var k := FindIndex(s[1..], id);
      if k < 0 then -1
      else
        assert s[..k + 1] == [s[0]] + s[1..][..k];
        k + 1
  }

  /** The entries of `s` other than `id`, as the array method `filter` with the
      test `type !== id` builds them: the entries are visited in index order
      and each one that passes is pushed at the end of the result. */
  function Without(s: seq<int>, id: int): (r: seq<int>)
    ensures |r| <= |s|
    ensures id !in r
    ensures forall x :: x != id ==> (x in r <==> x in s)
  {
    if |s| == 0 then []
    else
      var last := s[|s| - 1];
      assert s == s[..|s| - 1] + [last];
      Without(s[..|s| - 1], id) + (if last == id then [] else [last])
  }

  /** Indices of the entries of `s` that differ from `id`, increasing: the
      entries `filter` keeps, named by their position in `s`. */
  function KeptIndices(s: seq<int>, id: int): seq<int>
  {
    if |s| == 0 then []
    else
      KeptIndices(s[..|s| - 1], id) + (if s[|s| - 1] == id then [] else [|s| - 1])
  }

  /** The toggle handler: remove `id` when `findIndex` finds it, otherwise
      append it as the last element. */
  function Toggle(s: seq<int>, id: int): (r: seq<int>)
    ensures id in r <==> id !in s
    ensures forall x :: x != id ==> (x in r <==> x in s)
    ensures id !in s ==> |r| == |s| + 1 && r[..|s|] == s && r[|s|] == id
    ensures id in s ==> r == Without(s, id)
  {
    if FindIndex(s, id) >= 0 then Without(s, id) else s + [id]
  }

  /** Toggles `ids` one after another, first to last. */
  function ToggleAll(s: seq<int>, ids: seq<int>): seq<int>
    decreases |ids|
  {
    if |ids| == 0 then s else ToggleAll(Toggle(s, ids[0]), ids[1..])
  }

  /** How often `x` occurs in `ids`. */
  function Count(ids: seq<int>, x: int): nat
  {
    multiset(ids)[x]
  }

  /** Filtering keeps exactly the entries that differ from `id`, in their
      original relative order: the `k`-th kept entry is the entry of `s` at the
      `k`-th kept index, the kept indices increase, and an index is kept iff
      its entry differs from `id`. */
  lemma {:induction false} WithoutKeepsOrder(s: seq<int>, id: int)
    ensures |KeptIndices(s, id)| == |Without(s, id)|
    ensures forall k :: 0 <= k < |KeptIndices(s, id)| ==>
              0 <= KeptIndices(s, id)[k] < |s| && Without(s, id)[k] == s[KeptIndices(s, id)[k]]
    ensures forall k, l :: 0 <= k < l < |KeptIndices(s, id)| ==>
              KeptIndices(s, id)[k] < KeptIndices(s, id)[l]
    ensures forall i :: 0 <= i < |s| ==> (s[i] != id <==> i in KeptIndices(s, id))
  {
    if |s| > 0 {
      var p := s[..|s| - 1];
      WithoutKeepsOrder(p, id);
      forall i | 0 <= i < |p|
        ensures s[i] == p[i]
      {
      }
    }
  }

  /** Filtering removes every occurrence of `id` and keeps every other id as
      often as it occurred. */
  lemma {:induction false} WithoutKeepsCounts(s: seq<int>, id: int)
    ensures Count(Without(s, id), id) == 0
    ensures forall x :: x != id ==> Count(Without(s, id), x) == Count(s, x)
  {
    if |s| > 0 {
      var p := s[..|s| - 1];
      var last := s[|s| - 1];
      var tail := if last == id then [] else [last];
      WithoutKeepsCounts(p, id);
      assert s == p + [last];
      assert multiset(s) == multiset(p) + multiset{last};
      assert Without(s, id) == Without(p, id) + tail;
      assert multiset(Without(s, id)) == multiset(Without(p, id)) + multiset(tail);
      forall x | x != id
        ensures Count(Without(s, id), x) == Count(s, x)
      {
        assert Count(Without(p, id), x) == Count(p, x);
      }
    }
  }

  /** Filtering a list that does not contain `id` leaves it as it is. */
  lemma {:induction false} WithoutAbsent(s: seq<int>, id: int)
    requires id !in s
    ensures Without(s, id) == s
  {
    if |s| > 0 {
      var p := s[..|s| - 1];
      WithoutAbsent(p, id);
      assert s == p + [s[|s| - 1]];
    }
  }

  /** Filtering keeps a list free of duplicates. */
  lemma {:induction false} WithoutKeepsNoDuplicates(s: seq<int>, id: int)
    requires NoDuplicates(s)
    ensures NoDuplicates(Without(s, id))
  {
    if |s| > 0 {
      var p := s[..|s| - 1];
      var last := s[|s| - 1];
      assert NoDuplicates(p) by {
        forall i, j | 0 <= i < j < |p|
          ensures p[i] != p[j]
        {
          assert p[i] == s[i] && p[j] == s[j];
        }
      }
      WithoutKeepsNoDuplicates(p, id);
      assert last !in p by {
        forall i | 0 <= i < |p|
          ensures p[i] != last
        {
          assert p[i] == s[i];
        }
      }
    }
  }

  /** A toggle keeps a duplicate-free selection duplicate-free: an id is
      appended only when `findIndex` did not find it. */
  lemma ToggleKeepsNoDuplicates(s: seq<int>, id: int)
    requires NoDuplicates(s)
    ensures NoDuplicates(Toggle(s, id))
  {
    if id in s {
      WithoutKeepsNoDuplicates(s, id);
    }
  }

  /** Any sequence of toggles keeps a duplicate-free selection duplicate-free. */
  lemma {:induction false} ToggleAllKeepsNoDuplicates(s: seq<int>, ids: seq<int>)
    requires NoDuplicates(s)
    ensures NoDuplicates(ToggleAll(s, ids))
    decreases |ids|
  {
    if |ids| > 0 {
      ToggleKeepsNoDuplicates(s, ids[0]);
      ToggleAllKeepsNoDuplicates(Toggle(s, ids[0]), ids[1..]);
    }
  }

  /** Starting from the empty selection the screen starts with, any sequence
      of toggles yields a list without duplicates. */
  lemma FromEmptyNoDuplicates(ids: seq<int>)
    ensures NoDuplicates(ToggleAll([], ids))
  {
    ToggleAllKeepsNoDuplicates([], ids);
  }

  /** A sequence of toggles acts on membership as symmetric difference: `x`
      ends up selected iff it was selected before and was toggled an even
      number of times, or was not selected and was toggled an odd number of
      times. */
  lemma {:induction false} ToggleAllMembership(s: seq<int>, ids: seq<int>, x: int)
    ensures x in ToggleAll(s, ids) <==> (x in s) != (Count(ids, x) % 2 == 1)
    decreases |ids|
  {
    if |ids| == 0 {
      assert multiset(ids) == multiset{};
    } else {
      var t := Toggle(s, ids[0]);
      ToggleAllMembership(t, ids[1..], x);
      ToggleMembership(s, ids[0], x);
      CountCons(ids, x);
      ParityStep(Count(ids[1..], x));
    }
  }

  /** Membership of `x` after toggling `id`: flipped when `x` is `id`,
      unchanged otherwise. */
  lemma ToggleMembership(s: seq<int>, id: int, x: int)
    ensures x in Toggle(s, id) <==> (x in s) != (x == id)
  {
  }

  /** One more occurrence flips the parity of a count. */
  lemma ParityStep(n: nat)
    ensures (n + 1) % 2 == 1 <==> n % 2 != 1
  {
    var q := n / 2;
    assert n == 2 * q + n % 2;
    if n % 2 == 0 {
      assert n + 1 == 2 * q + 1;
    } else {
      assert n + 1 == 2 * (q + 1);
    }
  }

  /** Counting over a non-empty list: the head, then the rest. */
  lemma CountCons(ids: seq<int>, x: int)
    requires |ids| > 0
    ensures Count(ids, x) == Count(ids[1..], x) + (if ids[0] == x then 1 else 0)
  {
    assert ids == [ids[0]] + ids[1..];
    assert multiset(ids) == multiset{ids[0]} + multiset(ids[1..]);
  }

  /** Toggling the same id twice restores the selection as a set. */
  lemma ToggleTwiceRestoresSet(s: seq<int>, id: int)
    ensures (set x | x in Toggle(Toggle(s, id), id)) == (set x | x in s)
  {
    var t := Toggle(Toggle(s, id), id);
    assert forall x :: x in t <==> x in s;
  }

  /** Toggling the same id twice restores the selection as a list exactly
      when the id was absent, or was present as the last element: a removed
      id comes back at the end, not where it was. */
  lemma ToggleTwiceRestoresList(s: seq<int>, id: int)
    requires NoDuplicates(s)
    ensures Toggle(Toggle(s, id), id) == s <==> id !in s || s[|s| - 1] == id
  {
    if id !in s {
      var t := Toggle(s, id);
      assert id in t;
      WithoutAbsent(s, id);
      assert Without(s + [id], id) == Without(s, id) + [];
    } else {
      var w := Without(s, id);
      assert Toggle(Toggle(s, id), id) == w + [id];
      var p := s[..|s| - 1];
      var last := s[|s| - 1];
      assert s == p + [last];
      if last == id {
        assert id !in p by {
          forall i | 0 <= i < |p|
            ensures p[i] != id
          {
            assert p[i] == s[i];
          }
        }
        WithoutAbsent(p, id);
        assert w == p;
      } else {
        assert (w + [id])[|w|] != s[|s| - 1] || |w| + 1 != |s|;
      }
    }
  }

  /** Removing an id that is not the last element and toggling it back moves
      it to the end: the list is not restored. */
  lemma ToggleTwiceMovesToEnd()
    ensures Toggle(Toggle([2, 1], 2), 2) == [1, 2]
  {
    assert FindIndex([2, 1], 2) == 0;
    assert Without([2], 2) == [];
    assert Without([2, 1], 2) == [1];
    assert 2 !in [1];
  }
}
