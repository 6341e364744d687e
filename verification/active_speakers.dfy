/**
 * Reordering of the remote tiles by active-speaker membership. The source
 * sorts the list with a comparator that only tells speakers from
 * non-speakers; the list sort is stable, so the outcome is a stable
 * partition. The model performs a stable insertion sort with the same
 * comparator (every stable sort gives the same list for one comparator)
 * and proves that the result is the stable partition.
 */
module ActiveSpeakers {
  import opened Tiles

  predicate IsActive(t: Tile, active: set<string>)
  {
    t.state.attendeeId in active
  }

  /** The comparator: -1 when only `lhs` speaks, 1 when only `rhs` speaks, else 0. */
  function Compare(lhs: Tile, rhs: Tile, active: set<string>): int
  {
    if IsActive(lhs, active) && !IsActive(rhs, active) then -1
    else if !IsActive(lhs, active) && IsActive(rhs, active) then 1
    else 0
  }

  /**
   * Stable insertion of `x` into the sorted list `ys`, all of whose elements
   * came after `x` in the input: `x` goes before the first element that is
   * not strictly smaller than it.
   */
  function Insert(x: Tile, ys: seq<Tile>, active: set<string>): seq<Tile>
  {
    if ys == [] || Compare(ys[0], x, active) >= 0 then [x] + ys
    else [ys[0]] + Insert(x, ys[1..], active)
  }

  /** Stable sort of `xs` by `Compare`. */
  function SortWith(xs: seq<Tile>, active: set<string>): seq<Tile>
  {
    if xs == [] then [] else Insert(xs[0], SortWith(xs[1..], active), active)
  }

  /**
   * The speakers (`speaking` true) or the non-speakers (`speaking` false)
   * of `xs`, in their order in `xs`.
   */
  function Group(xs: seq<Tile>, active: set<string>, speaking: bool): (r: seq<Tile>)
    ensures |r| <= |xs|
  {
    if xs == [] then []
    else if IsActive(xs[0], active) == speaking then [xs[0]] + Group(xs[1..], active, speaking)
    else Group(xs[1..], active, speaking)
  }

  /** The reference ordering: speakers first, then the others, each in input order. */
  function StablePartition(xs: seq<Tile>, active: set<string>): seq<Tile>
  {
    Group(xs, active, true) + Group(xs, active, false)
  }

  /** A group holds exactly the tiles of `xs` on its side of the comparator. */
  lemma {:induction false} GroupMembers(xs: seq<Tile>, active: set<string>, speaking: bool)
    ensures forall t :: t in Group(xs, active, speaking) <==> t in xs && IsActive(t, active) == speaking
  {
    if xs != [] {
      GroupMembers(xs[1..], active, speaking);
      assert xs == [xs[0]] + xs[1..];
    }
  }

  /** A non-speaker inserted into a partitioned list goes first among the non-speakers. */
  lemma {:induction false} InsertOther(x: Tile, a: seq<Tile>, n: seq<Tile>, active: set<string>)
    requires !IsActive(x, active)
    requires forall t :: t in a ==> IsActive(t, active)
    requires forall t :: t in n ==> !IsActive(t, active)
    ensures Insert(x, a + n, active) == a + [x] + n
  {
    if a == [] {
      assert a + n == n;
      if n != [] {
        assert Compare(n[0], x, active) >= 0;
      }
    } else {
      var a' := a[1..];
      assert (a + n)[0] == a[0];
      assert (a + n)[1..] == a' + n;
      assert Compare(a[0], x, active) == -1;
      assert forall t :: t in a' ==> t in a;
      InsertOther(x, a', n, active);
      calc {
        Insert(x, a + n, active);
        [a[0]] + Insert(x, a' + n, active);
        [a[0]] + (a' + [x] + n);
        { assert a == [a[0]] + a'; }
        a + [x] + n;
      }
    }
  }

  /** A speaker inserted into any list goes first. */
  lemma InsertActive(x: Tile, ys: seq<Tile>, active: set<string>)
    requires IsActive(x, active)
    ensures Insert(x, ys, active) == [x] + ys
  {
    if ys != [] {
      assert Compare(ys[0], x, active) >= 0;
    }
  }

  /** The stable sort by the two-valued comparator is the stable partition. */
  lemma {:induction false} SortIsStablePartition(xs: seq<Tile>, active: set<string>)
    ensures SortWith(xs, active) == StablePartition(xs, active)
  {
    if xs != [] {
      var x, rest := xs[0], xs[1..];
      SortIsStablePartition(rest, active);
      var a, n := Group(rest, active, true), Group(rest, active, false);
      GroupMembers(rest, active, true);
      GroupMembers(rest, active, false);
      if IsActive(x, active) {
        InsertActive(x, a + n, active);
        assert [x] + (a + n) == ([x] + a) + n;
      } else {
        InsertOther(x, a, n, active);
      }
    }
  }

  lemma {:induction false} PartitionIsPermutation(xs: seq<Tile>, active: set<string>)
    ensures multiset(StablePartition(xs, active)) == multiset(xs)
  {
    if xs != [] {
      PartitionIsPermutation(xs[1..], active);
      assert xs == [xs[0]] + xs[1..];
    }
  }

  /** Within one list with unique ids, a tile is determined by its id. */
  lemma SameIdSameTile(xs: seq<Tile>, s: Tile, t: Tile)
    requires UniqueIds(xs) && s in xs && t in xs && s.Id() == t.Id()
    ensures s == t
  {
    var i :| 0 <= i < |xs| && xs[i] == s;
    var j :| 0 <= j < |xs| && xs[j] == t;
    assert xs[i].Id() == xs[j].Id();
  }

  lemma {:induction false} GroupKeepsUniqueIds(xs: seq<Tile>, active: set<string>, speaking: bool)
    requires UniqueIds(xs)
    ensures UniqueIds(Group(xs, active, speaking))
  {
    if xs != [] {
      var rest := xs[1..];
      assert UniqueIds(rest) by {
        forall i, j | 0 <= i < j < |rest| ensures rest[i].Id() != rest[j].Id() {
          assert xs[i + 1].Id() != xs[j + 1].Id();
        }
      }
      GroupKeepsUniqueIds(rest, active, speaking);
      GroupMembers(rest, active, speaking);
      forall t | t in rest ensures t.Id() != xs[0].Id() {
        var k :| 0 <= k < |rest| && rest[k] == t;
        assert xs[0].Id() != xs[k + 1].Id();
      }
    }
  }

  lemma PartitionOrder(xs: seq<Tile>, active: set<string>)
    ensures var r := StablePartition(xs, active);
            forall i, j :: 0 <= i < j < |r| && IsActive(r[j], active) ==> IsActive(r[i], active)
  {
    var a, n := Group(xs, active, true), Group(xs, active, false);
    var r := a + n;
    GroupMembers(xs, active, true);
    GroupMembers(xs, active, false);
    forall k | 0 <= k < |r| ensures IsActive(r[k], active) <==> k < |a| {
      if k < |a| {
        assert r[k] == a[k];
      } else {
        assert r[k] == n[k - |a|];
      }
    }
  }

  lemma {:induction false} GroupAppend(a: seq<Tile>, b: seq<Tile>, active: set<string>, speaking: bool)
    ensures Group(a + b, active, speaking) == Group(a, active, speaking) + Group(b, active, speaking)
  {
    if a == [] {
      assert a + b == b;
    } else {
      assert (a + b)[0] == a[0];
      assert (a + b)[1..] == a[1..] + b;
      GroupAppend(a[1..], b, active, speaking);
      if IsActive(a[0], active) == speaking {
        assert [a[0]] + (Group(a[1..], active, speaking) + Group(b, active, speaking))
            == ([a[0]] + Group(a[1..], active, speaking)) + Group(b, active, speaking);
      }
    }
  }

  lemma {:induction false} GroupOfUniform(a: seq<Tile>, active: set<string>, speaking: bool)
    requires forall t :: t in a ==> IsActive(t, active) == speaking
    ensures Group(a, active, speaking) == a && Group(a, active, !speaking) == []
  {
    if a != [] {
      assert forall t :: t in a[1..] ==> t in a;
      GroupOfUniform(a[1..], active, speaking);
      assert a == [a[0]] + a[1..];
    }
  }

  /** Taking the groups of the partition gives back the two groups. */
  lemma PartitionGroups(xs: seq<Tile>, active: set<string>, speaking: bool)
    ensures Group(StablePartition(xs, active), active, speaking) == Group(xs, active, speaking)
  {
    var a, n := Group(xs, active, true), Group(xs, active, false);
    GroupAppend(a, n, active, speaking);
    GroupMembers(xs, active, true);
    GroupMembers(xs, active, false);
    GroupOfUniform(a, active, true);
    GroupOfUniform(n, active, false);
    if speaking {
      assert Group(a, active, speaking) + Group(n, active, speaking) == a + [];
    } else {
      assert Group(a, active, speaking) + Group(n, active, speaking) == [] + n;
    }
  }

  lemma PartitionKeepsUniqueIds(xs: seq<Tile>, active: set<string>)
    ensures UniqueIds(xs) ==> UniqueIds(StablePartition(xs, active))
  {
    if UniqueIds(xs) {
      var a, n := Group(xs, active, true), Group(xs, active, false);
      GroupKeepsUniqueIds(xs, active, true);
      GroupKeepsUniqueIds(xs, active, false);
      GroupMembers(xs, active, true);
      GroupMembers(xs, active, false);
      var r := a + n;
      forall i, j | 0 <= i < j < |r| ensures r[i].Id() != r[j].Id() {
        if j < |a| {
          assert r[i] == a[i] && r[j] == a[j];
        } else if i >= |a| {
          assert r[i] == n[i - |a|] && r[j] == n[j - |a|];
        } else {
          assert r[i] == a[i] && r[j] == n[j - |a|];
          assert r[i] in a && r[j] in n;
          if r[i].Id() == r[j].Id() {
            SameIdSameTile(xs, r[i], r[j]);
          }
        }
      }
    }
  }

  /**
   * Reorders the remote tiles so that speakers come first. The result is a
   * permutation of the input in which every speaker precedes every
   * non-speaker and each group keeps its relative order.
   */
  function ReorderByActiveSpeakers(remote: seq<Tile>, speakerIds: seq<string>): (r: seq<Tile>)
    ensures multiset(r) == multiset(remote)
    ensures var active := set a | a in speakerIds;
            && (forall i, j :: 0 <= i < j < |r| && IsActive(r[j], active) ==> IsActive(r[i], active))
            && Group(r, active, true) == Group(remote, active, true)
            && Group(r, active, false) == Group(remote, active, false)
    ensures UniqueIds(remote) ==> UniqueIds(r)
  {
    var active := set a | a in speakerIds;
    SortIsStablePartition(remote, active);
    PartitionIsPermutation(remote, active);
    PartitionOrder(remote, active);
    PartitionGroups(remote, active, true);
    PartitionGroups(remote, active, false);
    PartitionKeepsUniqueIds(remote, active);
    SortWith(remote, active)
  }
}
