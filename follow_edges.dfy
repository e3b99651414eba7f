/**
 * Follow edges and the list operations the follow button performs on an
 * author's `Following` list: the `Any` membership test, `RemoveAll` of the
 * edges to one target, and the toggle that chooses between appending an edge
 * and removing them all.
 */
module FollowEdges {

  /** A directed edge: the author `followsId` follows the author `followedById`. */
  datatype Follows = Follows(followsId: string, followedById: string)

  /** Accepts exactly the edges pointing at `target`. */
  function To(target: string): Follows -> bool
  {
    (e: Follows) => e.followedById == target
  }

  /** Accepts exactly the edges pointing anywhere but at `target`. */
  function NotTo(target: string): Follows -> bool
  {
    (e: Follows) => e.followedById != target
  }

  /** The edges of `s` that `keep` accepts, in their original order. */
  function Filter(s: seq<Follows>, keep: Follows -> bool): (r: seq<Follows>)
    ensures |r| <= |s|
    ensures forall e :: e in r <==> e in s && keep(e)
  {
    if s == [] then []
    else
      var init, last := s[..|s| - 1], s[|s| - 1];
      assert s == init + [last];
      if keep(last) then Filter(init, keep) + [last] else Filter(init, keep)
  }

  /** `Following.Any(f => f.FollowedById == target)`. */
  predicate HasEdgeTo(s: seq<Follows>, target: string)
  {
    exists e :: e in s && e.followedById == target
  }

  /** The edges of `s` pointing at `target`, in order. */
  function EdgesTo(s: seq<Follows>, target: string): seq<Follows>
  {
    Filter(s, To(target))
  }

  /** How many edges of `s` point at `target`. */
  function CountTo(s: seq<Follows>, target: string): nat
  {
    |EdgesTo(s, target)|
  }

  /** `Following.RemoveAll(f => f.FollowedById == target)`: what the list holds afterwards. */
  function RemoveEdgesTo(s: seq<Follows>, target: string): seq<Follows>
  {
    Filter(s, NotTo(target))
  }

  /**
   * The follow button on a list `s` owned by `selfId`: append one edge to
   * `targetId` when there is none, otherwise remove every edge to `targetId`.
   */
  function Toggle(s: seq<Follows>, selfId: string, targetId: string): seq<Follows>
  {
    if !HasEdgeTo(s, targetId) then s + [Follows(selfId, targetId)]
    else RemoveEdgesTo(s, targetId)
  }

  /** Every edge of `s` starts at `selfId`. */
  predicate AllFrom(s: seq<Follows>, selfId: string)
  {
    forall e :: e in s ==> e.followsId == selfId
  }

  /** No target is followed twice: the unique-edge-per-pair constraint. */
  ghost predicate AtMostOneEach(s: seq<Follows>)
  {
    forall u :: CountTo(s, u) <= 1
  }

  // ---------------------------------------------------------------------------
  // Filter

  lemma FilterAppend(s: seq<Follows>, e: Follows, keep: Follows -> bool)
    ensures Filter(s + [e], keep) == if keep(e) then Filter(s, keep) + [e] else Filter(s, keep)
  {
    assert (s + [e])[..|s|] == s;
  }

  lemma {:induction false} FilterKeepsAll(s: seq<Follows>, keep: Follows -> bool)
    requires forall e :: e in s ==> keep(e)
    ensures Filter(s, keep) == s
  {
    if s != [] {
      var init := s[..|s| - 1];
      assert s == init + [s[|s| - 1]];
      FilterKeepsAll(init, keep);
    }
  }

  /** Filtering by a weaker predicate first does not change a later filter by a stronger one. */
  lemma {:induction false} FilterOfFilter(s: seq<Follows>, p: Follows -> bool, q: Follows -> bool)
    requires forall e :: q(e) ==> p(e)
    ensures Filter(Filter(s, p), q) == Filter(s, q)
  {
    if s != [] {
      var init, last := s[..|s| - 1], s[|s| - 1];
      FilterOfFilter(init, p, q);
      if p(last) {
        FilterAppend(Filter(init, p), last, q);
      }
    }
  }

  // ---------------------------------------------------------------------------
  // Any and counting

  /** `Any` holds exactly when at least one edge to the target is counted. */
  lemma HasEdgeToIffCounted(s: seq<Follows>, target: string)
    ensures HasEdgeTo(s, target) <==> CountTo(s, target) > 0
  {
    var r := EdgesTo(s, target);
    if HasEdgeTo(s, target) {
      var e :| e in s && e.followedById == target;
      assert e in r;
    }
    if |r| > 0 {
      assert r[0] in r;
    }
  }

  lemma CountAppend(s: seq<Follows>, e: Follows, target: string)
    ensures CountTo(s + [e], target) == CountTo(s, target) + (if e.followedById == target then 1 else 0)
  {
    FilterAppend(s, e, To(target));
  }

  // ---------------------------------------------------------------------------
  // RemoveAll

  /** After `RemoveAll` no edge to the target is left, duplicates included. */
  lemma RemoveEdgesToLeavesNone(s: seq<Follows>, target: string)
    ensures !HasEdgeTo(RemoveEdgesTo(s, target), target)
    ensures CountTo(RemoveEdgesTo(s, target), target) == 0
  {
    HasEdgeToIffCounted(RemoveEdgesTo(s, target), target);
  }

  /**
   * Edges to other targets survive `RemoveAll` unchanged and in the same
   * relative order: any selection of them reads the same before and after.
   */
  lemma RemoveEdgesToKeepsOthers(s: seq<Follows>, target: string, keep: Follows -> bool)
    requires forall e :: keep(e) ==> e.followedById != target
    ensures Filter(RemoveEdgesTo(s, target), keep) == Filter(s, keep)
  {
    FilterOfFilter(s, NotTo(target), keep);
  }

  /** `RemoveAll` loses nothing but the edges to the target. */
  lemma {:induction false} RemoveEdgesToPartition(s: seq<Follows>, target: string)
    ensures multiset(RemoveEdgesTo(s, target)) + multiset(EdgesTo(s, target)) == multiset(s)
    ensures |RemoveEdgesTo(s, target)| == |s| - CountTo(s, target)
  {
    if s != [] {
      var init, last := s[..|s| - 1], s[|s| - 1];
      assert s == init + [last];
      RemoveEdgesToPartition(init, target);
      FilterAppend(init, last, NotTo(target));
      FilterAppend(init, last, To(target));
    }
  }

  /** `RemoveAll` of a target that is not followed leaves the list as it was. */
  lemma RemoveEdgesToAbsent(s: seq<Follows>, target: string)
    requires !HasEdgeTo(s, target)
    ensures RemoveEdgesTo(s, target) == s
  {
    FilterKeepsAll(s, NotTo(target));
  }

  // ---------------------------------------------------------------------------
  // The toggle

  /** When the target is not followed, the toggle appends exactly one edge from the owner to it. */
  lemma ToggleFollows(s: seq<Follows>, selfId: string, targetId: string)
    requires !HasEdgeTo(s, targetId)
    ensures |Toggle(s, selfId, targetId)| == |s| + 1
    ensures Toggle(s, selfId, targetId)[..|s|] == s
    ensures Toggle(s, selfId, targetId)[|s|] == Follows(selfId, targetId)
    ensures CountTo(Toggle(s, selfId, targetId), targetId) == 1
  {
    HasEdgeToIffCounted(s, targetId);
    CountAppend(s, Follows(selfId, targetId), targetId);
  }

  /** When the target is followed, the toggle removes every edge to it and nothing else. */
  lemma ToggleUnfollows(s: seq<Follows>, selfId: string, targetId: string)
    requires HasEdgeTo(s, targetId)
    ensures CountTo(Toggle(s, selfId, targetId), targetId) == 0
    ensures multiset(Toggle(s, selfId, targetId)) + multiset(EdgesTo(s, targetId)) == multiset(s)
  {
    RemoveEdgesToLeavesNone(s, targetId);
    RemoveEdgesToPartition(s, targetId);
  }

  /** The toggle flips whether the target is followed. */
  lemma ToggleFlips(s: seq<Follows>, selfId: string, targetId: string)
    ensures HasEdgeTo(Toggle(s, selfId, targetId), targetId) <==> !HasEdgeTo(s, targetId)
  {
    if HasEdgeTo(s, targetId) {
      RemoveEdgesToLeavesNone(s, targetId);
    } else {
      assert Follows(selfId, targetId) in Toggle(s, selfId, targetId);
    }
  }

  /**
   * Edges to any other target keep their values and their relative order,
   * whichever branch the toggle takes.
   */
  lemma ToggleKeepsOthers(s: seq<Follows>, selfId: string, targetId: string, keep: Follows -> bool)
    requires forall e :: keep(e) ==> e.followedById != targetId
    ensures Filter(Toggle(s, selfId, targetId), keep) == Filter(s, keep)
  {
    if HasEdgeTo(s, targetId) {
      RemoveEdgesToKeepsOthers(s, targetId, keep);
    } else {
      FilterAppend(s, Follows(selfId, targetId), keep);
    }
  }

  /** In particular, the edges to each other author are the same before and after. */
  lemma ToggleKeepsEdgesToOthers(s: seq<Follows>, selfId: string, targetId: string, other: string)
    requires other != targetId
    ensures EdgesTo(Toggle(s, selfId, targetId), other) == EdgesTo(s, other)
    ensures HasEdgeTo(Toggle(s, selfId, targetId), other) <==> HasEdgeTo(s, other)
  {
    ToggleKeepsOthers(s, selfId, targetId, To(other));
    HasEdgeToIffCounted(s, other);
    HasEdgeToIffCounted(Toggle(s, selfId, targetId), other);
  }

  /** A list whose edges all start at its owner keeps that property under the toggle. */
  lemma TogglePreservesAllFrom(s: seq<Follows>, selfId: string, targetId: string)
    requires AllFrom(s, selfId)
    ensures AllFrom(Toggle(s, selfId, targetId), selfId)
  {
  }

  /** A list that follows each author at most once keeps that property under the toggle. */
  lemma TogglePreservesAtMostOneEach(s: seq<Follows>, selfId: string, targetId: string)
    requires AtMostOneEach(s)
    ensures AtMostOneEach(Toggle(s, selfId, targetId))
  {
    var t := Toggle(s, selfId, targetId);
    forall u
      ensures CountTo(t, u) <= 1
    {
      if u == targetId {
        if HasEdgeTo(s, targetId) {
          ToggleUnfollows(s, selfId, targetId);
        } else {
          ToggleFollows(s, selfId, targetId);
        }
      } else {
        ToggleKeepsEdgesToOthers(s, selfId, targetId, u);
        assert CountTo(s, u) <= 1;
      }
    }
  }

  /** Follow then unfollow restores the list exactly. */
  lemma ToggleTwiceFromNotFollowing(s: seq<Follows>, selfId: string, targetId: string)
    requires !HasEdgeTo(s, targetId)
    ensures Toggle(Toggle(s, selfId, targetId), selfId, targetId) == s
  {
    var e := Follows(selfId, targetId);
    assert e in s + [e];
    FilterAppend(s, e, NotTo(targetId));
    RemoveEdgesToAbsent(s, targetId);
  }

  /**
   * Unfollow then follow ends following the target through exactly one
   * edge, at the end, with the other edges as they were.
   */
  lemma ToggleTwiceFromFollowing(s: seq<Follows>, selfId: string, targetId: string)
    requires HasEdgeTo(s, targetId)
    ensures Toggle(Toggle(s, selfId, targetId), selfId, targetId)
         == RemoveEdgesTo(s, targetId) + [Follows(selfId, targetId)]
    ensures HasEdgeTo(Toggle(Toggle(s, selfId, targetId), selfId, targetId), targetId)
    ensures CountTo(Toggle(Toggle(s, selfId, targetId), selfId, targetId), targetId) == 1
  {
    var r := RemoveEdgesTo(s, targetId);
    RemoveEdgesToLeavesNone(s, targetId);
    ToggleFollows(r, selfId, targetId);
    ToggleFlips(r, selfId, targetId);
  }
}
