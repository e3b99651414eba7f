/**
 * The author entity as the author service hands it to the page: an id and
 * the list of follow edges it owns, which the page changes in place.
 */
module Authors {
  import opened FollowEdges

  class Author {
    const id: string
    var following: seq<Follows>

    constructor (id: string)
      ensures this.id == id && following == []
    {
      this.id := id;
      following := [];
    }

    /**
     * `List<Follows>.RemoveAll(f => f.FollowedById == targetId)`: drops every
     * edge to the target, keeps the rest in order, and returns how many it dropped.
     */
    method RemoveAllFollowing(targetId: string) returns (removed: nat)
      modifies this
      ensures following == RemoveEdgesTo(old(following), targetId)
      ensures removed == CountTo(old(following), targetId)
    {
      var s := following;
      var kept: seq<Follows> := [];
      removed := 0;
      var i := 0;
      while i < |s|
        invariant 0 <= i <= |s|
        invariant kept == RemoveEdgesTo(s[..i], targetId)
        invariant removed == CountTo(s[..i], targetId)
      {
        var f := s[i];
        assert s[..i + 1] == s[..i] + [f];
        FilterAppend(s[..i], f, NotTo(targetId));
        FilterAppend(s[..i], f, To(targetId));
        if f.followedById == targetId {
          removed := removed + 1;
        } else {
          kept := kept + [f];
        }
        i := i + 1;
      }
      assert s[..i] == s;
      following := kept;
    }
  }
}
