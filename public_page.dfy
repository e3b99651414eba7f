/**
 * The public timeline page: the guards of its post, recheep and delete
 * handlers, the follow button that toggles a follow edge in place, and the
 * `IsFollowing` query the page uses to label that button.
 *
 * The cheep and author services are not part of this model. Lookups by name
 * read a map from names to author entities; every other service call is
 * returned as a `ServiceCall` value saying what the page asked for.
 */
module PublicPage {
  import opened Wrappers
  import opened FollowEdges
  import opened Authors

  /** The `StringLength(160)` bound on the bound `Text` property. */
  const MaxCheepLength := 160

  /** The request's user identity (`User.Identity`, which may be null). */
  datatype Identity = Identity(isAuthenticated: bool, name: Option<string>)

  /** What a handler answers: the page itself, a redirect to "/", or a redirect back to this page. */
  datatype Response = Page | RedirectHome | RedirectToPage

  /** The cheep the page hands to `CreateCheep` (its timestamp is not modelled). */
  datatype NewCheep = NewCheep(authorName: string, text: string)

  /** A request the page makes of the cheep service. */
  datatype ServiceCall =
    | GetCheeps(page: int, currentUserId: Option<string>)
    | CreateCheep(cheep: NewCheep)
    | CreateRecheep(authorId: string, cheepId: int)
    | DeleteCheep(cheepId: int, authorName: string)

  /** The outcome of a handler: its response and the service calls it made, in order. */
  datatype Handled = Handled(response: Response, calls: seq<ServiceCall>)

  /** A call that changes stored cheeps or recheeps. */
  predicate Mutates(calls: seq<ServiceCall>)
  {
    exists c :: c in calls && !c.GetCheeps?
  }

  /** `User.Identity?.IsAuthenticated == true`. */
  predicate IsAuthenticated(user: Option<Identity>)
  {
    user.Some? && user.value.isAuthenticated
  }

  /** `User.Identity?.Name`. */
  function UserName(user: Option<Identity>): Option<string>
  {
    if user.Some? then user.value.name else None
  }

  /** `string.IsNullOrEmpty`. */
  predicate IsNullOrEmpty(s: Option<string>)
  {
    s.None? || s.value == ""
  }

  /**
   * C#'s `string.Length`: the number of UTF-16 code units, so a character
   * outside the Basic Multilingual Plane counts twice.
   */
  function Utf16Length(s: string): (n: nat)
    ensures |s| <= n <= 2 * |s|
    ensures (forall i :: 0 <= i < |s| ==> s[i] as int < 0x10000) ==> n == |s|
    ensures (forall i :: 0 <= i < |s| ==> s[i] as int >= 0x10000) ==> n == 2 * |s|
  {
    if s == [] then 0
    else (if s[0] as int < 0x10000 then 1 else 2) + Utf16Length(s[1..])
  }

  /** The model-state check: the only validation attribute is the length bound on `Text`. */
  predicate TextIsValid(text: string)
  {
    Utf16Length(text) <= MaxCheepLength
  }

  /** An author looked up by name; a missing name finds nobody. */
  function Lookup(store: map<string, Author>, name: Option<string>): (r: Option<Author>)
    ensures r.Some? <==> name.Some? && name.value in store
    ensures r.Some? ==> r.value == store[name.value] && r.value in store.Values
  {
    if name.Some? && name.value in store then Some(store[name.value]) else None
  }

  /** `GetCurrentUserIdAsync`: the logged-in author's id, if there is one. */
  function CurrentUserId(user: Option<Identity>, store: map<string, Author>): (r: Option<string>)
    ensures r.Some? <==> IsAuthenticated(user) && !IsNullOrEmpty(UserName(user)) && UserName(user).value in store
    ensures r.Some? ==> r.value == store[UserName(user).value].id
  {
    if !IsAuthenticated(user) then None
    else
      var username := UserName(user);
      if IsNullOrEmpty(username) then None
      else
        var author := Lookup(store, username);
        if author.Some? then Some(author.value.id) else None
  }

  /** `OnGetAsync`: render the first page of the timeline, seen by the logged-in author if any. */
  function OnGet(user: Option<Identity>, store: map<string, Author>): (r: Handled)
    ensures r.response == Page && !Mutates(r.calls)
    ensures r.calls == [GetCheeps(1, CurrentUserId(user, store))]
  {
    Handled(Page, [GetCheeps(1, CurrentUserId(user, store))])
  }

  /**
   * `OnPostAsync`: a cheep is created only for valid text, an authenticated
   * user and a non-empty name; over-length text redisplays the page whatever
   * the login state, because validation is checked first.
   */
  function OnPost(user: Option<Identity>, store: map<string, Author>, text: string): (r: Handled)
    ensures Mutates(r.calls) <==> TextIsValid(text) && IsAuthenticated(user) && !IsNullOrEmpty(UserName(user))
    ensures Mutates(r.calls) ==> r.calls == [CreateCheep(NewCheep(UserName(user).value, text))]
    ensures !TextIsValid(text) ==> r.response == Page && r.calls == [GetCheeps(1, CurrentUserId(user, store))]
    ensures TextIsValid(text) ==> r.response == RedirectHome
  {
    var currentUserId := CurrentUserId(user, store);
    if !TextIsValid(text) then
      Handled(Page, [GetCheeps(1, currentUserId)])
    else if !IsAuthenticated(user) then
      Handled(RedirectHome, [])
    else
      var authorName := UserName(user);
      if IsNullOrEmpty(authorName) then Handled(RedirectHome, [])
      else
        var calls := [CreateCheep(NewCheep(authorName.value, text))];
        assert calls[0] in calls;
        Handled(RedirectHome, calls)
  }

  /**
   * `OnPostRecheepAsync`: a recheep is created only for an authenticated user
   * whose name finds an author, and it carries that author's id.
   */
  function OnPostRecheep(user: Option<Identity>, store: map<string, Author>, cheepId: int): (r: Handled)
    ensures Mutates(r.calls) <==> IsAuthenticated(user) && UserName(user).Some? && UserName(user).value in store
    ensures Mutates(r.calls) ==>
              r.response == RedirectToPage && r.calls == [CreateRecheep(store[UserName(user).value].id, cheepId)]
    ensures !Mutates(r.calls) ==> r.response == RedirectHome && r.calls == []
  {
    if !IsAuthenticated(user) then Handled(RedirectHome, [])
    else
      var author := Lookup(store, UserName(user));
      if author.None? then Handled(RedirectHome, [])
      else
        var calls := [CreateRecheep(author.value.id, cheepId)];
        assert calls[0] in calls;
        Handled(RedirectToPage, calls)
  }

  /**
   * `OnPostDeleteAsync`: the delete request is forwarded only for an
   * authenticated user with a non-empty name, and carries that name.
   * Whether the cheep is the user's own is decided by the service.
   */
  function OnPostDelete(user: Option<Identity>, cheepId: int): (r: Handled)
    ensures r.response == RedirectHome
    ensures Mutates(r.calls) <==> IsAuthenticated(user) && !IsNullOrEmpty(UserName(user))
    ensures Mutates(r.calls) ==> r.calls == [DeleteCheep(cheepId, UserName(user).value)]
    ensures !Mutates(r.calls) ==> r.calls == []
  {
    if !IsAuthenticated(user) then Handled(RedirectHome, [])
    else
      var authorName := UserName(user);
      if IsNullOrEmpty(authorName) then Handled(RedirectHome, [])
      else
        var calls := [DeleteCheep(cheepId, authorName.value)];
        assert calls[0] in calls;
        Handled(RedirectHome, calls)
  }

  /**
   * The length bound counts UTF-16 code units: 81 characters outside the
   * Basic Multilingual Plane already exceed it, so the page is redisplayed
   * and no cheep is created.
   */
  lemma AstralTextOverHalfBoundRedisplays(user: Option<Identity>, store: map<string, Author>, text: string)
    requires |text| > MaxCheepLength / 2
    requires forall i :: 0 <= i < |text| ==> text[i] as int >= 0x10000
    ensures !TextIsValid(text)
    ensures OnPost(user, store, text).response == Page && !Mutates(OnPost(user, store, text).calls)
  {
  }

  /** No POST handler asks for a change on behalf of an unauthenticated user. */
  lemma UnauthenticatedPostsMutateNothing(user: Option<Identity>, store: map<string, Author>, text: string, cheepId: int)
    requires !IsAuthenticated(user)
    ensures !Mutates(OnPost(user, store, text).calls)
    ensures !Mutates(OnPostRecheep(user, store, cheepId).calls)
    ensures !Mutates(OnPostDelete(user, cheepId).calls)
    ensures OnPostRecheep(user, store, cheepId).response == RedirectHome
    ensures OnPostDelete(user, cheepId).response == RedirectHome
  {
  }

  /**
   * The guards of the follow button: the logged-in author and the target,
   * when the name is non-empty, both names are known and they are two
   * different authors. Authentication itself is not checked here.
   */
  function FollowParties(user: Option<Identity>, store: map<string, Author>, authorName: Option<string>): (r: Option<(Author, Author)>)
    ensures IsNullOrEmpty(UserName(user)) ==> r.None?
    ensures UserName(user).Some? && UserName(user).value !in store ==> r.None?
    ensures authorName.None? || authorName.value !in store ==> r.None?
    ensures UserName(user) == authorName ==> r.None?
    ensures r.Some? <==> !IsNullOrEmpty(UserName(user)) && UserName(user).value in store
                         && authorName.Some? && authorName.value in store
                         && store[UserName(user).value].id != store[authorName.value].id
    ensures r.Some? ==> r.value.0 == store[UserName(user).value] && r.value.1 == store[authorName.value]
  {
    var username := UserName(user);
    if IsNullOrEmpty(username) then None
    else
      var currentUser := Lookup(store, username);
      var followTarget := Lookup(store, authorName);
      if currentUser.None? || followTarget.None? || currentUser.value.id == followTarget.value.id then None
      else Some((currentUser.value, followTarget.value))
  }

  /** The page, with the request's identity and the author store it reads through the author service. */
  class PublicModel {
    const user: Option<Identity>
    const store: map<string, Author>

    constructor (user: Option<Identity>, store: map<string, Author>)
      ensures this.user == user && this.store == store
    {
      this.user := user;
      this.store := store;
    }

    /**
     * `IsFollowing`: false without a name or when either author is unknown
     * (a missing `authorName` parameter finds nobody);
     * otherwise whether the logged-in author has an edge to the target.
     */
    function IsFollowing(authorName: Option<string>): (r: bool)
      reads store.Values
      ensures IsNullOrEmpty(UserName(user)) ==> !r
      ensures UserName(user).Some? && UserName(user).value !in store ==> !r
      ensures authorName.None? || authorName.value !in store ==> !r
      ensures !IsNullOrEmpty(UserName(user)) && UserName(user).value in store && authorName.Some? && authorName.value in store ==>
                (r <==> exists e :: e in store[UserName(user).value].following && e.followedById == store[authorName.value].id)
    {
      var username := UserName(user);
      if IsNullOrEmpty(username) then false
      else
        var currentUser := Lookup(store, username);
        var followTarget := Lookup(store, authorName);
        if currentUser.None? || followTarget.None? then false
        else HasEdgeTo(currentUser.value.following, followTarget.value.id)
    }

    /**
     * `OnGetFollowBtnAsync`: when a guard fails, redirect home and change
     * nothing; otherwise toggle the logged-in author's edge to the target,
     * change no other author's list, and redirect back to the page.
     */
    method OnGetFollowBtn(authorName: Option<string>) returns (resp: Response)
      modifies store.Values
      ensures FollowParties(user, store, authorName).None? ==>
                resp == RedirectHome && forall a :: a in store.Values ==> a.following == old(a.following)
      ensures FollowParties(user, store, authorName).Some? ==>
                var current, target := FollowParties(user, store, authorName).value.0, FollowParties(user, store, authorName).value.1;
                && resp == RedirectToPage
                && current.following == Toggle(old(current.following), current.id, target.id)
                && (forall a :: a in store.Values && a != current ==> a.following == old(a.following))
      ensures FollowParties(user, store, authorName).Some? ==> IsFollowing(authorName) == !old(IsFollowing(authorName))
    {
      var username := UserName(user);
      if IsNullOrEmpty(username) {
        return RedirectHome;
      }
      var currentUser := Lookup(store, username);
      var followTarget := Lookup(store, authorName);
      if currentUser.None? || followTarget.None? || currentUser.value.id == followTarget.value.id {
        return RedirectHome;
      }
      var current, target := currentUser.value, followTarget.value;
      var alreadyFollow := HasEdgeTo(current.following, target.id);
      if !alreadyFollow {
        current.following := current.following + [Follows(current.id, target.id)];
      } else {
        var removed := current.RemoveAllFollowing(target.id);
      }
      // SaveChangesAsync commits the tracked change; nothing further happens in the model.
      ToggleFlips(old(current.following), current.id, target.id);
      return RedirectToPage;
    }
  }
}
