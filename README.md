# Chirp: the follow button and the guards of the public page

Chirp is a micro-blogging web application: authors post short "cheeps",
reshare them as "recheeps" and follow one another. This project models the
page model of its public timeline (`PublicModel`):

- the follow button (`OnGetFollowBtnAsync`), which changes the logged-in
  author's `Following` list of directed `Follows` edges in place: it appends
  one edge to the target when there is none and otherwise removes every edge
  to the target;
- the `IsFollowing` query that labels that button;
- the guards of the handlers that post a cheep, recheep a cheep and delete a
  cheep (text length, authentication, a non-empty user name, a known author),
  and what each handler then asks of the cheep service.

Layout:

- `wrappers.dfy` (`Wrappers`): `Option`, for the source's nullable values.
- `follow_edges.dfy` (`FollowEdges`): the `Follows` edge, the list functions
  behind `Any` and `RemoveAll`, the toggle `Toggle` as a function on the
  list, and the lemmas about them.
- `authors.dfy` (`Authors`): the author entity as a class whose `following`
  field is updated in place; `RemoveAllFollowing` is `List.RemoveAll` written
  as a loop and proved against `RemoveEdgesTo`.
- `public_page.dfy` (`PublicPage`): the request identity, responses, service
  requests, the handler guards as functions, and the class `PublicModel`
  holding `IsFollowing` and the follow-button method, which is proved to
  apply `Toggle` to the logged-in author's list and to touch nothing else.

The author service is modelled as a map from names to author entities. The
cheep service is modelled by the requests the page makes of it
(`ServiceCall`): its own code is not part of this model.

Three consequences of the code as written:

- Toggling twice from a following state does not give back the original
  list: all edges to the target are removed, then one is appended at the
  end. Only the following relation (followed or not) comes back. Lists with
  duplicate edges are collapsed to one edge.
- Uniqueness of a follow edge per pair is not enforced by the page. The model
  instead proves that the toggle preserves it (`TogglePreservesAtMostOneEach`).
- The follow button checks only that the identity has a non-empty name, not
  that it is authenticated; the model keeps that.

## Model

| member | source | states |
|---|---|---|
| `FollowEdges.Filter` | src/Chirp.Web/Pages/Public.cshtml.cs:132 | the filtered list is no longer than the input and holds exactly the input's edges that the predicate accepts |
| `FollowEdges.HasEdgeToIffCounted` | src/Chirp.Web/Pages/Public.cshtml.cs:118 | `Any` over the list holds exactly when at least one edge to the target is present |
| `FollowEdges.RemoveEdgesToLeavesNone` | src/Chirp.Web/Pages/Public.cshtml.cs:132 | after `RemoveAll` no edge to the target is left, duplicates included |
| `FollowEdges.RemoveEdgesToKeepsOthers` | src/Chirp.Web/Pages/Public.cshtml.cs:132 | every selection of edges to other targets reads the same, in the same order, before and after `RemoveAll` |
| `FollowEdges.RemoveEdgesToPartition` | src/Chirp.Web/Pages/Public.cshtml.cs:132 | the kept edges plus the removed edges to the target are, as a multiset, the original list; the length drops by the number of edges to the target |
| `FollowEdges.RemoveEdgesToAbsent` | src/Chirp.Web/Pages/Public.cshtml.cs:132 | `RemoveAll` of a target that is not followed leaves the list unchanged |
| `FollowEdges.ToggleFollows` | src/Chirp.Web/Pages/Public.cshtml.cs:118-127 | when the target is not followed, the toggle keeps the old list as a prefix and appends exactly one edge, from the owner to the target; afterwards exactly one edge points at the target |
| `FollowEdges.ToggleUnfollows` | src/Chirp.Web/Pages/Public.cshtml.cs:118-133 | when the target is followed, the toggle leaves no edge to it and loses nothing but the edges to it |
| `FollowEdges.ToggleFlips` | src/Chirp.Web/Pages/Public.cshtml.cs:118-133 | the target is followed after the toggle exactly when it was not before |
| `FollowEdges.ToggleKeepsOthers` | src/Chirp.Web/Pages/Public.cshtml.cs:118-133 | in either branch every selection of edges to other targets keeps its values and relative order |
| `FollowEdges.ToggleKeepsEdgesToOthers` | src/Chirp.Web/Pages/Public.cshtml.cs:118-133 | the edges to each other author, and whether that author is followed, are the same before and after the toggle |
| `FollowEdges.TogglePreservesAllFrom` | src/Chirp.Web/Pages/Public.cshtml.cs:122-126 | if every edge starts at the owner, that still holds after the toggle |
| `FollowEdges.TogglePreservesAtMostOneEach` | src/Chirp.Web/Pages/Public.cshtml.cs:118-133 | if no author is followed through two edges, that still holds after the toggle |
| `FollowEdges.ToggleTwiceFromNotFollowing` | src/Chirp.Web/Pages/Public.cshtml.cs:118-133 | follow then unfollow gives back exactly the original list |
| `FollowEdges.ToggleTwiceFromFollowing` | src/Chirp.Web/Pages/Public.cshtml.cs:118-133 | unfollow then follow ends following the target through exactly one edge, at the end, after the other edges in their old order |
| `Authors.Author.constructor` | src/Chirp.Infrastructure/AuthorDTO.cs:7-17 | a new author has the given id and follows nobody |
| `Authors.Author.RemoveAllFollowing` | src/Chirp.Web/Pages/Public.cshtml.cs:132 | the list afterwards is the old list without its edges to the target, and the returned count is the number of such edges |
| `PublicPage.CurrentUserId` | src/Chirp.Web/Pages/Public.cshtml.cs:27-38 | there is a current id exactly when the user is authenticated, has a non-empty name and that name is a known author; it is that author's id |
| `PublicPage.OnPost` | src/Chirp.Web/Pages/Public.cshtml.cs:65-91 | a cheep is created exactly when the text is at most 160 UTF-16 code units long (a character outside the Basic Multilingual Plane counts twice), the user is authenticated and the name is non-empty; it carries that name and the text; over-length text redisplays the page whatever the login state |
| `PublicPage.OnPostRecheep` | src/Chirp.Web/Pages/Public.cshtml.cs:49-63 | a recheep is created exactly when the user is authenticated and the name is a known author; it carries that author's id and the cheep id and redirects back to the page; otherwise nothing is asked and the answer is a redirect home |
| `PublicPage.OnPostDelete` | src/Chirp.Web/Pages/Public.cshtml.cs:93-104 | a delete request is forwarded exactly when the user is authenticated with a non-empty name, carrying that name and the cheep id; the answer is always a redirect home |
| `PublicPage.AstralTextOverHalfBoundRedisplays` | src/Chirp.Web/Pages/Public.cshtml.cs:17-19 | a text of more than 80 characters all outside the Basic Multilingual Plane fails the length bound, so the page is redisplayed and no cheep is created |
| `PublicPage.UnauthenticatedPostsMutateNothing` | src/Chirp.Web/Pages/Public.cshtml.cs:49-104 | no POST handler asks for a change on behalf of an unauthenticated user |
| `PublicPage.FollowParties` | src/Chirp.Web/Pages/Public.cshtml.cs:106-116 | the follow button proceeds exactly when the name is non-empty, both names are known authors and their ids differ; an empty name, an unknown user, a missing or unknown target or following oneself stops it |
| `PublicPage.PublicModel.constructor` | src/Chirp.Web/Pages/Public.cshtml.cs:21-25 | the page holds the given identity and author store |
| `PublicPage.PublicModel.IsFollowing` | src/Chirp.Web/Pages/Public.cshtml.cs:139-149 | false without a name or when either author is unknown; otherwise true exactly when some edge of the user's list points at the target's id |
| `PublicPage.PublicModel.OnGetFollowBtn` | src/Chirp.Web/Pages/Public.cshtml.cs:106-137 | when a guard fails it redirects home and no author's list changes; otherwise the user's list becomes its toggle, no other author's list changes, `IsFollowing` flips, and it redirects back to the page |

## Left out

- `LoginStatus`: it reads the HTTP session, which is not modelled.
- Timestamps: `DateTime.UtcNow` on a new cheep is a clock read; `NewCheep` carries only the author name and the text.
- Asynchrony: `async`/`Task` and the blocking `.Result` calls in `IsFollowing` are modelled as synchronous lookups.
- The cheep and author services: `GetCheeps`, `CreateCheep`, `CreateRecheep` and `DeleteCheep` are recorded as requests, not executed. The check that only a cheep's own author may delete it lives in `DeleteCheep` and is not part of this model.
- `SaveChangesAsync` is a commit of the tracked change with no further effect in the model.
- Author lookups with a null name are assumed to find nobody: `GetAuthorByName` for a recheep from an identity without a name, and `GetAuthorEntityByName` for a follow-button or `IsFollowing` request whose `authorName` parameter is missing (modelled as `None`).
- Model validation is reduced to the `StringLength(160)` bound on `Text`, counted in UTF-16 code units as C#'s `string.Length` does; any other validation the framework adds (such as an implicit required check on `Text`) is not modelled.
- The page's `Cheeps` property: the timeline the service returns is not modelled, only the request for it.
- `src/Chirp.Web/Program.cs`: service registration, identity, cookie, session and middleware configuration, with no behaviour of its own.
- Author fields other than the id and the follow list (`Name`, `Email`, `Cheeps`, `Recheeps`) are not used by the modelled handlers.
