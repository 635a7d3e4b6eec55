/**
 * StarsWarsDetailsController: the episode and friend actions of the web API.
 * Both tables share one shape, so each action is written once over a
 * DetailTable and instantiated for episodes and for friends.
 */
module StarsWarsDetailsController {
  import opened Wrappers
  import opened Entities
  import opened Exceptions
  import opened DbContext
  import opened Responses
  import UnitOfWork
  import Properties

  /** Add and Update catch ArgumentNull, EntityNotFound and StarsWars exceptions. */
  const EditCatches := Catches(argumentNull := true, notFound := true, starsWars := true)
  /** Remove catches only EntityNotFoundException. */
  const RemoveCatches := Catches(argumentNull := false, notFound := true, starsWars := false)

  /** The 400 for a null request: the ArgumentNullException's message. */
  function NullRequestResponse<T>(): Response<T>
  {
    Response(BAD_REQUEST, Message(ArgumentNullMessage(NullRequest)))
  }

  /**
   * POST {characterId}/episode or /friend: a null request is 400 and the
   * manager is not called; a missing character is 404; a child of the same
   * name under that character is 422; a null name fails validation (500);
   * otherwise 200 with no body and exactly one new child row owned by the
   * character.
   */
  function AddAction(s: Store, t: DetailTable, characterId: int, request: Option<DetailData>): (r: Exchange<()>)
    ensures r.response.status in {OK, BAD_REQUEST, NOT_FOUND, UNPROCESSABLE_ENTITY, INTERNAL_SERVER_ERROR}
    ensures request.None? ==> r == Exchange(NullRequestResponse(), s)
    ensures r.response.status == BAD_REQUEST <==> request.None?
    ensures r.response.status != OK ==> r.store == s
    ensures r.response.status == OK <==>
      request.Some? && characterId in s.characters && !UnitOfWork.DetailNamed(s.Details(t), characterId, request.value.name)
      && request.value.name.Some?
    ensures r.response.status == NOT_FOUND <==> request.Some? && characterId !in s.characters
    ensures r.response.status == NOT_FOUND ==> r.response.body == Message("Character not found")
    ensures r.response.status == UNPROCESSABLE_ENTITY <==>
      request.Some? && characterId in s.characters && UnitOfWork.DetailNamed(s.Details(t), characterId, request.value.name)
    ensures r.response.status == UNPROCESSABLE_ENTITY ==> r.response.body == Message(t.Label() + " already exists")
    ensures r.response.status == INTERNAL_SERVER_ERROR <==>
      request.Some? && characterId in s.characters && !UnitOfWork.DetailNamed(s.Details(t), characterId, request.value.name)
      && request.value.name.None?
    ensures r.response.status == OK ==>
      && request.Some? && r.response.body == Empty
      && (WellFormed(s) ==>
            exists id :: (id !in s.Details(t) &&
              r.store.Details(t) == s.Details(t)[id := DetailRow(request.value.name, characterId)]))
      && r.store.characters == s.characters
      && r.store.Details(t.Other()) == s.Details(t.Other())
    ensures r.response.status == OK ==>
      && r.store == UnitOfWork.AddDetail(s, t, characterId, request).store
      && r.store.Seed(t) == s.Seed(t) + 1
      && r.store.characterSeed == s.characterSeed && r.store.Seed(t.Other()) == s.Seed(t.Other())
  {
    if request.None? then Exchange(NullRequestResponse(), s)
    else
      var step := UnitOfWork.AddDetail(s, t, characterId, request);
      if step.outcome.Ok? then
        var id := step.outcome.value;
        assert WellFormed(s) ==>
          (id !in s.Details(t) && step.store.Details(t) == s.Details(t)[id := DetailRow(request.value.name, characterId)]);
        Exchange(Response(OK, Empty), step.store)
      else Exchange(Failed(step.outcome, EditCatches), step.store)
  }

  /**
   * PUT {characterId}/episode or /friend: a null request is 400; an unknown
   * child id is 404; a name already used under the child's owner, the child
   * itself included, is 422; a null name fails validation (500); otherwise
   * 200 echoing the request, with only that row's name changed.
   */
  function UpdateAction(s: Store, t: DetailTable, request: Option<DetailData>): (r: Exchange<DetailData>)
    ensures r.response.status in {OK, BAD_REQUEST, NOT_FOUND, UNPROCESSABLE_ENTITY, INTERNAL_SERVER_ERROR}
    ensures request.None? ==> r == Exchange(NullRequestResponse(), s)
    ensures r.response.status == BAD_REQUEST <==> request.None?
    ensures r.response.status != OK ==> r.store == s
    ensures r.response.status == OK <==>
      request.Some? && request.value.id in s.Details(t) &&
      !UnitOfWork.DetailNamed(s.Details(t), s.Details(t)[request.value.id].characterId, request.value.name) &&
      request.value.name.Some?
    ensures r.response.status == NOT_FOUND <==> request.Some? && request.value.id !in s.Details(t)
    ensures r.response.status == NOT_FOUND ==>
      r.response.body == Message(t.Label() + " " + NameText(request.value.name) + " not found")
    ensures r.response.status == UNPROCESSABLE_ENTITY <==>
      request.Some? && request.value.id in s.Details(t) &&
      UnitOfWork.DetailNamed(s.Details(t), s.Details(t)[request.value.id].characterId, request.value.name)
    ensures r.response.status == UNPROCESSABLE_ENTITY ==>
      r.response.body == Message(t.Label() + " " + NameText(request.value.name) + " already exists")
    ensures r.response.status == INTERNAL_SERVER_ERROR <==>
      request.Some? && request.value.id in s.Details(t) &&
      !UnitOfWork.DetailNamed(s.Details(t), s.Details(t)[request.value.id].characterId, request.value.name) &&
      request.value.name.None?
    ensures r.response.status == OK ==>
      && request.Some? && request.value.id in s.Details(t)
      && r.response.body == Data(request.value)
      && (var id := request.value.id;
          r.store.Details(t) == s.Details(t)[id := DetailRow(request.value.name, s.Details(t)[id].characterId)])
      && r.store.characters == s.characters
      && r.store.Details(t.Other()) == s.Details(t.Other())
    ensures r.response.status == OK ==>
      && r.store == UnitOfWork.UpdateDetail(s, t, request).store
      && r.store.characterSeed == s.characterSeed
      && r.store.Seed(t) == s.Seed(t) && r.store.Seed(t.Other()) == s.Seed(t.Other())
  {
    if request.None? then Exchange(NullRequestResponse(), s)
    else
      var step := UnitOfWork.UpdateDetail(s, t, request);
      if step.outcome.Ok? then Exchange(Response(OK, Data(request.value)), step.store)
      else Exchange(Failed(step.outcome, EditCatches), step.store)
  }

  /**
   * DELETE {characterId}/episode/{id} or /friend/{id}: 200 with no body when
   * the child exists and belongs to that character, and 404 otherwise.
   */
  function RemoveAction(s: Store, t: DetailTable, characterId: int, detailId: int): (r: Exchange<()>)
    ensures r.response.status in {OK, NOT_FOUND}
    ensures r.response.status == OK <==>
      detailId in s.Details(t) && s.Details(t)[detailId].characterId == characterId
    ensures r.response.status == NOT_FOUND ==>
      r.store == s && r.response.body == Message(t.Label() + " not found")
    ensures r.response.status == OK ==>
      && r.response.body == Empty
      && r.store.Details(t) == s.Details(t) - {detailId}
      && r.store.characters == s.characters
      && r.store.Details(t.Other()) == s.Details(t.Other())
    ensures r.response.status == OK ==>
      && r.store == UnitOfWork.RemoveDetail(s, t, characterId, detailId).store
      && r.store.characterSeed == s.characterSeed
      && r.store.Seed(t) == s.Seed(t) && r.store.Seed(t.Other()) == s.Seed(t.Other())
  {
    var step := UnitOfWork.RemoveDetail(s, t, characterId, detailId);
    if step.outcome.Ok? then Exchange(Response(OK, Empty), step.store)
    else Exchange(Failed(step.outcome, RemoveCatches), step.store)
  }

  /** The conflict message of each table, spelled out. */
  lemma AlreadyExistsMessages()
    ensures Episodes.Label() + " already exists" == "Episode already exists"
    ensures Friends.Label() + " already exists" == "Friend already exists"
  {
  }

  /** AddEpisode: the friends table is untouched; a duplicate title is 422 "Episode already exists". */
  function AddEpisode(s: Store, characterId: int, request: Option<DetailData>): (r: Exchange<()>)
    ensures r.store.friends == s.friends
    ensures r.response.status == UNPROCESSABLE_ENTITY ==> r.response.body == Message("Episode already exists")
  {
    AlreadyExistsMessages();
    AddAction(s, Episodes, characterId, request)
  }

  /** UpdateEpisode: the friends table is untouched; an unknown id is 404 "Episode <name> not found". */
  function UpdateEpisode(s: Store, request: Option<DetailData>): (r: Exchange<DetailData>)
    ensures r.store.friends == s.friends
    ensures r.response.status == NOT_FOUND ==>
      request.Some? && r.response.body == Message("Episode " + NameText(request.value.name) + " not found")
  {
    UpdateAction(s, Episodes, request)
  }

  /** RemoveEpisode: the friends table is untouched; a miss is 404 "Episode not found". */
  function RemoveEpisode(s: Store, characterId: int, episodeId: int): (r: Exchange<()>)
    ensures r.store.friends == s.friends
    ensures r.response.status != OK ==> r.response == Response(NOT_FOUND, Message("Episode not found"))
  {
    RemoveAction(s, Episodes, characterId, episodeId)
  }

  /** AddFriend: the episodes table is untouched; a duplicate name is 422 "Friend already exists". */
  function AddFriend(s: Store, characterId: int, request: Option<DetailData>): (r: Exchange<()>)
    ensures r.store.episodes == s.episodes
    ensures r.response.status == UNPROCESSABLE_ENTITY ==> r.response.body == Message("Friend already exists")
  {
    AlreadyExistsMessages();
    AddAction(s, Friends, characterId, request)
  }

  /** UpdateFriend: the episodes table is untouched; an unknown id is 404 "Friend <name> not found". */
  function UpdateFriend(s: Store, request: Option<DetailData>): (r: Exchange<DetailData>)
    ensures r.store.episodes == s.episodes
    ensures r.response.status == NOT_FOUND ==>
      request.Some? && r.response.body == Message("Friend " + NameText(request.value.name) + " not found")
  {
    UpdateAction(s, Friends, request)
  }

  /** RemoveFriend: the episodes table is untouched; a miss is 404 "Friend not found". */
  function RemoveFriend(s: Store, characterId: int, friendId: int): (r: Exchange<()>)
    ensures r.store.episodes == s.episodes
    ensures r.response.status != OK ==> r.response == Response(NOT_FOUND, Message("Friend not found"))
  {
    RemoveAction(s, Friends, characterId, friendId)
  }

  /**
   * Posting the same episode twice to one character: once the first post is
   * 200, the second is 422 "Episode already exists" and changes nothing.
   */
  lemma {:induction false} AddEpisodeTwiceIs422(s: Store, characterId: int, request: Option<DetailData>)
    ensures var first := AddEpisode(s, characterId, request);
      first.response.status == OK ==>
        AddEpisode(first.store, characterId, request) ==
          Exchange(Response(UNPROCESSABLE_ENTITY, Message("Episode already exists")), first.store)
  {
    Properties.AddDetailTwiceConflicts(s, Episodes, characterId, request);
  }
}
