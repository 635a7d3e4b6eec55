/**
 * Each StarsWarsManager operation as one unit of work on the database:
 * validate the input, run the existence or duplicate pre-query, and only
 * then write and commit. A call maps the database before it to an outcome
 * and the database after it.
 */
module UnitOfWork {
  import opened Wrappers
  import opened Entities
  import opened Exceptions
  import opened DbContext
  import opened Ordering

  /** The outcome of one manager call and the database it leaves behind. */
  datatype Step<+T> = Step(outcome: Outcome<T>, store: Store)

  /** No two characters share a name. */
  ghost predicate CharacterNamesDistinct(characters: map<int, CharacterRow>)
  {
    forall a, b :: a in characters && b in characters && a != b ==> characters[a].name != characters[b].name
  }

  /** No two children of the same character share a name. */
  ghost predicate DetailNamesDistinct(rows: map<int, DetailRow>)
  {
    forall a, b :: a in rows && b in rows && a != b && rows[a].characterId == rows[b].characterId ==>
      rows[a].name != rows[b].name
  }

  /**
   * The schema plus the uniqueness rules the manager's pre-queries keep: a
   * name identifies a character, and a name and an owner identify a child
   * (ChildIdentifiedByNameAndOwner).
   */
  ghost predicate Valid(s: Store)
    ensures Valid(s) ==> WellFormed(s)
    ensures Valid(s) ==> forall a, b :: a in s.characters && b in s.characters && Load(s, a).name == Load(s, b).name ==> a == b
  {
    && WellFormed(s)
    && CharacterNamesDistinct(s.characters)
    && DetailNamesDistinct(s.episodes)
    && DetailNamesDistinct(s.friends)
  }

  /** The duplicate pre-query on Characters: some stored character loads with this name. */
  predicate CharacterNamed(s: Store, name: Name)
    ensures CharacterNamed(s, name) <==> exists k :: k in s.characters && Load(s, k).name == name
  {
    exists k :: k in s.characters && s.characters[k].name == name
  }

  /** The duplicate pre-query on a child table: the name is among the children loaded for `characterId`. */
  predicate DetailNamed(rows: map<int, DetailRow>, characterId: int, name: Name)
    ensures DetailNamed(rows, characterId, name) <==>
      exists k :: k in Owned(rows, characterId) && Owned(rows, characterId)[k] == name
  {
    OwnedNames(rows, characterId, name);
    exists k :: k in rows && rows[k].characterId == characterId && rows[k].name == name
  }

  /** A child row of `characterId` is exactly an entry of the collection loaded for it. */
  lemma OwnedNames(rows: map<int, DetailRow>, characterId: int, name: Name)
    ensures (exists k :: k in rows && rows[k].characterId == characterId && rows[k].name == name) <==>
      (exists k :: k in Owned(rows, characterId) && Owned(rows, characterId)[k] == name)
  {
    var owned := Owned(rows, characterId);
    if k :| k in rows && rows[k].characterId == characterId && rows[k].name == name {
      assert k in owned && owned[k] == name;
    }
    if k :| k in owned && owned[k] == name {
      assert k in rows && rows[k].characterId == characterId && rows[k].name == name;
    }
  }

  /** In a valid database a child is identified by its table, its name and its owner. */
  lemma ChildIdentifiedByNameAndOwner(s: Store, t: DetailTable, a: int, b: int)
    requires Valid(s) && a in s.Details(t) && b in s.Details(t)
    requires s.Details(t)[a].name == s.Details(t)[b].name
    requires s.Details(t)[a].characterId == s.Details(t)[b].characterId
    ensures a == b
  {
  }

  /** Some episode or friend still refers to character `id`. */
  predicate OwnsDetails(s: Store, id: int)
  {
    (exists k :: k in s.episodes && s.episodes[k].characterId == id) ||
    (exists k :: k in s.friends && s.friends[k].characterId == id)
  }

  // ---------------------------------------------------------------- reads

  /**
   * GetCharacters: every character with its children loaded. The query has
   * no ordering; the model lists the characters by ascending id.
   */
  function GetCharacters(s: Store): (r: seq<Character>)
    ensures |r| == |s.characters|
    ensures forall i :: 0 <= i < |r| ==> r[i].id in s.characters && r[i] == Load(s, r[i].id)
    ensures forall k :: k in s.characters ==> Load(s, k) in r
    ensures forall i, j :: 0 <= i < j < |r| ==> r[i].id != r[j].id
  {
    var ids := SortedKeys(s.characters.Keys);
    var r := LoadAll(s, ids);
    LoadedInOrder(s, ids, r);
    r
  }

  /** The duplicate pre-query on Characters finds a row exactly when some listed character has the name. */
  lemma CharacterNamedInListing(s: Store, name: Name)
    ensures CharacterNamed(s, name) <==> exists c :: c in GetCharacters(s) && c.name == name
  {
    var listed := GetCharacters(s);
    if k :| k in s.characters && s.characters[k].name == name {
      assert Load(s, k) in listed && Load(s, k).name == name;
    }
    if i :| 0 <= i < |listed| && listed[i].name == name {
      assert listed[i] == Load(s, listed[i].id);
    }
  }

  /** The characters with the given keys, loaded, in the order of the keys. */
  function LoadAll(s: Store, ids: seq<int>): (r: seq<Character>)
    requires forall k :: k in ids ==> k in s.characters
    ensures |r| == |ids|
    ensures forall i :: 0 <= i < |ids| ==> r[i] == Load(s, ids[i])
  {
    if ids == [] then [] else [Load(s, ids[0])] + LoadAll(s, ids[1..])
  }

  lemma LoadedInOrder(s: Store, ids: seq<int>, r: seq<Character>)
    requires forall k :: k in s.characters <==> k in ids
    requires forall i, j :: 0 <= i < j < |ids| ==> ids[i] < ids[j]
    requires |r| == |ids| && forall i :: 0 <= i < |ids| ==> ids[i] in s.characters && r[i] == Load(s, ids[i])
    ensures forall i :: 0 <= i < |r| ==> r[i].id in s.characters && r[i] == Load(s, r[i].id)
    ensures forall k :: k in s.characters ==> Load(s, k) in r
    ensures forall i, j :: 0 <= i < j < |r| ==> r[i].id != r[j].id
  {
    forall k | k in s.characters ensures Load(s, k) in r {
      var i :| 0 <= i < |ids| && ids[i] == k;
      assert r[i] == Load(s, k);
    }
    forall i, j | 0 <= i < j < |r| ensures r[i].id != r[j].id {
      assert r[i].id == ids[i] && r[j].id == ids[j];
    }
  }

  /** GetCharacter: the character with its children, or NotFound for an id with no row. */
  function GetCharacter(s: Store, id: int): (r: Outcome<Character>)
    ensures r.Ok? <==> id in s.characters
    ensures r.Ok? ==> r.value == Load(s, id)
    ensures !r.Ok? ==> r == NotFound("Character not found")
  {
    if id in s.characters then Ok(Load(s, id)) else NotFound("Character not found")
  }

  // ----------------------------------------------------------- characters

  /**
   * CreateCharacter: a null item or a null or empty name is refused before the
   * database is read; a name held by any character is a conflict; otherwise one
   * row is inserted under the next identity key.
   */
  function CreateCharacter(s: Store, item: Option<CharacterData>): (r: Step<int>)
    ensures !r.outcome.Ok? ==> r.store == s
    ensures r.outcome.Ok? || r.outcome.InvalidArgument? || r.outcome.Conflict?
    ensures r.outcome.InvalidArgument? <==> item.None? || IsNullOrEmpty(item.value.name)
    ensures r.outcome.Conflict? <==>
      item.Some? && !IsNullOrEmpty(item.value.name) && CharacterNamed(s, item.value.name)
    ensures r.outcome.Conflict? ==>
      r.outcome.message == "Character " + NameText(item.value.name) + " already exists"
    ensures r.outcome.Ok? ==>
      var id := r.outcome.value;
      && (WellFormed(s) ==> id !in s.characters)
      && r.store.characters == s.characters[id := CharacterRow(item.value.name)]
      && r.store.episodes == s.episodes && r.store.friends == s.friends
      && r.store.characterSeed == s.characterSeed + 1
      && r.store.episodeSeed == s.episodeSeed && r.store.friendSeed == s.friendSeed
  {
    if item.None? then Step(InvalidArgument("Character not created"), s)
    else if IsNullOrEmpty(item.value.name) then Step(InvalidArgument("Name is empty"), s)
    else if CharacterNamed(s, item.value.name) then
      Step(Conflict("Character " + NameText(item.value.name) + " already exists"), s)
    else
      var id := s.characterSeed;
      Step(Ok(id), s.(characters := s.characters[id := CharacterRow(item.value.name)], characterSeed := id + 1))
  }

  /**
   * UpdateCharacter: a null item fails on dereference; an unknown id is
   * NotFound; a name held by ANY character, the updated one included, is a
   * conflict; a null name is refused by SaveChanges; otherwise only that row's
   * Name changes.
   */
  function UpdateCharacter(s: Store, item: Option<CharacterData>): (r: Step<()>)
    ensures !r.outcome.Ok? ==> r.store == s
    ensures !r.outcome.InvalidArgument?
    ensures r.outcome.NotFound? <==> item.Some? && item.value.id !in s.characters
    ensures r.outcome.NotFound? ==> r.outcome.message == "Character " + NameText(item.value.name) + " not found"
    ensures r.outcome.Conflict? <==>
      item.Some? && item.value.id in s.characters && CharacterNamed(s, item.value.name)
    ensures r.outcome.Conflict? ==> r.outcome.message == "Character " + NameText(item.value.name) + " already exists"
    ensures r.outcome.Failure? <==>
      item.None? || (item.value.id in s.characters && !CharacterNamed(s, item.value.name) && item.value.name.None?)
    ensures r.outcome.Ok? <==>
      item.Some? && item.value.id in s.characters && !CharacterNamed(s, item.value.name) && item.value.name.Some?
    ensures r.outcome.Ok? ==>
      item.Some? && item.value.id in s.characters &&
      r.store == s.(characters := s.characters[item.value.id := CharacterRow(item.value.name)])
  {
    if item.None? then Step(Failure(NullReferenceMessage), s)
    else if item.value.id !in s.characters then
      Step(NotFound("Character " + NameText(item.value.name) + " not found"), s)
    else if CharacterNamed(s, item.value.name) then
      Step(Conflict("Character " + NameText(item.value.name) + " already exists"), s)
    else if item.value.name.None? then Step(Failure(ValidationFailedMessage), s)
    else Step(Ok(()), s.(characters := s.characters[item.value.id := CharacterRow(item.value.name)]))
  }

  /** The rows of a child table that do not belong to character `id`. */
  function Disown(rows: map<int, DetailRow>, id: int): map<int, DetailRow>
  {
    map k | k in rows && rows[k].characterId != id :: rows[k]
  }

  /** Disowning a character that owns no row of a table leaves the table as it is. */
  lemma DisownNone(rows: map<int, DetailRow>, id: int)
    requires forall k :: k in rows ==> rows[k].characterId != id
    ensures Disown(rows, id) == rows
  {
    forall k | k in rows ensures k in Disown(rows, id) && Disown(rows, id)[k] == rows[k] {
      assert rows[k].characterId != id;
    }
  }

  /**
   * RemoveCharacter: an unknown id is NotFound; otherwise the row is deleted.
   * What happens to its children is up to the database: with `cascadeDelete`
   * they go with it, without it the foreign key refuses the delete while any
   * child remains.
   */
  function RemoveCharacter(s: Store, id: int, cascadeDelete: bool): (r: Step<()>)
    ensures !r.outcome.Ok? ==> r.store == s
    ensures r.outcome.Ok? || r.outcome.NotFound? || r.outcome.Failure?
    ensures r.outcome.NotFound? <==> id !in s.characters
    ensures r.outcome.NotFound? ==> r.outcome.message == "Character not found"
    ensures r.outcome.Failure? <==> id in s.characters && !cascadeDelete && OwnsDetails(s, id)
    ensures r.outcome.Ok? ==>
      && r.store.characters == s.characters - {id}
      && (forall k :: k in r.store.episodes <==> k in s.episodes && s.episodes[k].characterId != id)
      && (forall k :: k in r.store.friends <==> k in s.friends && s.friends[k].characterId != id)
      && (forall k :: k in r.store.episodes ==> r.store.episodes[k] == s.episodes[k])
      && (forall k :: k in r.store.friends ==> r.store.friends[k] == s.friends[k])
      && r.store.characterSeed == s.characterSeed
      && r.store.episodeSeed == s.episodeSeed && r.store.friendSeed == s.friendSeed
    ensures r.outcome.Ok? && !cascadeDelete ==> r.store == s.(characters := s.characters - {id})
  {
    if id !in s.characters then Step(NotFound("Character not found"), s)
    else if !cascadeDelete && OwnsDetails(s, id) then Step(Failure(UpdateFailedMessage), s)
    else
      assert !cascadeDelete ==> Disown(s.episodes, id) == s.episodes && Disown(s.friends, id) == s.friends by {
        if !cascadeDelete {
          DisownNone(s.episodes, id);
          DisownNone(s.friends, id);
        }
      }
      Step(Ok(()), s.(characters := s.characters - {id},
                      episodes := Disown(s.episodes, id),
                      friends := Disown(s.friends, id)))
  }

  // ------------------------------------------------------ episodes, friends

  /** Message of the StarsWarsException AddEpisode / AddFriend raise for a null child. */
  function NotAddedMessage(t: DetailTable): string
  {
    if t.Episodes? then "Episode not added" else "Friends not added"
  }

  /**
   * AddEpisode / AddFriend: a null child is a StarsWarsException; a missing
   * parent is NotFound; a child of the same name under the same parent is a
   * conflict; a null name is refused by SaveChanges; otherwise the child is
   * inserted with its owner set to `characterId`.
   */
  function AddDetail(s: Store, t: DetailTable, characterId: int, detail: Option<DetailData>): (r: Step<int>)
    ensures !r.outcome.Ok? ==> r.store == s
    ensures !r.outcome.InvalidArgument?
    ensures detail.None? ==> r.outcome == Conflict(NotAddedMessage(t))
    ensures r.outcome.NotFound? <==> detail.Some? && characterId !in s.characters
    ensures r.outcome.NotFound? ==> r.outcome.message == "Character not found"
    ensures r.outcome.Conflict? <==>
      detail.None? || (characterId in s.characters && DetailNamed(s.Details(t), characterId, detail.value.name))
    ensures detail.Some? && r.outcome.Conflict? ==> r.outcome.message == t.Label() + " already exists"
    ensures r.outcome.Failure? <==>
      detail.Some? && characterId in s.characters && !DetailNamed(s.Details(t), characterId, detail.value.name)
      && detail.value.name.None?
    ensures r.outcome.Ok? <==>
      detail.Some? && characterId in s.characters && !DetailNamed(s.Details(t), characterId, detail.value.name)
      && detail.value.name.Some?
    ensures r.outcome.Ok? ==>
      var id := r.outcome.value;
      && detail.Some? && characterId in s.characters
      && (WellFormed(s) ==> id !in s.Details(t))
      && r.store.Details(t) == s.Details(t)[id := DetailRow(detail.value.name, characterId)]
      && r.store.characters == s.characters
      && r.store.Details(t.Other()) == s.Details(t.Other())
      && r.store.Seed(t) == s.Seed(t) + 1
      && r.store.characterSeed == s.characterSeed && r.store.Seed(t.Other()) == s.Seed(t.Other())
  {
    if detail.None? then Step(Conflict(NotAddedMessage(t)), s)
    else if characterId !in s.characters then Step(NotFound("Character not found"), s)
    else if DetailNamed(s.Details(t), characterId, detail.value.name) then
      Step(Conflict(t.Label() + " already exists"), s)
    else if detail.value.name.None? then Step(Failure(ValidationFailedMessage), s)
    else
      var id := s.Seed(t);
      Step(Ok(id), s.WithDetails(t, s.Details(t)[id := DetailRow(detail.value.name, characterId)], id + 1))
  }

  /**
   * UpdateEpisode / UpdateFriend: a null child fails on dereference; an
   * unknown id is NotFound; a name used by any child of the existing row's
   * owner, the row itself included, is a conflict; a null name is refused by
   * SaveChanges; otherwise only the Name changes and the owner is kept.
   */
  function UpdateDetail(s: Store, t: DetailTable, detail: Option<DetailData>): (r: Step<()>)
    ensures !r.outcome.Ok? ==> r.store == s
    ensures !r.outcome.InvalidArgument?
    ensures r.outcome.NotFound? <==> detail.Some? && detail.value.id !in s.Details(t)
    ensures r.outcome.NotFound? ==>
      r.outcome.message == t.Label() + " " + NameText(detail.value.name) + " not found"
    ensures r.outcome.Conflict? <==>
      detail.Some? && detail.value.id in s.Details(t) &&
      DetailNamed(s.Details(t), s.Details(t)[detail.value.id].characterId, detail.value.name)
    ensures r.outcome.Conflict? ==>
      r.outcome.message == t.Label() + " " + NameText(detail.value.name) + " already exists"
    ensures r.outcome.Failure? <==>
      detail.None? ||
      (detail.value.id in s.Details(t) &&
       !DetailNamed(s.Details(t), s.Details(t)[detail.value.id].characterId, detail.value.name) &&
       detail.value.name.None?)
    ensures r.outcome.Ok? <==>
      detail.Some? && detail.value.id in s.Details(t) &&
      !DetailNamed(s.Details(t), s.Details(t)[detail.value.id].characterId, detail.value.name) &&
      detail.value.name.Some?
    ensures r.outcome.Ok? ==>
      && detail.Some? && detail.value.id in s.Details(t)
      && (var id := detail.value.id;
          r.store.Details(t) == s.Details(t)[id := DetailRow(detail.value.name, s.Details(t)[id].characterId)])
      && r.store.characters == s.characters
      && r.store.Details(t.Other()) == s.Details(t.Other())
      && r.store.characterSeed == s.characterSeed
      && r.store.Seed(t) == s.Seed(t) && r.store.Seed(t.Other()) == s.Seed(t.Other())
  {
    if detail.None? then Step(Failure(NullReferenceMessage), s)
    else if detail.value.id !in s.Details(t) then
      Step(NotFound(t.Label() + " " + NameText(detail.value.name) + " not found"), s)
    else
      var row := s.Details(t)[detail.value.id];
      if DetailNamed(s.Details(t), row.characterId, detail.value.name) then
        Step(Conflict(t.Label() + " " + NameText(detail.value.name) + " already exists"), s)
      else if detail.value.name.None? then Step(Failure(ValidationFailedMessage), s)
      else
        Step(Ok(()), s.WithDetails(t, s.Details(t)[detail.value.id := DetailRow(detail.value.name, row.characterId)], s.Seed(t)))
  }

  /**
   * RemoveEpisode / RemoveFriend: NotFound unless a row matches both the child
   * id and the owner; otherwise exactly that row is deleted.
   */
  function RemoveDetail(s: Store, t: DetailTable, characterId: int, detailId: int): (r: Step<()>)
    ensures r.outcome.Ok? || r.outcome.NotFound?
    ensures r.outcome.NotFound? ==> r.store == s && r.outcome.message == t.Label() + " not found"
    ensures r.outcome.Ok? <==> detailId in s.Details(t) && s.Details(t)[detailId].characterId == characterId
    ensures r.outcome.Ok? ==>
      && r.store.Details(t) == s.Details(t) - {detailId}
      && r.store.characters == s.characters
      && r.store.Details(t.Other()) == s.Details(t.Other())
      && r.store.characterSeed == s.characterSeed
      && r.store.Seed(t) == s.Seed(t) && r.store.Seed(t.Other()) == s.Seed(t.Other())
  {
    if detailId in s.Details(t) && s.Details(t)[detailId].characterId == characterId then
      Step(Ok(()), s.WithDetails(t, s.Details(t) - {detailId}, s.Seed(t)))
    else Step(NotFound(t.Label() + " not found"), s)
  }

  function AddEpisode(s: Store, characterId: int, episode: Option<DetailData>): Step<int>
  {
    AddDetail(s, Episodes, characterId, episode)
  }

  function UpdateEpisode(s: Store, episode: Option<DetailData>): Step<()>
  {
    UpdateDetail(s, Episodes, episode)
  }

  function RemoveEpisode(s: Store, characterId: int, episodeId: int): Step<()>
  {
    RemoveDetail(s, Episodes, characterId, episodeId)
  }

  function AddFriend(s: Store, characterId: int, friend: Option<DetailData>): Step<int>
  {
    AddDetail(s, Friends, characterId, friend)
  }

  function UpdateFriend(s: Store, friend: Option<DetailData>): Step<()>
  {
    UpdateDetail(s, Friends, friend)
  }

  function RemoveFriend(s: Store, characterId: int, friendId: int): Step<()>
  {
    RemoveDetail(s, Friends, characterId, friendId)
  }
}
