/**
 * StarsWarsManager: the entity manager, over the tables it reads and writes.
 * Each method runs its checks, then changes the tables in place and commits;
 * each is proved to do what its unit of work in module UnitOfWork does, so
 * the properties proved there hold of it.
 */
module Manager {
  import opened Wrappers
  import opened Entities
  import opened Exceptions
  import opened DbContext
  import UnitOfWork
  import Properties

  class StarsWarsManager {
    var characters: map<int, CharacterRow>
    var episodes: map<int, DetailRow>
    var friends: map<int, DetailRow>
    var characterSeed: int
    var episodeSeed: int
    var friendSeed: int
    /** Whether the database deletes a character's episodes and friends together with it. */
    const cascadeDelete: bool

    /** The tables as one database value. */
    function Database(): Store
      reads this
    {
      Store(characters, episodes, friends, characterSeed, episodeSeed, friendSeed)
    }

    ghost predicate Valid()
      reads this
    {
      UnitOfWork.Valid(Database())
    }

    constructor (initial: Store, cascadeDelete: bool)
      requires UnitOfWork.Valid(initial)
      ensures Valid() && Database() == initial && this.cascadeDelete == cascadeDelete
    {
      characters, episodes, friends := initial.characters, initial.episodes, initial.friends;
      characterSeed, episodeSeed, friendSeed := initial.characterSeed, initial.episodeSeed, initial.friendSeed;
      this.cascadeDelete := cascadeDelete;
    }

    /** GetCharactersCount: the number of rows in Characters. */
    method GetCharactersCount() returns (count: int)
      ensures count == |characters|
      ensures count == |UnitOfWork.GetCharacters(Database())|
    {
      count := |characters|;
    }

    /** GetCharacters: every character once, with its children loaded. */
    method GetCharacters() returns (list: seq<Character>)
      ensures |list| == |characters|
      ensures forall k :: k in characters ==> Load(Database(), k) in list
      ensures forall i :: 0 <= i < |list| ==> list[i].id in characters && list[i] == Load(Database(), list[i].id)
    {
      list := UnitOfWork.GetCharacters(Database());
    }

    /** GetCharacter: NotFound for an id with no row. */
    method GetCharacter(characterId: int) returns (r: Outcome<Character>)
      ensures r.Ok? <==> characterId in characters
      ensures r.Ok? ==> r.value == Load(Database(), characterId)
      ensures r == UnitOfWork.GetCharacter(Database(), characterId)
    {
      if characterId !in characters {
        return NotFound("Character not found");
      }
      r := Ok(Load(Database(), characterId));
    }

    method CreateCharacter(item: Option<CharacterData>) returns (r: Outcome<int>)
      requires Valid()
      modifies this
      ensures Valid()
      ensures UnitOfWork.Step(r, Database()) == UnitOfWork.CreateCharacter(old(Database()), item)
      ensures !r.Ok? ==> Database() == old(Database())
    {
      if item.None? {
        return InvalidArgument("Character not created");
      }
      if IsNullOrEmpty(item.value.name) {
        return InvalidArgument("Name is empty");
      }
      if UnitOfWork.CharacterNamed(Database(), item.value.name) {
        return Conflict("Character " + NameText(item.value.name) + " already exists");
      }
      var id := characterSeed;
      characters := characters[id := CharacterRow(item.value.name)];
      characterSeed := characterSeed + 1;
      r := Ok(id);
      Properties.CreateCharacterKeepsValid(old(Database()), item);
    }

    method UpdateCharacter(item: Option<CharacterData>) returns (r: Outcome<()>)
      requires Valid()
      modifies this
      ensures Valid()
      ensures UnitOfWork.Step(r, Database()) == UnitOfWork.UpdateCharacter(old(Database()), item)
      ensures !r.Ok? ==> Database() == old(Database())
    {
      if item.None? {
        return Failure(NullReferenceMessage);
      }
      if item.value.id !in characters {
        return NotFound("Character " + NameText(item.value.name) + " not found");
      }
      if UnitOfWork.CharacterNamed(Database(), item.value.name) {
        return Conflict("Character " + NameText(item.value.name) + " already exists");
      }
      if item.value.name.None? {
        return Failure(ValidationFailedMessage);
      }
      characters := characters[item.value.id := CharacterRow(item.value.name)];
      r := Ok(());
      Properties.UpdateCharacterKeepsValid(old(Database()), item);
    }

    method RemoveCharacter(characterId: int) returns (r: Outcome<()>)
      requires Valid()
      modifies this
      ensures Valid()
      ensures UnitOfWork.Step(r, Database()) == UnitOfWork.RemoveCharacter(old(Database()), characterId, cascadeDelete)
      ensures !r.Ok? ==> Database() == old(Database())
    {
      if characterId !in characters {
        return NotFound("Character not found");
      }
      if !cascadeDelete && UnitOfWork.OwnsDetails(Database(), characterId) {
        return Failure(UpdateFailedMessage);
      }
      characters := characters - {characterId};
      episodes := UnitOfWork.Disown(episodes, characterId);
      friends := UnitOfWork.Disown(friends, characterId);
      r := Ok(());
      Properties.RemoveCharacterKeepsValid(old(Database()), characterId, cascadeDelete);
    }

    /** The body AddEpisode and AddFriend share. */
    method AddDetail(t: DetailTable, characterId: int, detail: Option<DetailData>) returns (r: Outcome<int>)
      requires Valid()
      modifies this
      ensures Valid()
      ensures UnitOfWork.Step(r, Database()) == UnitOfWork.AddDetail(old(Database()), t, characterId, detail)
    {
      if detail.None? {
        return Conflict(UnitOfWork.NotAddedMessage(t));
      }
      if characterId !in characters {
        return NotFound("Character not found");
      }
      if UnitOfWork.DetailNamed(Database().Details(t), characterId, detail.value.name) {
        return Conflict(t.Label() + " already exists");
      }
      if detail.value.name.None? {
        return Failure(ValidationFailedMessage);
      }
      var row := DetailRow(detail.value.name, characterId);
      if t.Episodes? {
        r := Ok(episodeSeed);
        episodes := episodes[episodeSeed := row];
        episodeSeed := episodeSeed + 1;
      } else {
        r := Ok(friendSeed);
        friends := friends[friendSeed := row];
        friendSeed := friendSeed + 1;
      }
      Properties.AddDetailKeepsValid(old(Database()), t, characterId, detail);
    }

    /** The body UpdateEpisode and UpdateFriend share. */
    method UpdateDetail(t: DetailTable, detail: Option<DetailData>) returns (r: Outcome<()>)
      requires Valid()
      modifies this
      ensures Valid()
      ensures UnitOfWork.Step(r, Database()) == UnitOfWork.UpdateDetail(old(Database()), t, detail)
    {
      if detail.None? {
        return Failure(NullReferenceMessage);
      }
      var rows := Database().Details(t);
      if detail.value.id !in rows {
        return NotFound(t.Label() + " " + NameText(detail.value.name) + " not found");
      }
      var owner := rows[detail.value.id].characterId;
      if UnitOfWork.DetailNamed(rows, owner, detail.value.name) {
        return Conflict(t.Label() + " " + NameText(detail.value.name) + " already exists");
      }
      if detail.value.name.None? {
        return Failure(ValidationFailedMessage);
      }
      if t.Episodes? {
        episodes := episodes[detail.value.id := DetailRow(detail.value.name, owner)];
      } else {
        friends := friends[detail.value.id := DetailRow(detail.value.name, owner)];
      }
      r := Ok(());
      Properties.UpdateDetailKeepsValid(old(Database()), t, detail);
    }

    /** The body RemoveEpisode and RemoveFriend share. */
    method RemoveDetail(t: DetailTable, characterId: int, detailId: int) returns (r: Outcome<()>)
      requires Valid()
      modifies this
      ensures Valid()
      ensures UnitOfWork.Step(r, Database()) == UnitOfWork.RemoveDetail(old(Database()), t, characterId, detailId)
    {
      var rows := Database().Details(t);
      if detailId !in rows || rows[detailId].characterId != characterId {
        return NotFound(t.Label() + " not found");
      }
      if t.Episodes? {
        episodes := episodes - {detailId};
      } else {
        friends := friends - {detailId};
      }
      r := Ok(());
      Properties.RemoveDetailKeepsValid(old(Database()), t, characterId, detailId);
    }

    method AddEpisode(characterId: int, episode: Option<DetailData>) returns (r: Outcome<int>)
      requires Valid()
      modifies this
      ensures Valid()
      ensures UnitOfWork.Step(r, Database()) == UnitOfWork.AddEpisode(old(Database()), characterId, episode)
      ensures !r.Ok? ==> Database() == old(Database())
    {
      r := AddDetail(Episodes, characterId, episode);
    }

    method UpdateEpisode(episode: Option<DetailData>) returns (r: Outcome<()>)
      requires Valid()
      modifies this
      ensures Valid()
      ensures UnitOfWork.Step(r, Database()) == UnitOfWork.UpdateEpisode(old(Database()), episode)
      ensures !r.Ok? ==> Database() == old(Database())
    {
      r := UpdateDetail(Episodes, episode);
    }

    method RemoveEpisode(characterId: int, episodeId: int) returns (r: Outcome<()>)
      requires Valid()
      modifies this
      ensures Valid()
      ensures UnitOfWork.Step(r, Database()) == UnitOfWork.RemoveEpisode(old(Database()), characterId, episodeId)
      ensures !r.Ok? ==> Database() == old(Database())
    {
      r := RemoveDetail(Episodes, characterId, episodeId);
    }

    method AddFriend(characterId: int, friend: Option<DetailData>) returns (r: Outcome<int>)
      requires Valid()
      modifies this
      ensures Valid()
      ensures UnitOfWork.Step(r, Database()) == UnitOfWork.AddFriend(old(Database()), characterId, friend)
      ensures !r.Ok? ==> Database() == old(Database())
    {
      r := AddDetail(Friends, characterId, friend);
    }

    method UpdateFriend(friend: Option<DetailData>) returns (r: Outcome<()>)
      requires Valid()
      modifies this
      ensures Valid()
      ensures UnitOfWork.Step(r, Database()) == UnitOfWork.UpdateFriend(old(Database()), friend)
      ensures !r.Ok? ==> Database() == old(Database())
    {
      r := UpdateDetail(Friends, friend);
    }

    method RemoveFriend(characterId: int, friendId: int) returns (r: Outcome<()>)
      requires Valid()
      modifies this
      ensures Valid()
      ensures UnitOfWork.Step(r, Database()) == UnitOfWork.RemoveFriend(old(Database()), characterId, friendId)
      ensures !r.Ok? ==> Database() == old(Database())
    {
      r := RemoveDetail(Friends, characterId, friendId);
    }
  }
}
