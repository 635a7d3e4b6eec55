/**
 * What the manager's operations guarantee together: the uniqueness rules and
 * the schema survive every call, and the round trips and repeated calls the
 * manager's pre-queries decide.
 */
module Properties {
  import opened Wrappers
  import opened Entities
  import opened Exceptions
  import opened DbContext
  import opened UnitOfWork

  // ------------------------------------------------ the invariant is kept

  lemma CreateCharacterKeepsValid(s: Store, item: Option<CharacterData>)
    requires Valid(s)
    ensures Valid(CreateCharacter(s, item).store)
  {
  }

  lemma UpdateCharacterKeepsValid(s: Store, item: Option<CharacterData>)
    requires Valid(s)
    ensures Valid(UpdateCharacter(s, item).store)
  {
  }

  lemma RemoveCharacterKeepsValid(s: Store, id: int, cascadeDelete: bool)
    requires Valid(s)
    ensures Valid(RemoveCharacter(s, id, cascadeDelete).store)
  {
  }

  /**
   * A change confined to one child table keeps the invariant when that table
   * alone still meets the schema and the per-owner uniqueness.
   */
  lemma ValidAfterDetailChange(s: Store, r: Store, t: DetailTable)
    requires Valid(s)
    requires r.characters == s.characters && r.characterSeed == s.characterSeed
    requires r.Details(t.Other()) == s.Details(t.Other()) && r.Seed(t.Other()) == s.Seed(t.Other())
    requires KeysIssued(r.Details(t), r.Seed(t))
    requires DetailsWellFormed(r.Details(t), r.characters) && DetailNamesDistinct(r.Details(t))
    ensures Valid(r)
  {
    if t.Episodes? {
      assert r.friends == s.friends && r.friendSeed == s.friendSeed;
    } else {
      assert r.episodes == s.episodes && r.episodeSeed == s.episodeSeed;
    }
  }

  lemma AddDetailKeepsValid(s: Store, t: DetailTable, characterId: int, detail: Option<DetailData>)
    requires Valid(s)
    ensures Valid(AddDetail(s, t, characterId, detail).store)
  {
    var r := AddDetail(s, t, characterId, detail);
    if r.outcome.Ok? {
      var id := r.outcome.value;
      var before := s.Details(t);
      var rows := r.store.Details(t);
      assert rows == before[id := DetailRow(detail.value.name, characterId)];
      assert id !in before && 0 < id < r.store.Seed(t);
      assert !DetailNamed(before, characterId, detail.value.name);
      forall a, b | a in rows && b in rows && a != b && rows[a].characterId == rows[b].characterId
        ensures rows[a].name != rows[b].name
      {
        if a != id && b != id {
          assert rows[a] == before[a] && rows[b] == before[b];
        }
      }
      ValidAfterDetailChange(s, r.store, t);
    }
  }

  lemma UpdateDetailKeepsValid(s: Store, t: DetailTable, detail: Option<DetailData>)
    requires Valid(s)
    ensures Valid(UpdateDetail(s, t, detail).store)
  {
    var r := UpdateDetail(s, t, detail);
    if r.outcome.Ok? {
      var id := detail.value.id;
      var before := s.Details(t);
      var rows := r.store.Details(t);
      var owner := before[id].characterId;
      assert rows == before[id := DetailRow(detail.value.name, owner)];
      assert r.store.Seed(t) == s.Seed(t);
      assert KeysIssued(rows, r.store.Seed(t)) by {
        forall k | k in rows ensures 0 < k < r.store.Seed(t) {
          assert k in before;
        }
      }
      assert !DetailNamed(before, owner, detail.value.name);
      forall a, b | a in rows && b in rows && a != b && rows[a].characterId == rows[b].characterId
        ensures rows[a].name != rows[b].name
      {
        if a != id && b != id {
          assert rows[a] == before[a] && rows[b] == before[b];
        }
      }
      ValidAfterDetailChange(s, r.store, t);
    }
  }

  lemma RemoveDetailKeepsValid(s: Store, t: DetailTable, characterId: int, detailId: int)
    requires Valid(s)
    ensures Valid(RemoveDetail(s, t, characterId, detailId).store)
  {
    var r := RemoveDetail(s, t, characterId, detailId);
    if r.outcome.Ok? {
      assert r.store.Details(t) == s.Details(t) - {detailId};
      ValidAfterDetailChange(s, r.store, t);
    }
  }

  // ------------------------------------------------------------ characters

  /** A successful CreateCharacter adds exactly one row: the count rises by one. */
  lemma CreateCharacterCountsOneMore(s: Store, item: Option<CharacterData>)
    requires WellFormed(s)
    ensures var r := CreateCharacter(s, item);
      r.outcome.Ok? ==> |r.store.characters| == |s.characters| + 1
  {
  }

  /**
   * Round trip: the character CreateCharacter inserts is found under its new
   * id, with the given name and no episodes or friends.
   */
  lemma CreateThenGet(s: Store, item: Option<CharacterData>)
    requires Valid(s)
    ensures var r := CreateCharacter(s, item);
      r.outcome.Ok? ==>
        GetCharacter(r.store, r.outcome.value) == Ok(Character(r.outcome.value, item.value.name, map[], map[]))
  {
    var r := CreateCharacter(s, item);
    if r.outcome.Ok? {
      var id := r.outcome.value;
      assert id !in s.characters;
      NoneOwned(r.store.episodes, s.characters, id);
      NoneOwned(r.store.friends, s.characters, id);
    }
  }

  lemma NoneOwned(rows: map<int, DetailRow>, characters: map<int, CharacterRow>, id: int)
    requires DetailsWellFormed(rows, characters) && id !in characters
    ensures Owned(rows, id) == map[]
  {
    forall k | k in rows ensures rows[k].characterId != id {
      assert rows[k].characterId in characters;
    }
    assert Owned(rows, id).Keys == {};
  }

  /** Creating the same character twice: the second call conflicts and changes nothing. */
  lemma CreateCharacterTwiceConflicts(s: Store, item: Option<CharacterData>)
    requires WellFormed(s)
    ensures var r := CreateCharacter(s, item);
      r.outcome.Ok? ==>
        var again := CreateCharacter(r.store, item);
        again.outcome == Conflict("Character " + NameText(item.value.name) + " already exists") &&
        again.store == r.store
  {
    var r := CreateCharacter(s, item);
    if r.outcome.Ok? {
      assert r.store.characters[r.outcome.value].name == item.value.name;
    }
  }

  /**
   * The duplicate check of UpdateCharacter does not skip the row being
   * updated: renaming a character to the name it already has conflicts.
   */
  lemma UpdateCharacterToOwnNameConflicts(s: Store, id: int)
    requires id in s.characters
    ensures var name := s.characters[id].name;
      UpdateCharacter(s, Some(CharacterData(id, name))) ==
        Step(Conflict("Character " + NameText(name) + " already exists"), s)
  {
  }

  /** UpdateCharacter changes only the name: the character keeps its episodes and friends. */
  lemma UpdateCharacterKeepsChildren(s: Store, item: Option<CharacterData>)
    ensures var r := UpdateCharacter(s, item);
      r.outcome.Ok? ==>
        var before := Load(s, item.value.id);
        var after := Load(r.store, item.value.id);
        after.name == item.value.name && after.episodes == before.episodes && after.friends == before.friends
  {
  }

  /**
   * UpdateCharacter has no empty-name check: it stores an empty name, which
   * CreateCharacter refuses.
   */
  lemma UpdateCharacterAdmitsEmptyName(s: Store, id: int)
    requires id in s.characters && !CharacterNamed(s, Some(""))
    ensures UpdateCharacter(s, Some(CharacterData(id, Some("")))).outcome.Ok?
    ensures UpdateCharacter(s, Some(CharacterData(id, Some("")))).store.characters[id].name == Some("")
    ensures CreateCharacter(s, Some(CharacterData(id, Some("")))).outcome == InvalidArgument("Name is empty")
  {
  }

  /** Ids with no row are NotFound for GetCharacter, UpdateCharacter and RemoveCharacter alike. */
  lemma UnknownCharacterNotFound(s: Store, id: int, name: Name, cascadeDelete: bool)
    requires id !in s.characters
    ensures GetCharacter(s, id) == NotFound("Character not found")
    ensures UpdateCharacter(s, Some(CharacterData(id, name))) ==
      Step(NotFound("Character " + NameText(name) + " not found"), s)
    ensures RemoveCharacter(s, id, cascadeDelete) == Step(NotFound("Character not found"), s)
  {
  }

  /** A successful RemoveCharacter deletes the row: repeating it is NotFound. */
  lemma RemoveCharacterTwiceNotFound(s: Store, id: int, cascadeDelete: bool)
    ensures var r := RemoveCharacter(s, id, cascadeDelete);
      r.outcome.Ok? ==>
        RemoveCharacter(r.store, id, cascadeDelete) == Step(NotFound("Character not found"), r.store)
  {
  }

  // ------------------------------------------------------ episodes, friends

  /** Adding the same child to the same character twice: the second call conflicts. */
  lemma AddDetailTwiceConflicts(s: Store, t: DetailTable, characterId: int, detail: Option<DetailData>)
    ensures var r := AddDetail(s, t, characterId, detail);
      r.outcome.Ok? ==>
        AddDetail(r.store, t, characterId, detail) == Step(Conflict(t.Label() + " already exists"), r.store)
  {
    var r := AddDetail(s, t, characterId, detail);
    if r.outcome.Ok? {
      var id := r.outcome.value;
      assert r.store.Details(t)[id] == DetailRow(detail.value.name, characterId);
    }
  }

  /**
   * Child names are unique per owner, not globally: once a child is added to
   * one character, a child of the same name can still be added to another.
   */
  lemma AddDetailUnderOtherOwner(s: Store, t: DetailTable, first: int, second: int, detail: DetailData)
    requires WellFormed(s)
    requires first != second && second in s.characters
    requires detail.name.Some? && !DetailNamed(s.Details(t), second, detail.name)
    ensures var r := AddDetail(s, t, first, Some(detail));
      r.outcome.Ok? ==> AddDetail(r.store, t, second, Some(detail)).outcome.Ok?
  {
  }

  /** UpdateEpisode / UpdateFriend keep the child's owner. */
  lemma UpdateDetailKeepsOwner(s: Store, t: DetailTable, detail: Option<DetailData>)
    ensures var r := UpdateDetail(s, t, detail);
      r.outcome.Ok? ==>
        var id := detail.value.id;
        r.store.Details(t)[id].characterId == s.Details(t)[id].characterId &&
        r.store.Details(t)[id].name == detail.value.name
  {
  }

  /** Renaming a child to the name it already has conflicts, as for characters. */
  lemma UpdateDetailToOwnNameConflicts(s: Store, t: DetailTable, id: int)
    requires id in s.Details(t)
    ensures var name := s.Details(t)[id].name;
      UpdateDetail(s, t, Some(DetailData(id, name))) ==
        Step(Conflict(t.Label() + " " + NameText(name) + " already exists"), s)
  {
  }

  /** A successful RemoveEpisode / RemoveFriend deletes the row: repeating it is NotFound. */
  lemma RemoveDetailTwiceNotFound(s: Store, t: DetailTable, characterId: int, detailId: int)
    ensures var r := RemoveDetail(s, t, characterId, detailId);
      r.outcome.Ok? ==>
        RemoveDetail(r.store, t, characterId, detailId) == Step(NotFound(t.Label() + " not found"), r.store)
  {
  }

  // ------------------------------------------------- the console scenario

  /** Character 2 "Dart Vader" with no children; the next character key is 3. */
  const Vader := Store(map[2 := CharacterRow(Some("Dart Vader"))], map[], map[], 3, 1, 1)
  const Empire := DetailData(0, Some("EMPIRE"))
  const ThreePio := DetailData(0, Some("C-3PO"))
  /** Vader after episode "EMPIRE" was added under key 1. */
  const VaderInEmpire := Vader.(episodes := map[1 := DetailRow(Some("EMPIRE"), 2)], episodeSeed := 2)
  /** VaderInEmpire after friend "C-3PO" was added under key 1. */
  const VaderWithFriend := VaderInEmpire.(friends := map[1 := DetailRow(Some("C-3PO"), 2)], friendSeed := 2)

  /** Episode "EMPIRE" is added to Dart Vader once; adding it again conflicts. */
  lemma ScenarioEpisodeOnce()
    ensures AddEpisode(Vader, 2, Some(Empire)) == Step(Ok(1), VaderInEmpire)
    ensures AddEpisode(VaderInEmpire, 2, Some(Empire)) == Step(Conflict("Episode already exists"), VaderInEmpire)
  {
    assert VaderInEmpire.episodes[1].characterId == 2;
  }

  /** Friend "C-3PO" is added and removed; removing it again is NotFound. */
  lemma ScenarioFriendAddRemove()
    ensures AddFriend(VaderInEmpire, 2, Some(ThreePio)) == Step(Ok(1), VaderWithFriend)
    ensures RemoveFriend(VaderWithFriend, 2, 1) == Step(Ok(()), VaderWithFriend.(friends := map[]))
    ensures RemoveFriend(VaderWithFriend.(friends := map[]), 2, 1) ==
      Step(NotFound("Friend not found"), VaderWithFriend.(friends := map[]))
  {
    assert VaderWithFriend.friends - {1} == map[];
  }
}
