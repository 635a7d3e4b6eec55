/**
 * The database of StarsWarsDbContext: three tables keyed by integer
 * identity columns (CharacterId, EpisodeId, FriendId), a required Name in
 * each, and a required CharacterId foreign key from Episodes and Friends to
 * Characters. The schema declares no uniqueness on any Name.
 */
module DbContext {
  import opened Entities

  /** A row of the Characters table; its key is the map key. */
  datatype CharacterRow = CharacterRow(name: Name)

  /** A row of the Episodes or Friends table: its Name and its CharacterId foreign key. */
  datatype DetailRow = DetailRow(name: Name, characterId: int)

  /**
   * The three tables, and for each the next value its identity column hands out.
   */
  datatype Store = Store(
    characters: map<int, CharacterRow>,
    episodes: map<int, DetailRow>,
    friends: map<int, DetailRow>,
    characterSeed: int,
    episodeSeed: int,
    friendSeed: int)
  {
    /** The Episodes or the Friends table. */
    function Details(t: DetailTable): map<int, DetailRow>
    {
      if t.Episodes? then episodes else friends
    }

    /** The next key of the Episodes or the Friends table. */
    function Seed(t: DetailTable): int
    {
      if t.Episodes? then episodeSeed else friendSeed
    }

    /** This store with one child table and its identity seed replaced. */
    function WithDetails(t: DetailTable, rows: map<int, DetailRow>, seed: int): (s: Store)
      ensures s.characters == characters && s.characterSeed == characterSeed
      ensures s.Details(t) == rows && s.Seed(t) == seed
      ensures s.Details(t.Other()) == Details(t.Other()) && s.Seed(t.Other()) == Seed(t.Other())
    {
      if t.Episodes? then this.(episodes := rows, episodeSeed := seed)
      else this.(friends := rows, friendSeed := seed)
    }
  }

  /** Every key of a table was handed out by an identity column that starts at 1 and has reached `seed`. */
  ghost predicate KeysIssued<R>(rows: map<int, R>, seed: int)
  {
    0 < seed && forall k :: k in rows ==> 0 < k < seed
  }

  /** Every child row has a Name and an owning character that exists. */
  ghost predicate DetailsWellFormed(rows: map<int, DetailRow>, characters: map<int, CharacterRow>)
  {
    forall k :: k in rows ==> rows[k].name.Some? && rows[k].characterId in characters
  }

  /**
   * The schema of OnModelCreating: identity keys, required names, required
   * owner. In such a database the next identity key of every table is free,
   * every character loads with a name, and every child row has a name and an
   * owner that exists.
   */
  ghost predicate WellFormed(s: Store)
    ensures WellFormed(s) ==>
      s.characterSeed !in s.characters && s.episodeSeed !in s.episodes && s.friendSeed !in s.friends
    ensures WellFormed(s) ==> forall k :: k in s.characters ==> Load(s, k).name.Some?
    ensures WellFormed(s) ==> forall t: DetailTable, d :: d in s.Details(t) ==>
      s.Details(t)[d].name.Some? && s.Details(t)[d].characterId in s.characters
  {
    && KeysIssued(s.characters, s.characterSeed)
    && KeysIssued(s.episodes, s.episodeSeed)
    && KeysIssued(s.friends, s.friendSeed)
    && (forall k :: k in s.characters ==> s.characters[k].name.Some?)
    && DetailsWellFormed(s.episodes, s.characters)
    && DetailsWellFormed(s.friends, s.characters)
  }

  /** The children of one character in a child table, by id and name (the eager `Include`). */
  function Owned(rows: map<int, DetailRow>, characterId: int): map<int, Name>
  {
    map k | k in rows && rows[k].characterId == characterId :: rows[k].name
  }

  /** A character with its Episodes and Friends collections loaded. */
  function Load(s: Store, id: int): (c: Character)
    requires id in s.characters
    ensures c.id == id && c.name == s.characters[id].name
    ensures c.episodes == Owned(s.episodes, id) && c.friends == Owned(s.friends, id)
    ensures forall e :: e in c.episodes <==> e in s.episodes && s.episodes[e].characterId == id
    ensures forall f :: f in c.friends <==> f in s.friends && s.friends[f].characterId == id
  {
    Character(id, s.characters[id].name, Owned(s.episodes, id), Owned(s.friends, id))
  }

  /**
   * The navigation properties agree with the foreign keys: a well-formed
   * child appears in the collection of exactly one character, its owner.
   */
  lemma DetailHasOneOwner(s: Store, t: DetailTable, d: int, c: int)
    requires WellFormed(s) && d in s.Details(t) && c in s.characters
    ensures var owner := s.Details(t)[d].characterId;
      owner in s.characters &&
      (d in (if t.Episodes? then Load(s, c).episodes else Load(s, c).friends) <==> c == owner)
  {
  }
}
