/**
 * The entity classes Character, Episode and Friend, as values.
 * A C# string property may be null, so a name is an `Option<string>`.
 */
module Entities {
  import opened Wrappers

  /** A name property: `None` is a null string. */
  type Name = Option<string>

  /** What an interpolated C# string shows for a name: a null name shows as nothing. */
  function NameText(n: Name): string
  {
    if n.Some? then n.value else ""
  }

  /** True for a name that `string.IsNullOrEmpty` rejects. */
  predicate IsNullOrEmpty(n: Name)
  {
    n.None? || n.value == ""
  }

  /** The scalar properties (Id, Name) of a Character object handed to the manager. */
  datatype CharacterData = CharacterData(id: int, name: Name)

  /** The scalar properties (Id, Name) of an Episode or a Friend object handed to the manager. */
  datatype DetailData = DetailData(id: int, name: Name)

  /**
   * A Character as the manager returns it, with its Episodes and Friends
   * collections loaded: each child is given by its id and its name.
   */
  datatype Character = Character(id: int, name: Name, episodes: map<int, Name>, friends: map<int, Name>)

  /** The two child tables; Episode and Friend have the same shape and the same rules. */
  datatype DetailTable = Episodes | Friends
  {
    /** The entity name used in the messages of this table's operations. */
    function Label(): string
    {
      if Episodes? then "Episode" else "Friend"
    }

    /** The table an operation on this one leaves alone. */
    function Other(): DetailTable
    {
      if Episodes? then Friends else Episodes
    }
  }
}
