# StarsWars Web API — a Dafny model

StarsWars is an ASP.NET Web API over an Entity Framework 6 database of Star
Wars characters. Each character has a name, a list of episodes and a list of
friends. This project models the core of that system and proves properties
about it:

- **The database schema** (`StarsWarsDbContext`), in `db_context.dfy`. It has
  three tables keyed by identity columns. Every name is required. Each
  episode and each friend row belongs to exactly one existing character. The
  schema is the predicate `WellFormed` over a `Store` value. `Load` builds
  the `Character` that an eager `Include("Episodes").Include("Friends")`
  returns.
- **The business manager** (`StarsWarsManager`) has two layers. The first,
  `unit_of_work.dfy`, holds one pure function per operation. Each takes a
  `Store` and returns a `Step`: the outcome (a value or the exception thrown)
  together with the database the operation leaves behind. The second,
  `manager.dfy`, holds the class `StarsWarsManager`. Its fields are the three
  tables and their identity seeds. Its methods update those fields step by
  step, and each is proved to agree with its function. `properties.dfy`
  proves that every operation keeps the schema invariant and the name
  uniqueness the manager enforces. It also proves the round trips and
  repeat behaviours of the operations.
- **The two controllers** (`StarsWarsController`, `StarsWarsDetailsController`)
  turn a manager outcome into an HTTP status and a body. The mapping follows
  each action's catch clauses, in order:
  - ArgumentNullException gives 400.
  - EntityNotFoundException gives 404.
  - StarsWarsException gives 422.
  - Any other exception gives 500.

  `GetAllCharacters` sorts the characters by id and pages them with LINQ
  `Skip`/`Take`. The skip count uses C#'s unchecked 32-bit arithmetic.

How C# concepts are represented:

- A C# `null` string or request is `None` of an `Option`.
- An exception is a non-`Ok` `Outcome`. It carries the message the .NET
  exception would have:
  - `ArgumentNullException(string)` takes a parameter name, so its message is
    "Value cannot be null." followed by a line with that parameter name.
  - Dereferencing a null item, an Entity Framework validation error and a
    foreign-key violation on delete are all `Failure`.
- Identity keys come from one seed per table. A seed starts at 1 or more and
  grows by one with each insert.

Three behaviours of the code that a reader might not expect:

- AddEpisode and AddFriend with a null child throw StarsWarsException
  ("Episode not added" / "Friends not added", StarsWarsManager.cs:212 and
  :320), not ArgumentNullException.
- The duplicate-name check in UpdateCharacter, UpdateEpisode and
  UpdateFriend does not skip the row being updated. Renaming a row to its
  own name therefore conflicts.
- UpdateCharacter has no empty-name check, so it stores `""`, which
  CreateCharacter refuses.

## Model

| member | source | states |
|---|---|---|
| DbContext.Load | StarsWars.Business/Managers/StarsWarsManager.cs:79-81 | the loaded character carries the row's id and name, and its episodes and friends are exactly the child rows whose foreign key is that id |
| DbContext.WellFormed | StarsWars.Data/StarsWarsDbContext.cs:23-74 | in a database that meets the schema the next identity key of each table is free, every character loads with a name, and every episode or friend has a name and an existing owner |
| DbContext.Store.WithDetails | StarsWars.Data/StarsWarsDbContext.cs:19-21 | replacing one child table leaves the characters table and the other child table unchanged |
| DbContext.DetailHasOneOwner | StarsWars.Data/StarsWarsDbContext.cs:39-43 | in a well-formed database a child row appears in the loaded lists of exactly one character, its owner |
| Ordering.Min | StarsWars.Business/Managers/StarsWarsManager.cs:52-53 | the result is in the set and no key is smaller |
| Ordering.SortedKeys | StarsWars.Business/Managers/StarsWarsManager.cs:52-53 | the listing holds every key exactly once, in strictly increasing order |
| UnitOfWork.Valid | StarsWars.Business/Managers/StarsWarsManager.cs:121-127 | the schema holds and a name identifies at most one character, the uniqueness the duplicate pre-queries keep |
| UnitOfWork.CharacterNamed | StarsWars.Business/Managers/StarsWarsManager.cs:121 | the query `FirstOrDefault(u => u.Name == name)` finds a row exactly when some stored character loads with that name |
| UnitOfWork.DetailNamed | StarsWars.Business/Managers/StarsWarsManager.cs:225 | the per-owner duplicate query finds a row exactly when the name is among the children loaded for that owner (also lines 262, 333, 371) |
| UnitOfWork.OwnedNames | StarsWars.Business/Managers/StarsWarsManager.cs:225 | a child row of an owner with a given name is exactly an entry of the collection loaded for that owner |
| UnitOfWork.ChildIdentifiedByNameAndOwner | StarsWars.Business/Managers/StarsWarsManager.cs:225-231 | in a valid database two children in one table with the same name and owner are the same row |
| UnitOfWork.GetCharacters | StarsWars.Business/Managers/StarsWarsManager.cs:44-69 | one entry per stored character, each the eager load of its row; every stored character is listed; ids are distinct |
| UnitOfWork.CharacterNamedInListing | StarsWars.Business/Managers/StarsWarsManager.cs:121 | the duplicate query on Characters finds a row exactly when a character with that name is among those GetCharacters lists |
| UnitOfWork.LoadAll | StarsWars.Business/Managers/StarsWarsManager.cs:52-53 | loads the given ids in order, one character per id |
| UnitOfWork.LoadedInOrder | StarsWars.Business/Managers/StarsWarsManager.cs:52-53 | a listing loaded from the sorted keys contains every stored character, with distinct ids |
| UnitOfWork.GetCharacter | StarsWars.Business/Managers/StarsWarsManager.cs:71-98 | Ok, holding exactly the eager load of the row (name, episodes, friends), if and only if the id is stored; otherwise EntityNotFound "Character not found" |
| UnitOfWork.CreateCharacter | StarsWars.Business/Managers/StarsWarsManager.cs:100-138 | null item or null/empty name gives ArgumentNull; a name already held gives a conflict "Character X already exists"; each failure leaves the database unchanged; success inserts exactly one row under a fresh key, leaves episodes and friends as they were, raises the character identity seed by one and keeps the other seeds |
| UnitOfWork.UpdateCharacter | StarsWars.Business/Managers/StarsWarsManager.cs:140-174 | null item fails; an unknown id gives NotFound "Character X not found"; any character holding the name, itself included, gives a conflict "Character X already exists"; a failure happens exactly for a null item or a null name past those checks; success happens exactly for a known id with a free non-null name and changes only that row's name |
| UnitOfWork.RemoveCharacter | StarsWars.Business/Managers/StarsWarsManager.cs:176-201 | an unknown id gives NotFound; with children and no cascade the delete fails and changes nothing; otherwise the row and, by cascade, its children are deleted, every other child row and every identity seed staying as it was; without cascade only the character row goes |
| UnitOfWork.AddDetail | StarsWars.Business/Managers/StarsWarsManager.cs:203-244 | a null child gives a conflict "Episode not added"/"Friends not added"; a missing owner gives NotFound; the same name under the same owner gives a conflict; a null name fails validation; success happens exactly for a non-null child with a non-null name free under an existing owner, and inserts one row owned by that character, raising that table's identity seed by one and leaving the other tables and seeds as they were |
| UnitOfWork.UpdateDetail | StarsWars.Business/Managers/StarsWarsManager.cs:246-280 | a null child fails; an unknown id gives NotFound "Episode X not found"; a name used under the existing owner, the row itself included, gives a conflict; a null name fails validation; success happens exactly for a known id with a non-null name free under its owner, and renames the row keeping its owner; the other tables and every identity seed stay as they were |
| UnitOfWork.RemoveDetail | StarsWars.Business/Managers/StarsWarsManager.cs:282-309 | succeeds if and only if a row has that id and that owner, and then deletes exactly that row, the other tables and every identity seed staying as they were; otherwise NotFound "Episode not found" with no change |
| Manager.StarsWarsManager.constructor | StarsWars.Business/Managers/StarsWarsManager.cs:19-22 | the manager starts over a valid database and its fields hold it |
| Manager.StarsWarsManager.GetCharactersCount | StarsWars.Business/Managers/StarsWarsManager.cs:24-42 | returns the number of stored characters |
| Manager.StarsWarsManager.GetCharacters | StarsWars.Business/Managers/StarsWarsManager.cs:44-69 | lists as many characters as are stored, every stored character among them, each the eager load of its row |
| Manager.StarsWarsManager.GetCharacter | StarsWars.Business/Managers/StarsWarsManager.cs:71-98 | the lookup agrees with the GetCharacter function and changes nothing |
| Manager.StarsWarsManager.CreateCharacter | StarsWars.Business/Managers/StarsWarsManager.cs:100-138 | the new fields and the outcome are those of the CreateCharacter function; validity is kept; a failure changes nothing |
| Manager.StarsWarsManager.UpdateCharacter | StarsWars.Business/Managers/StarsWarsManager.cs:140-174 | agrees with the UpdateCharacter function; validity is kept; a failure changes nothing |
| Manager.StarsWarsManager.RemoveCharacter | StarsWars.Business/Managers/StarsWarsManager.cs:176-201 | agrees with the RemoveCharacter function under the manager's cascade setting; validity is kept |
| Manager.StarsWarsManager.AddDetail | StarsWars.Business/Managers/StarsWarsManager.cs:209-235 | agrees with the AddDetail function on the chosen child table; validity is kept |
| Manager.StarsWarsManager.UpdateDetail | StarsWars.Business/Managers/StarsWarsManager.cs:254-271 | agrees with the UpdateDetail function on the chosen child table; validity is kept |
| Manager.StarsWarsManager.RemoveDetail | StarsWars.Business/Managers/StarsWarsManager.cs:291-300 | agrees with the RemoveDetail function on the chosen child table; validity is kept |
| Manager.StarsWarsManager.AddEpisode | StarsWars.Business/Managers/StarsWarsManager.cs:203-244 | AddDetail on the episodes table |
| Manager.StarsWarsManager.UpdateEpisode | StarsWars.Business/Managers/StarsWarsManager.cs:246-280 | UpdateDetail on the episodes table |
| Manager.StarsWarsManager.RemoveEpisode | StarsWars.Business/Managers/StarsWarsManager.cs:282-309 | RemoveDetail on the episodes table |
| Manager.StarsWarsManager.AddFriend | StarsWars.Business/Managers/StarsWarsManager.cs:311-352 | AddDetail on the friends table |
| Manager.StarsWarsManager.UpdateFriend | StarsWars.Business/Managers/StarsWarsManager.cs:355-388 | UpdateDetail on the friends table |
| Manager.StarsWarsManager.RemoveFriend | StarsWars.Business/Managers/StarsWarsManager.cs:390-415 | RemoveDetail on the friends table |
| Properties.CreateCharacterKeepsValid | StarsWars.Data/StarsWarsDbContext.cs:23-74 | CreateCharacter keeps the schema (keys issued, required names, owners exist) and unique character names |
| Properties.UpdateCharacterKeepsValid | StarsWars.Business/Managers/StarsWarsManager.cs:156-165 | UpdateCharacter keeps the schema and unique character names |
| Properties.RemoveCharacterKeepsValid | StarsWars.Business/Managers/StarsWarsManager.cs:184-193 | RemoveCharacter, with or without cascade, leaves no child without its owner |
| Properties.AddDetailKeepsValid | StarsWars.Business/Managers/StarsWarsManager.cs:209-235 | AddEpisode/AddFriend keep the schema and names unique per owner |
| Properties.UpdateDetailKeepsValid | StarsWars.Business/Managers/StarsWarsManager.cs:254-271 | UpdateEpisode/UpdateFriend keep the schema and names unique per owner |
| Properties.RemoveDetailKeepsValid | StarsWars.Business/Managers/StarsWarsManager.cs:291-300 | RemoveEpisode/RemoveFriend keep the schema |
| Properties.CreateCharacterCountsOneMore | StarsWars.Business/Managers/StarsWarsManager.cs:129-130 | a successful create raises the character count by one |
| Properties.CreateThenGet | StarsWars.Business/Managers/StarsWarsManager.cs:129-130 | the created character is found under its new key, with its name and no episodes or friends |
| Properties.NoneOwned | StarsWars.Data/StarsWarsDbContext.cs:39-40 | no child row points at a key that has no character |
| Properties.CreateCharacterTwiceConflicts | StarsWars.Business/Managers/StarsWarsManager.cs:121-127 | creating the same character again conflicts and changes nothing |
| Properties.UpdateCharacterToOwnNameConflicts | StarsWars.Business/Managers/StarsWarsManager.cs:156-162 | renaming a character to its current name conflicts |
| Properties.UpdateCharacterKeepsChildren | StarsWars.Business/Managers/StarsWarsManager.cs:164-165 | a successful update changes the name and keeps the episodes and friends |
| Properties.UpdateCharacterAdmitsEmptyName | StarsWars.Business/Managers/StarsWarsManager.cs:148-165 | UpdateCharacter stores an empty name that CreateCharacter refuses |
| Properties.UnknownCharacterNotFound | StarsWars.Business/Managers/StarsWarsManager.cs:184-190 | an unknown id is NotFound for get, update and remove, with no change |
| Properties.RemoveCharacterTwiceNotFound | StarsWars.Business/Managers/StarsWarsManager.cs:184-193 | removing a character twice: the second call is NotFound |
| Properties.AddDetailTwiceConflicts | StarsWars.Business/Managers/StarsWarsManager.cs:209-235 | adding the same child to the same owner twice: the second call conflicts |
| Properties.AddDetailUnderOtherOwner | StarsWars.Business/Managers/StarsWarsManager.cs:209-235 | child names are unique per owner: the same name can be added under another character |
| Properties.UpdateDetailKeepsOwner | StarsWars.Business/Managers/StarsWarsManager.cs:254-271 | a successful child update keeps the owner and sets the name |
| Properties.UpdateDetailToOwnNameConflicts | StarsWars.Business/Managers/StarsWarsManager.cs:254-271 | renaming a child to its current name conflicts |
| Properties.RemoveDetailTwiceNotFound | StarsWars.Business/Managers/StarsWarsManager.cs:291-300 | removing a child twice: the second call is NotFound |
| Properties.ScenarioEpisodeOnce | StarsWars.Business/Managers/StarsWarsManager.cs:225-231 | with the console program's sample character "Dart Vader" (key 2) and episode "EMPIRE": the episode is added under key 1, and adding it again is a conflict "Episode already exists" with no change |
| Properties.ScenarioFriendAddRemove | StarsWars.Business/Managers/StarsWarsManager.cs:398-403 | with the console program's sample friend "C-3PO": it is added under key 1 and removed; removing it again is NotFound "Friend not found" |
| Responses.Failed | StarsWars.Services/Controllers/StarsWarsDetailsController.cs:50-72 | the body is the exception's message; 500 exactly when no earlier catch clause matches; 400/404/422 only for ArgumentNull/EntityNotFound/StarsWars |
| StarsWarsController.Wrap32 | StarsWars.Services/Controllers/StarsWarsController.cs:46 | the result is the 32-bit value congruent to the input, and equals it when it fits |
| StarsWarsController.InsertById | StarsWars.Services/Controllers/StarsWarsController.cs:45 | inserting into an id-sorted list keeps it sorted and adds exactly that element |
| StarsWarsController.OrderById | StarsWars.Services/Controllers/StarsWarsController.cs:45 | the result is sorted by id and a permutation of the input |
| StarsWarsController.PageStart | StarsWars.Services/Controllers/StarsWarsController.cs:46 | the skip count is the 32-bit value congruent modulo 2^32 to the true product (page - 1) * pageSize |
| StarsWarsController.Skip | StarsWars.Services/Controllers/StarsWarsController.cs:46 | Skip keeps a suffix: all of the list for a count of zero or less, nothing past its end, otherwise all but the first n elements |
| StarsWarsController.Take | StarsWars.Services/Controllers/StarsWarsController.cs:47 | Take keeps a prefix: nothing for a count of zero or less, the whole list past its end, otherwise the first n elements |
| StarsWarsController.WindowStart | StarsWars.Services/Controllers/StarsWarsController.cs:46 | Skip starts at the count clamped to the list, or at 0 for a count of zero or less |
| StarsWarsController.WindowEnd | StarsWars.Services/Controllers/StarsWarsController.cs:47 | Take ends at most the count past the start, clamped to the list |
| StarsWarsController.SkipTakeIsSlice | StarsWars.Services/Controllers/StarsWarsController.cs:44-47 | Skip then Take is the contiguous slice between those positions |
| StarsWarsController.SliceOfSorted | StarsWars.Services/Controllers/StarsWarsController.cs:44-47 | a slice of a sorted list is sorted and holds only elements of the list |
| StarsWarsController.GetAllCharacters | StarsWars.Services/Controllers/StarsWarsController.cs:38-70 | 200 with paging info (page, pageSize, count of characters) and, for every page and page size, the slice of the id-sorted characters that Skip of the wrapped skip count and Take of pageSize select: sorted, at most pageSize long, each a stored character as loaded; a skip count of zero or less, page 1 or lower included, starts at the first character |
| StarsWarsController.PageStartExact | StarsWars.Services/Controllers/StarsWarsController.cs:46 | whenever (page - 1) * pageSize fits in 32 bits, whatever the signs, the skip count is exactly that product |
| StarsWarsController.PageWindow | StarsWars.Services/Controllers/StarsWarsController.cs:44-47 | whenever (p - 1) * pageSize fits in 32 bits, page p is the slice of the sorted characters from (p - 1) * pageSize, or from the first one when that product is not positive, at most pageSize long |
| StarsWarsController.SevenCharactersFourPerPage | StarsWars.Services.Tests/StarsWarsControllerTest.cs:62-65 | seven characters at four per page: page 1 holds four and reports page 1, size 4, 7 items; page 2 holds the remaining three |
| StarsWarsController.OverflowingPageShowsFirstPage | StarsWars.Services/Controllers/StarsWarsController.cs:46 | page 536870913 at four per page wraps to a negative skip and shows page 1 again |
| StarsWarsController.GetCharacter | StarsWars.Services/Controllers/StarsWarsController.cs:77-97 | 200 with the loaded character if and only if the id is stored, else 404 "Character not found" |
| StarsWarsController.CreateCharacter | StarsWars.Services/Controllers/StarsWarsController.cs:105-138 | 400 exactly for a null request or a null or empty name, changing nothing; 201 exactly for a name no character holds, echoing the request and adding one character under a fresh key; on 201 the database is the manager's CreateCharacter result: episodes and friends unchanged, the character seed one higher, the other seeds unchanged; 422 exactly for a name already held; only 201, 400, 422 occur |
| StarsWarsController.UpdateCharacter | StarsWars.Services/Controllers/StarsWarsController.cs:145-173 | 400 exactly for a null request; 404 exactly for an unknown id; 500 exactly for a held name (StarsWarsException is not caught) or a null name; 200 exactly for a known id with a free non-null name, echoing the request and renaming only that row |
| StarsWarsController.RemoveCharacter | StarsWars.Services/Controllers/StarsWarsController.cs:180-200 | 200 with no body deletes the row; on 200 the database is the manager's RemoveCharacter result: the character's episodes and friends go under cascade delete, every other child row stays as it was, the seeds are unchanged, and without cascade only the character row goes; 404 exactly for an unknown id; 500 exactly when the delete is refused for remaining children |
| StarsWarsController.CreateCharacterTwiceIs422 | StarsWars.Services.Tests/StarsWarsControllerTest.cs:158-164 | a second post of the same character is 422 "Character X already exists" and changes nothing |
| StarsWarsDetailsController.AddAction | StarsWars.Services/Controllers/StarsWarsDetailsController.cs:37-73 | each status exactly characterised: 400 for a null request, 404 for a missing character, 422 for a name already under that character, 500 for a null name, 200 otherwise, adding exactly one row owned by the character; on 200 the database is the manager's AddDetail result: that table's identity seed one higher, the characters, the other table and the other seeds unchanged |
| StarsWarsDetailsController.UpdateAction | StarsWars.Services/Controllers/StarsWarsDetailsController.cs:82-118 | each status exactly characterised: 400 for a null request, 404 for an unknown id, 422 for a name used under the owner, 500 for a null name, 200 otherwise, echoing the request and renaming only that row, keeping its owner; on 200 the database is the manager's UpdateDetail result, with every identity seed unchanged |
| StarsWarsDetailsController.RemoveAction | StarsWars.Services/Controllers/StarsWarsDetailsController.cs:125-146 | 200 with no body if and only if the child exists and belongs to the character, deleting exactly it, the database being the manager's RemoveDetail result with every identity seed unchanged; else 404 with no change |
| StarsWarsDetailsController.AddEpisode | StarsWars.Services/Controllers/StarsWarsDetailsController.cs:37-73 | leaves friends untouched; a duplicate is 422 "Episode already exists" |
| StarsWarsDetailsController.UpdateEpisode | StarsWars.Services/Controllers/StarsWarsDetailsController.cs:82-118 | leaves friends untouched; an unknown id is 404 "Episode X not found" |
| StarsWarsDetailsController.RemoveEpisode | StarsWars.Services/Controllers/StarsWarsDetailsController.cs:125-146 | leaves friends untouched; any failure is 404 "Episode not found" |
| StarsWarsDetailsController.AddFriend | StarsWars.Services/Controllers/StarsWarsDetailsController.cs:155-192 | leaves episodes untouched; a duplicate is 422 "Friend already exists" |
| StarsWarsDetailsController.UpdateFriend | StarsWars.Services/Controllers/StarsWarsDetailsController.cs:201-235 | leaves episodes untouched; an unknown id is 404 "Friend X not found" |
| StarsWarsDetailsController.RemoveFriend | StarsWars.Services/Controllers/StarsWarsDetailsController.cs:242-263 | leaves episodes untouched; any failure is 404 "Friend not found" |
| StarsWarsDetailsController.AddEpisodeTwiceIs422 | StarsWars.Services.Tests/StarsWarsDetailsControllerTest.cs:82-88 | a second post of the same episode to a character is 422 "Episode already exists" |

## Left out

- Logging (log4net) has no effect on results and is not modelled.
- Entity Framework sessions are not modelled: one `DbContext` per call, change tracking, connection strings.
- Connection and storage failures and concurrent requests are not modelled. Each operation is atomic on one database value.
- GetCharacters' `if (characters == null)` branch is not modelled, because `ToList()` never returns null.
- `PagingInfo.TotalPages` is not modelled: it is computed in the response models, and those are not part of this model.
- AutoMapper, routing, Swagger annotations and the dependency-injection setup are not modelled. A request maps field for field onto the entity.
- GetAllCharacters: the route's default `page = 1` is not modelled; the page is always an explicit argument.
- GetAllCharacters: the page size from the `PageSize` application setting is a parameter of the function.
- The request models `CharacterRequest`, `EpisodeRequest` and `FriendRequest` are not part of this model. They are taken to carry an Id and a Name.
- The Episodes and Friends lists on a character posted to CreateCharacter are not modelled. A new character is created without children.
- A character's Episodes and Friends are `IList` collections in the entities; the model holds them as maps from child key to name, so their order is not kept. The back-references `Episode.Character` and `Friend.Character` are not modelled; only the `CharacterId` foreign key is.
- Name equality is exact. The SQL Server collation may compare names case-insensitively.
- Identity keys are unbounded integers. Running out of 32-bit keys is not modelled.
- RemoveCharacter: whether the database cascades the delete to episodes and friends is configured outside the code shown, so it is the parameter `cascadeDelete`.
- UnitOfWork.GetCharacters: the order of an unordered query is up to the database. The model lists characters by ascending key. The controller sorts by id anyway.
- The console test program (Data.ConsoleApp.Test/Program.cs) is not modelled: every call in it is commented out. The scenario lemmas `Properties.ScenarioEpisodeOnce` and `Properties.ScenarioFriendAddRemove` only reuse its sample values (Program.cs:18-24) and the character key 2 of its commented calls.
