/**
 * StarsWarsController: the character actions of the web API. Each action
 * calls the manager and turns its outcome into a status code and a body.
 */
module StarsWarsController {
  import opened Wrappers
  import opened Entities
  import opened Exceptions
  import opened DbContext
  import opened Responses
  import UnitOfWork
  import Properties

  /** C#'s `int`. */
  newtype int32 = x: int | -0x8000_0000 <= x < 0x8000_0000

  /** C#'s unchecked `int` arithmetic: the 32-bit value congruent to `x`. */
  function Wrap32(x: int): (r: int32)
    ensures (r as int - x) % 0x1_0000_0000 == 0
    ensures -0x8000_0000 <= x < 0x8000_0000 ==> r as int == x
  {
    ((x + 0x8000_0000) % 0x1_0000_0000 - 0x8000_0000) as int32
  }

  /** Adding a multiple of 2^32 does not change a value modulo 2^32. */
  lemma {:induction false} CongruentShift(a: int, b: int, q: int)
    requires (a - b) % 0x1_0000_0000 == 0
    ensures (a + 0x1_0000_0000 * q - b) % 0x1_0000_0000 == 0
  {
    var m := (a - b) / 0x1_0000_0000;
    assert a - b == 0x1_0000_0000 * m;
    assert a + 0x1_0000_0000 * q - b == 0x1_0000_0000 * (m + q);
  }

  /**
   * `(page - 1) * _pageSize`, computed in unchecked 32-bit arithmetic: the
   * 32-bit value congruent to the true product.
   */
  function PageStart(page: int32, pageSize: int32): (r: int32)
    ensures (r as int - (page as int - 1) * pageSize as int) % 0x1_0000_0000 == 0
  {
    var p := Wrap32(page as int - 1);
    var product := p as int * pageSize as int;
    var exact := (page as int - 1) * pageSize as int;
    assert (product - exact) % 0x1_0000_0000 == 0 by {
      if page as int - 1 < -0x8000_0000 {
        assert p as int == page as int - 1 + 0x1_0000_0000;
        assert product == exact + 0x1_0000_0000 * pageSize as int;
        CongruentShift(exact, exact, pageSize as int);
      }
    }
    var r := Wrap32(product);
    CongruentShift(r as int - product, 0, 0);
    assert r as int - exact == (r as int - product) + (product - exact);
    SumOfMultiples(r as int - product, product - exact);
    r
  }

  /** The sum of two multiples of 2^32 is one. */
  lemma {:induction false} SumOfMultiples(a: int, b: int)
    requires a % 0x1_0000_0000 == 0 && b % 0x1_0000_0000 == 0
    ensures (a + b) % 0x1_0000_0000 == 0
  {
    assert a == 0x1_0000_0000 * (a / 0x1_0000_0000);
    assert b == 0x1_0000_0000 * (b / 0x1_0000_0000);
    assert a + b == 0x1_0000_0000 * (a / 0x1_0000_0000 + b / 0x1_0000_0000);
  }

  /** Enumerable.Skip: drops the first `n` elements and keeps the rest; a count of zero or less skips nothing. */
  function Skip<T>(xs: seq<T>, n: int): (r: seq<T>)
    ensures |r| == if n <= 0 then |xs| else if n >= |xs| then 0 else |xs| - n
    ensures xs == xs[..|xs| - |r|] + r
  {
    if n <= 0 then xs else if n >= |xs| then [] else xs[n..]
  }

  /** Enumerable.Take: keeps the first `n` elements; a count of zero or less takes nothing. */
  function Take<T>(xs: seq<T>, n: int): (r: seq<T>)
    ensures |r| == if n <= 0 then 0 else if n >= |xs| then |xs| else n
    ensures r == xs[..|r|]
  {
    if n <= 0 then [] else if n >= |xs| then xs else xs[..n]
  }

  predicate SortedById(xs: seq<Character>)
  {
    forall i, j :: 0 <= i < j < |xs| ==> xs[i].id <= xs[j].id
  }

  /** `c` inserted into an id-sorted list, before the first element with an id not below its own. */
  function InsertById(c: Character, xs: seq<Character>): (r: seq<Character>)
    requires SortedById(xs)
    ensures SortedById(r)
    ensures multiset(r) == multiset(xs) + multiset{c}
    ensures |r| == |xs| + 1 && (r[0] == c || (xs != [] && r[0] == xs[0]))
  {
    if xs == [] || c.id <= xs[0].id then [c] + xs
    else
      assert xs == [xs[0]] + xs[1..];
      [xs[0]] + InsertById(c, xs[1..])
  }

  /** `OrderBy(p => p.Id)`: the list sorted by id, a permutation of its input. */
  function OrderById(xs: seq<Character>): (r: seq<Character>)
    ensures SortedById(r)
    ensures multiset(r) == multiset(xs)
  {
    if xs == [] then []
    else
      assert xs == [xs[0]] + xs[1..];
      InsertById(xs[0], OrderById(xs[1..]))
  }

  datatype PagingInfo = PagingInfo(currentPage: int, itemsPerPage: int, totalItems: int)

  /** CharacterResponse of GetAllCharacters: the page and its paging information. */
  datatype CharacterPage = CharacterPage(data: seq<Character>, pagingInfo: PagingInfo)

  /** Where Skip(n) leaves a list of length `len` to start. */
  function WindowStart(len: nat, n: int): (lo: nat)
    ensures lo <= len
    ensures n <= 0 ==> lo == 0
    ensures 0 <= n ==> lo == if n < len then n else len
  {
    if n <= 0 then 0 else if n >= len then len else n
  }

  /** Where Take(k) after Skip(n) ends in a list of length `len`. */
  function WindowEnd(len: nat, n: int, k: int): (hi: nat)
    ensures WindowStart(len, n) <= hi <= len
    ensures hi - WindowStart(len, n) <= if k < 0 then 0 else k
    ensures 0 <= k ==> hi == if WindowStart(len, n) + k < len then WindowStart(len, n) + k else len
  {
    var lo := WindowStart(len, n);
    if k <= 0 then lo else if lo + k >= len then len else lo + k
  }

  /** Skip followed by Take is a contiguous slice. */
  lemma SkipTakeIsSlice<T>(xs: seq<T>, n: int, k: int)
    ensures Take(Skip(xs, n), k) == xs[WindowStart(|xs|, n)..WindowEnd(|xs|, n, k)]
  {
  }

  lemma SliceOfSorted(all: seq<Character>, lo: int, hi: int)
    requires SortedById(all) && 0 <= lo <= hi <= |all|
    ensures SortedById(all[lo..hi])
    ensures forall c :: c in all[lo..hi] ==> c in all
  {
    assert forall i :: 0 <= i < hi - lo ==> all[lo..hi][i] == all[lo + i];
  }

  /**
   * GetAllCharacters: every character, sorted by id, then the page that skips
   * `(page - 1) * pageSize` of them and takes at most `pageSize`; the paging
   * information echoes the page, the page size and the manager's count.
   */
  function GetAllCharacters(s: Store, page: int32, pageSize: int32): (r: Response<CharacterPage>)
    ensures r.status == OK && r.body.Data?
    ensures r.body.value.pagingInfo == PagingInfo(page as int, pageSize as int, |s.characters|)
    ensures SortedById(r.body.value.data)
    ensures |r.body.value.data| <= if pageSize < 0 then 0 else pageSize as int
    ensures forall c :: c in r.body.value.data ==> c.id in s.characters && c == Load(s, c.id)
    ensures var all := OrderById(UnitOfWork.GetCharacters(s));
      var n := PageStart(page, pageSize) as int;
      r.body.value.data == all[WindowStart(|all|, n)..WindowEnd(|all|, n, pageSize as int)]
  {
    var listed := UnitOfWork.GetCharacters(s);
    var all := OrderById(listed);
    var n := PageStart(page, pageSize) as int;
    var data := Take(Skip(all, n), pageSize as int);
    SkipTakeIsSlice(all, n, pageSize as int);
    SliceOfSorted(all, WindowStart(|all|, n), WindowEnd(|all|, n, pageSize as int));
    forall c | c in data ensures c in listed {
      assert c in multiset(all);
    }
    Response(OK, Data(CharacterPage(data, PagingInfo(page as int, pageSize as int, |s.characters|))))
  }

  /** Two 32-bit values congruent modulo 2^32 are equal. */
  lemma {:induction false} CongruentInRange(a: int, b: int)
    requires -0x8000_0000 <= a < 0x8000_0000 && -0x8000_0000 <= b < 0x8000_0000
    requires (a - b) % 0x1_0000_0000 == 0
    ensures a == b
  {
    var q := (a - b) / 0x1_0000_0000;
    assert a - b == 0x1_0000_0000 * q;
    assert -1 < q < 1;
  }

  /** Without overflow the skip count is the mathematical product, whatever the signs. */
  lemma PageStartExact(page: int32, pageSize: int32)
    requires -0x8000_0000 <= (page as int - 1) * pageSize as int < 0x8000_0000
    ensures PageStart(page, pageSize) as int == (page as int - 1) * pageSize as int
  {
    CongruentInRange(PageStart(page, pageSize) as int, (page as int - 1) * pageSize as int);
  }

  /**
   * Without overflow, a page is the slice of the id-sorted characters that
   * starts at `(page - 1) * pageSize`, or at the first character when that
   * product is not positive, and holds at most `pageSize` of them.
   */
  lemma PageWindow(s: Store, page: int32, pageSize: int32)
    requires -0x8000_0000 <= (page as int - 1) * pageSize as int < 0x8000_0000
    ensures var all := OrderById(UnitOfWork.GetCharacters(s));
      var start := (page as int - 1) * pageSize as int;
      GetAllCharacters(s, page, pageSize).body.value.data ==
        all[WindowStart(|all|, start)..WindowEnd(|all|, start, pageSize as int)]
  {
    var all := OrderById(UnitOfWork.GetCharacters(s));
    var n := PageStart(page, pageSize) as int;
    PageStartExact(page, pageSize);
  }

  /**
   * Seven characters at four per page: the first page holds four and reports
   * page 1, size 4, 7 items; the second page holds the last three.
   */
  lemma SevenCharactersFourPerPage(s: Store)
    requires |s.characters| == 7
    ensures var r := GetAllCharacters(s, 1, 4);
      |r.body.value.data| == 4 && r.body.value.pagingInfo == PagingInfo(1, 4, 7)
    ensures |GetAllCharacters(s, 2, 4).body.value.data| == 3
  {
    var all := OrderById(UnitOfWork.GetCharacters(s));
    assert |all| == |multiset(all)| == 7;
  }

  /**
   * As written, the skip count wraps: at four per page, page 536870913 skips
   * -2147483648 items, that is none, and shows the first page again.
   */
  lemma OverflowingPageShowsFirstPage(s: Store)
    ensures PageStart(536870913, 4) == -0x8000_0000
    ensures GetAllCharacters(s, 536870913, 4).body.value.data == GetAllCharacters(s, 1, 4).body.value.data
  {
    assert Wrap32(536870912 * 4) == -0x8000_0000;
    assert PageStart(1, 4) == 0;
  }

  const GetCatches := Catches(argumentNull := false, notFound := true, starsWars := false)
  const CreateCatches := Catches(argumentNull := true, notFound := true, starsWars := true)
  const UpdateCatches := Catches(argumentNull := true, notFound := true, starsWars := false)

  /** GetCharacter: 200 with the character, or 404 with the manager's message. */
  function GetCharacter(s: Store, id: int): (r: Response<Character>)
    ensures r.status in {OK, NOT_FOUND}
    ensures r.status == OK <==> id in s.characters
    ensures r.status == OK ==> r.body == Data(Load(s, id))
    ensures r.status == NOT_FOUND ==> r.body == Message("Character not found")
  {
    var o := UnitOfWork.GetCharacter(s, id);
    if o.Ok? then Response(OK, Data(o.value)) else Failed(o, GetCatches)
  }

  /**
   * CreateCharacter: a null request is 400 and the manager is not called;
   * success is 201 echoing the request; a taken name is 422 with the
   * manager's message.
   */
  function CreateCharacter(s: Store, request: Option<CharacterData>): (r: Exchange<CharacterData>)
    ensures r.response.status in {CREATED, BAD_REQUEST, UNPROCESSABLE_ENTITY}
    ensures request.None? ==>
      r == Exchange(Response(BAD_REQUEST, Message(ArgumentNullMessage(NullRequest))), s)
    ensures r.response.status == BAD_REQUEST <==> request.None? || IsNullOrEmpty(request.value.name)
    ensures request.Some? && IsNullOrEmpty(request.value.name) ==>
      r == Exchange(Response(BAD_REQUEST, Message(ArgumentNullMessage("Name is empty"))), s)
    ensures r.response.status == CREATED <==>
      request.Some? && !IsNullOrEmpty(request.value.name) && !UnitOfWork.CharacterNamed(s, request.value.name)
    ensures r.response.status == CREATED && WellFormed(s) ==>
      exists id :: (id !in s.characters &&
        r.store.characters == s.characters[id := CharacterRow(request.value.name)])
    ensures r.response.status == CREATED ==>
      && r.store == UnitOfWork.CreateCharacter(s, request).store
      && r.store.episodes == s.episodes && r.store.friends == s.friends
      && r.store.characterSeed == s.characterSeed + 1
      && r.store.episodeSeed == s.episodeSeed && r.store.friendSeed == s.friendSeed
    ensures r.response.status != CREATED ==> r.store == s
    ensures r.response.status == CREATED ==>
      request.Some? && r.response.body == Data(request.value) &&
      (WellFormed(s) ==> |r.store.characters| == |s.characters| + 1)
    ensures r.response.status == UNPROCESSABLE_ENTITY <==>
      request.Some? && !IsNullOrEmpty(request.value.name) && UnitOfWork.CharacterNamed(s, request.value.name)
    ensures r.response.status == UNPROCESSABLE_ENTITY ==>
      r.response.body == Message("Character " + NameText(request.value.name) + " already exists")
  {
    if request.None? then Exchange(Failed<CharacterData, int>(InvalidArgument(NullRequest), CreateCatches), s)
    else
      var step := UnitOfWork.CreateCharacter(s, request);
      if step.outcome.Ok? then
        assert WellFormed(s) ==> step.outcome.value !in s.characters;
        Exchange(Response(CREATED, Data(request.value)), step.store)
      else Exchange(Failed(step.outcome, CreateCatches), step.store)
  }

  /**
   * UpdateCharacter: a null request is 400; an unknown id is 404; success is
   * 200 echoing the request. There is no StarsWarsException clause, so a
   * name conflict falls through to 500.
   */
  function UpdateCharacter(s: Store, request: Option<CharacterData>): (r: Exchange<CharacterData>)
    ensures r.response.status in {OK, BAD_REQUEST, NOT_FOUND, INTERNAL_SERVER_ERROR}
    ensures request.None? ==>
      r == Exchange(Response(BAD_REQUEST, Message(ArgumentNullMessage(NullRequest))), s)
    ensures r.response.status == BAD_REQUEST <==> request.None?
    ensures r.response.status != OK ==> r.store == s
    ensures r.response.status == OK <==>
      request.Some? && request.value.id in s.characters && !UnitOfWork.CharacterNamed(s, request.value.name)
      && request.value.name.Some?
    ensures r.response.status == INTERNAL_SERVER_ERROR <==>
      request.Some? && request.value.id in s.characters
      && (UnitOfWork.CharacterNamed(s, request.value.name) || request.value.name.None?)
    ensures r.response.status == OK ==>
      && request.Some? && r.response.body == Data(request.value)
      && r.store == s.(characters := s.characters[request.value.id := CharacterRow(request.value.name)])
    ensures r.response.status == NOT_FOUND <==> request.Some? && request.value.id !in s.characters
    ensures r.response.status == NOT_FOUND ==>
      r.response.body == Message("Character " + NameText(request.value.name) + " not found")
    ensures request.Some? && request.value.id in s.characters && UnitOfWork.CharacterNamed(s, request.value.name) ==>
      r.response == Response(INTERNAL_SERVER_ERROR, Message("Character " + NameText(request.value.name) + " already exists"))
  {
    if request.None? then Exchange(Failed<CharacterData, ()>(InvalidArgument(NullRequest), UpdateCatches), s)
    else
      var step := UnitOfWork.UpdateCharacter(s, request);
      if step.outcome.Ok? then Exchange(Response(OK, Data(request.value)), step.store)
      else Exchange(Failed(step.outcome, UpdateCatches), step.store)
  }

  /**
   * RemoveCharacter: 200 with no body, 404 for an unknown id, and 500 only
   * when the database refuses to delete a character that still has children.
   */
  function RemoveCharacter(s: Store, id: int, cascadeDelete: bool): (r: Exchange<()>)
    ensures r.response.status in {OK, NOT_FOUND, INTERNAL_SERVER_ERROR}
    ensures r.response.status != OK ==> r.store == s
    ensures r.response.status == OK ==> r.response.body == Empty && r.store.characters == s.characters - {id}
    ensures r.response.status == OK ==>
      && r.store == UnitOfWork.RemoveCharacter(s, id, cascadeDelete).store
      && (forall k :: k in r.store.episodes <==> k in s.episodes && s.episodes[k].characterId != id)
      && (forall k :: k in r.store.friends <==> k in s.friends && s.friends[k].characterId != id)
      && (forall k :: k in r.store.episodes ==> r.store.episodes[k] == s.episodes[k])
      && (forall k :: k in r.store.friends ==> r.store.friends[k] == s.friends[k])
      && r.store.characterSeed == s.characterSeed
      && r.store.episodeSeed == s.episodeSeed && r.store.friendSeed == s.friendSeed
    ensures r.response.status == OK && !cascadeDelete ==>
      r.store == s.(characters := s.characters - {id})
    ensures r.response.status == NOT_FOUND <==> id !in s.characters
    ensures r.response.status == NOT_FOUND ==> r.response.body == Message("Character not found")
    ensures r.response.status == INTERNAL_SERVER_ERROR <==>
      id in s.characters && !cascadeDelete && UnitOfWork.OwnsDetails(s, id)
  {
    var step := UnitOfWork.RemoveCharacter(s, id, cascadeDelete);
    if step.outcome.Ok? then Exchange(Response(OK, Empty), step.store)
    else Exchange(Failed(step.outcome, GetCatches), step.store)
  }

  /**
   * Posting the same character twice: once the first post is 201, the second
   * is 422 with "Character <name> already exists" and changes nothing.
   */
  lemma {:induction false} CreateCharacterTwiceIs422(s: Store, request: Option<CharacterData>)
    requires WellFormed(s)
    ensures var first := CreateCharacter(s, request);
      first.response.status == CREATED ==>
        CreateCharacter(first.store, request) ==
          Exchange(Response(UNPROCESSABLE_ENTITY,
                            Message("Character " + NameText(request.value.name) + " already exists")),
                   first.store)
  {
    Properties.CreateCharacterTwiceConflicts(s, request);
  }
}
