/** The user router: lookup, create, update and delete over the loaded user
    collection. Loading and saving the JSON file are left to the caller: a handler
    gets the collection as loaded and answers with what it would save. */
module Users {
  import opened Common
  import JsArray

  datatype User = User(id: int, name: string, email: string)

  // ---------------------------------------------------------------------------
  // Facts about a collection

  predicate HasId(s: seq<User>, id: int) {
    exists i :: 0 <= i < |s| && s[i].id == id
  }

  predicate EmailTaken(s: seq<User>, email: string) {
    exists i :: 0 <= i < |s| && s[i].email == email
  }

  /** Some record other than those with id `id` has email `email`. */
  predicate EmailTakenByOther(s: seq<User>, email: string, id: int) {
    exists i :: 0 <= i < |s| && s[i].email == email && s[i].id != id
  }

  /** The natural key: no two users share an email. */
  predicate EmailsUnique(s: seq<User>) {
    forall i, j :: 0 <= i < j < |s| ==> s[i].email != s[j].email
  }

  predicate IdsUnique(s: seq<User>) {
    forall i, j :: 0 <= i < j < |s| ==> s[i].id != s[j].id
  }

  // ---------------------------------------------------------------------------
  // The callbacks the handlers pass to find, findIndex and filter

  function WithId(id: int): User -> bool { (u: User) => u.id == id }
  function WithoutId(id: int): User -> bool { (u: User) => u.id != id }
  function WithEmail(email: string): User -> bool { (u: User) => u.email == email }
  function EmailClash(email: string, id: int): User -> bool {
    (u: User) => u.email == email && u.id != id
  }

  /** `users.findIndex(u => u.id === id)`: the first position holding that id, or -1. */
  function IndexOfId(s: seq<User>, id: int): (k: int)
    ensures -1 <= k < |s|
    ensures k == -1 <==> !HasId(s, id)
    ensures 0 <= k ==> s[k].id == id && forall j :: 0 <= j < k ==> s[j].id != id
  {
    JsArray.FindIndex(s, WithId(id))
  }

  /** The first position holding an id is the only position with both properties. */
  lemma FirstIndexUnique(s: seq<User>, id: int, k: int)
    requires 0 <= k < |s| && s[k].id == id
    requires forall j :: 0 <= j < k ==> s[j].id != id
    ensures IndexOfId(s, id) == k
  {
    assert HasId(s, id);
  }

  // ---------------------------------------------------------------------------
  // GET /:id

  /** The first user with the requested id, or NotFound when none has it. */
  function GetById(s: seq<User>, id: int): (r: Lookup<User>)
    ensures r.status == Ok || r.status == NotFound
    ensures r.status == NotFound <==> !HasId(s, id)
    ensures r.status == NotFound ==> r.record == None
    ensures r.status == Ok ==> r.record == Some(s[IndexOfId(s, id)])
  {
    var found := JsArray.Find(s, WithId(id));
    if found.None? then Lookup(NotFound, None) else Lookup(Ok, found)
  }

  // ---------------------------------------------------------------------------
  // POST /

  /** Creating with an email already in the collection is a conflict that saves
      nothing; otherwise exactly one record is appended and returned. */
  function CreateOutcome(s: seq<User>, id: int, name: string, email: string): (r: Write<User>)
    ensures r.status == Created || r.status == Conflict
    ensures r.status == Conflict <==> EmailTaken(s, email)
    ensures r.status == Conflict ==> r.items == s && r.record == None
    ensures r.status == Created ==>
      && r.record == Some(User(id, name, email))
      && |r.items| == |s| + 1
      && r.items[|s|] == User(id, name, email)
      && forall i :: 0 <= i < |s| ==> r.items[i] == s[i]
  {
    if JsArray.Find(s, WithEmail(email)).Some? then
      Write(Conflict, None, s)
    else
      var u := User(id, name, email);
      Write(Created, Some(u), s + [u])
  }

  lemma CreateKeepsEmailsUnique(s: seq<User>, id: int, name: string, email: string)
    requires EmailsUnique(s)
    ensures EmailsUnique(CreateOutcome(s, id, name, email).items)
  {
    var r := CreateOutcome(s, id, name, email);
    if r.status == Created {
      forall i, j | 0 <= i < j < |r.items| ensures r.items[i].email != r.items[j].email {
        if j == |s| {
          assert r.items[i] == s[i];
        }
      }
    }
  }

  /** Ids stay unique when the id handed to the create is not in use. */
  lemma CreateKeepsIdsUnique(s: seq<User>, id: int, name: string, email: string)
    requires IdsUnique(s) && !HasId(s, id)
    ensures IdsUnique(CreateOutcome(s, id, name, email).items)
  {
    var r := CreateOutcome(s, id, name, email);
    if r.status == Created {
      forall i, j | 0 <= i < j < |r.items| ensures r.items[i].id != r.items[j].id {
        if j == |s| {
          assert r.items[i] == s[i];
        }
      }
    }
  }

  /** Creating with an unused id and then getting that id yields the created record. */
  lemma CreateThenGet(s: seq<User>, id: int, name: string, email: string)
    requires !HasId(s, id) && !EmailTaken(s, email)
    ensures var r := CreateOutcome(s, id, name, email);
      GetById(r.items, id) == Lookup(Ok, Some(User(id, name, email)))
  {
    var r := CreateOutcome(s, id, name, email);
    FirstIndexUnique(r.items, id, |s|);
  }

  // ---------------------------------------------------------------------------
  // PUT /:id

  /** Updating a missing id is NotFound; taking an email another id holds is a
      Conflict; both save nothing. Otherwise only name and email of the first record
      with that id change. */
  function UpdateOutcome(s: seq<User>, id: int, name: string, email: string): (r: Write<User>)
    ensures r.status == Ok || r.status == NotFound || r.status == Conflict
    ensures r.status == NotFound <==> !HasId(s, id)
    ensures r.status == Conflict <==> HasId(s, id) && EmailTakenByOther(s, email, id)
    ensures r.status != Ok ==> r.items == s && r.record == None
    ensures r.status == Ok ==>
      var k := IndexOfId(s, id);
      && |r.items| == |s|
      && r.items[k] == User(s[k].id, name, email)
      && r.record == Some(r.items[k])
      && forall j :: 0 <= j < |s| && j != k ==> r.items[j] == s[j]
  {
    var k := JsArray.FindIndex(s, WithId(id));
    if k == -1 then
      Write(NotFound, None, s)
    else if JsArray.Find(s, EmailClash(email, id)).Some? then
      Write(Conflict, None, s)
    else
      var items := s[k := s[k].(name := name, email := email)];
      Write(Ok, Some(items[k]), items)
  }

  /** With unique ids, a successful update keeps the emails unique. */
  lemma UpdateKeepsEmailsUnique(s: seq<User>, id: int, name: string, email: string)
    requires EmailsUnique(s) && IdsUnique(s)
    ensures EmailsUnique(UpdateOutcome(s, id, name, email).items)
  {
    var r := UpdateOutcome(s, id, name, email);
    if r.status == Ok {
      var k := IndexOfId(s, id);
      forall i, j | 0 <= i < j < |r.items| ensures r.items[i].email != r.items[j].email {
        if i == k {
          assert s[j].id != id;
        } else if j == k {
          assert s[i].id != id;
        }
      }
    }
  }

  lemma UpdateKeepsIdsUnique(s: seq<User>, id: int, name: string, email: string)
    requires IdsUnique(s)
    ensures IdsUnique(UpdateOutcome(s, id, name, email).items)
  {
    var r := UpdateOutcome(s, id, name, email);
    if r.status == Ok {
      var k := IndexOfId(s, id);
      forall i, j | 0 <= i < j < |r.items| ensures r.items[i].id != r.items[j].id {
        if i == k || j == k {
          assert r.items[k].id == s[k].id;
        }
      }
    }
  }

  /** Without unique ids the email check lets a duplicate email in: the check skips
      every record carrying the id, not only the one that is rewritten. */
  lemma UpdateWithRepeatedIdDuplicatesEmail()
    ensures var s := [User(5, "a", "a@x"), User(5, "b", "b@x")];
      && EmailsUnique(s)
      && UpdateOutcome(s, 5, "c", "b@x").status == Ok
      && !EmailsUnique(UpdateOutcome(s, 5, "c", "b@x").items)
  {
    var s := [User(5, "a", "a@x"), User(5, "b", "b@x")];
    FirstIndexUnique(s, 5, 0);
    var r := UpdateOutcome(s, 5, "c", "b@x");
    assert r.items[0].email == r.items[1].email;
  }

  /** Keeping the record's own email is not a conflict. */
  lemma UpdateKeepingOwnEmail(s: seq<User>, id: int, name: string)
    requires EmailsUnique(s) && HasId(s, id)
    ensures UpdateOutcome(s, id, name, s[IndexOfId(s, id)].email).status == Ok
  {
    var k := IndexOfId(s, id);
    forall i | 0 <= i < |s| && i != k ensures s[i].email != s[k].email {
    }
    assert !EmailTakenByOther(s, s[k].email, id);
  }

  /** Repeating a successful update saves the same collection and answers the same. */
  lemma UpdateIdempotent(s: seq<User>, id: int, name: string, email: string)
    requires UpdateOutcome(s, id, name, email).status == Ok
    ensures var r := UpdateOutcome(s, id, name, email);
      UpdateOutcome(r.items, id, name, email) == r
  {
    var r := UpdateOutcome(s, id, name, email);
    var k := IndexOfId(s, id);
    FirstIndexUnique(r.items, id, k);
    forall i | 0 <= i < |r.items| && i != k ensures r.items[i] == s[i] {
    }
    assert !EmailTakenByOther(r.items, email, id);
    var r2 := UpdateOutcome(r.items, id, name, email);
    assert r2.items == r.items;
  }

  // ---------------------------------------------------------------------------
  // DELETE /:id

  /** Deleting a missing id is NotFound and saves nothing; otherwise every record with
      that id is removed and every other record is kept, as often as it occurred. */
  function DeleteById(s: seq<User>, id: int): (r: Write<User>)
    ensures r.status == Ok || r.status == NotFound
    ensures r.status == NotFound <==> !HasId(s, id)
    ensures r.record == None
    ensures r.status == NotFound ==> r.items == s
    ensures r.status == Ok ==> !HasId(r.items, id) && |r.items| < |s|
    ensures r.status == Ok ==> forall x :: x in r.items ==> x in s
    ensures r.status == Ok ==> forall x :: x in s && x.id != id ==> multiset(r.items)[x] == multiset(s)[x]
  {
    if JsArray.Find(s, WithId(id)).None? then
      Write(NotFound, None, s)
    else
      var kept := JsArray.Filter(s, WithoutId(id));
      JsArray.FilterShrinks(s, WithoutId(id), IndexOfId(s, id));
      assert forall i :: 0 <= i < |kept| ==> kept[i] in kept;
      assert forall x :: x in s ==> multiset(kept)[x] == if WithoutId(id)(x) then multiset(s)[x] else 0 by {
        forall x | x in s {
          JsArray.FilterCount(s, WithoutId(id), x);
        }
      }
      Write(Ok, None, kept)
  }

  /** What a delete saves is the collection with every record of the id dropped,
      whether or not the id was found. */
  lemma DeleteItemsAreFiltered(s: seq<User>, id: int)
    ensures DeleteById(s, id).items == JsArray.Filter(s, WithoutId(id))
  {
    if !HasId(s, id) {
      JsArray.FilterAll(s, WithoutId(id));
    }
  }

  /** A delete keeps every other user exactly where its neighbours leave it: the
      users before a given user, that user unless it has the id, and the users after
      it, each part filtered on its own. */
  lemma DeleteKeepsOrder(before: seq<User>, x: User, after: seq<User>, id: int)
    ensures DeleteById(before + [x] + after, id).items ==
      DeleteById(before, id).items + (if x.id == id then [] else [x]) + DeleteById(after, id).items
  {
    var p := WithoutId(id);
    DeleteItemsAreFiltered(before + [x] + after, id);
    DeleteItemsAreFiltered(before, id);
    DeleteItemsAreFiltered(after, id);
    JsArray.FilterConcat(before + [x], after, p);
    JsArray.FilterConcat(before, [x], p);
    assert JsArray.Filter([x], p) == (if x.id == id then [] else [x]) by {
      assert [x][1..] == [];
    }
  }

  /** Deleting keeps the emails unique. */
  lemma DeleteKeepsEmailsUnique(s: seq<User>, id: int)
    requires EmailsUnique(s)
    ensures EmailsUnique(DeleteById(s, id).items)
  {
    if HasId(s, id) {
      var r := DeleteById(s, id).items;
      var distinct := (a: User, b: User) => a.email != b.email;
      forall i, j | 0 <= i < j < |s| ensures distinct(s[i], s[j]) {
      }
      JsArray.FilterKeepsPairwise(s, WithoutId(id), distinct);
      forall i, j | 0 <= i < j < |r| ensures r[i].email != r[j].email {
        assert distinct(r[i], r[j]);
      }
    }
  }

  lemma DeleteKeepsIdsUnique(s: seq<User>, id: int)
    requires IdsUnique(s)
    ensures IdsUnique(DeleteById(s, id).items)
  {
    if HasId(s, id) {
      var r := DeleteById(s, id).items;
      var distinct := (a: User, b: User) => a.id != b.id;
      forall i, j | 0 <= i < j < |s| ensures distinct(s[i], s[j]) {
      }
      JsArray.FilterKeepsPairwise(s, WithoutId(id), distinct);
      forall i, j | 0 <= i < j < |r| ensures r[i].id != r[j].id {
        assert distinct(r[i], r[j]);
      }
    }
  }

  /** After a successful delete the id is gone: getting it is NotFound. */
  lemma DeleteThenGet(s: seq<User>, id: int)
    ensures GetById(DeleteById(s, id).items, id).status == NotFound
  {
  }

  // ---------------------------------------------------------------------------
  // The loaded user array, which POST and PUT change in place

  class UserList {
    var users: seq<User>

    /** The collection as `getUsers` loaded it. */
    constructor (loaded: seq<User>)
      ensures users == loaded
    {
      users := loaded;
    }

    /** POST /: rejects a taken email, else pushes the new record. */
    method Create(id: int, name: string, email: string) returns (status: Status, created: Option<User>)
      modifies this
      ensures Write(status, created, users) == CreateOutcome(old(users), id, name, email)
    {
      var existing := JsArray.Find(users, WithEmail(email));
      if existing.Some? {
        return Conflict, None;
      }
      var u := User(id, name, email);
      users := users + [u];
      return Created, Some(u);
    }

    /** PUT /:id: finds the index, rejects an email another id holds, else assigns the
        record's name and email in place. */
    method Update(id: int, name: string, email: string) returns (status: Status, updated: Option<User>)
      modifies this
      ensures Write(status, updated, users) == UpdateOutcome(old(users), id, name, email)
    {
      var k := JsArray.FindIndex(users, WithId(id));
      if k == -1 {
        return NotFound, None;
      }
      var existing := JsArray.Find(users, EmailClash(email, id));
      if existing.Some? {
        return Conflict, None;
      }
      users := users[k := users[k].(name := name)];
      users := users[k := users[k].(email := email)];
      return Ok, Some(users[k]);
    }
  }
}
