/**
 * The in-memory user store (app/repositories/user_repository.py).
 *
 * `Table` is the store's state as a value, with the meaning of each
 * operation as a function on it; `UserRepository` is the object the service
 * holds, whose methods run the source's loops and are proved to compute
 * those functions.  Python dictionaries iterate in insertion order and ids
 * are inserted as str(1), str(2), ..., so a scan over `users.values()` is a
 * scan over the ids str(1) .. str(counter).
 */
module Repository {
  import opened Wrappers
  import opened Decimal
  import opened Models

  /** The id `create` assigns when the counter reaches k: `str(k)`. */
  function IdFor(k: nat): string
  {
    Show(k)
  }

  datatype Table = Table(users: map<string, UserInDB>, counter: nat)
  {
    /**
     * The store invariant: ids str(1) .. str(counter) are exactly the keys,
     * every key is its record's id, and no two records share an e-mail.
     */
    ghost predicate Valid()
    {
      IdsPresent() && KeysAreIds() && KeysNumbered() && EmailsUnique() && |users| == counter
    }

    /** Every id str(1) .. str(counter) is a key. */
    ghost predicate IdsPresent()
    {
      forall k: nat :: 1 <= k <= counter ==> IdFor(k) in users
    }

    /** Every record is stored under its own id. */
    ghost predicate KeysAreIds()
    {
      forall id :: id in users ==> users[id].id == id
    }

    /** Every key is str(k) for some 1 <= k <= counter. */
    ghost predicate KeysNumbered()
    {
      forall id :: id in users ==> 1 <= Parse(id) <= counter && Show(Parse(id)) == id
    }

    /** No two records share an e-mail. */
    ghost predicate EmailsUnique()
    {
      forall a, b :: a in users && b in users && users[a].email == users[b].email ==> a == b
    }

    /** The first record, in insertion order from id str(k + 1) on, whose e-mail is `email`. */
    function ScanEmail(email: string, k: nat): Option<UserInDB>
      decreases counter - k
    {
      if k >= counter then None
      else if IdFor(k + 1) in users && users[IdFor(k + 1)].email == email then Some(users[IdFor(k + 1)])
      else ScanEmail(email, k + 1)
    }

    /** `get_by_email`. */
    function GetByEmail(email: string): Option<UserInDB>
    {
      ScanEmail(email, 0)
    }

    /** `get_by_id`: `users.get(user_id)`. */
    function GetById(id: string): Option<UserInDB>
    {
      if id in users then Some(users[id]) else None
    }

    /** The records with ids str(1) .. str(k), in insertion order. */
    function Listing(k: nat): seq<UserInDB>
      requires IdsPresent() && k <= counter
    {
      if k == 0 then [] else Listing(k - 1) + [users[IdFor(k)]]
    }

    /** `get_all`: `list(users.values())`. */
    function GetAll(): seq<UserInDB>
      requires Valid()
    {
      Listing(counter)
    }

    /**
     * `create`: None and no change if the e-mail is taken; otherwise the
     * counter goes up by one and the record is stored under id str(counter).
     */
    function Create(data: UserCreate): (Option<UserInDB>, Table)
    {
      if GetByEmail(data.email).Some? then (None, this)
      else
        var id := IdFor(counter + 1);
        var user := UserInDB(id, data.email, data.name, data.password);
        (Some(user), Table(users[id := user], counter + 1))
    }
  }

  /** The store `__init__` builds. */
  const EmptyTable := Table(map[], 0)

  lemma EmptyTableValid()
    ensures EmptyTable.Valid()
    ensures EmptyTable.GetAll() == []
  {
  }

  lemma {:induction false} ScanEmailSpec(t: Table, email: string, k: nat)
    requires t.IdsPresent() && t.KeysAreIds() && k <= t.counter
    ensures t.ScanEmail(email, k).None? <==>
              forall j :: k < j <= t.counter ==> t.users[IdFor(j)].email != email
    ensures t.ScanEmail(email, k).Some? ==>
              var u := t.ScanEmail(email, k).value;
              u.id in t.users && t.users[u.id] == u && u.email == email
    decreases t.counter - k
  {
    if k < t.counter {
      ScanEmailSpec(t, email, k + 1);
      if t.users[IdFor(k + 1)].email != email {
        assert t.ScanEmail(email, k) == t.ScanEmail(email, k + 1);
      }
    }
  }

  /** `get_by_email` returns None iff no stored record has that e-mail, else a stored record with it. */
  lemma GetByEmailSpec(t: Table, email: string)
    requires t.Valid()
    ensures t.GetByEmail(email).None? <==> forall id :: id in t.users ==> t.users[id].email != email
    ensures t.GetByEmail(email).Some? ==>
              var u := t.GetByEmail(email).value;
              u.id in t.users && t.users[u.id] == u && u.email == email
  {
    ScanEmailSpec(t, email, 0);
    if t.GetByEmail(email).None? {
      forall id | id in t.users
        ensures t.users[id].email != email
      {
        assert IdFor(Parse(id)) == id;
      }
    }
  }

  /** By e-mail uniqueness, every stored record is what `get_by_email` finds for its e-mail. */
  lemma GetByEmailFindsRecord(t: Table, id: string)
    requires t.Valid() && id in t.users
    ensures t.GetByEmail(t.users[id].email) == Some(t.users[id])
  {
    GetByEmailSpec(t, t.users[id].email);
  }

  lemma GetByIdSpec(t: Table, id: string)
    requires t.Valid()
    ensures t.GetById(id).Some? <==> id in t.users
    ensures t.GetById(id).Some? ==> t.GetById(id).value.id == id
  {
  }

  lemma {:induction false} ListingSpec(t: Table, k: nat)
    requires t.IdsPresent() && k <= t.counter
    ensures |t.Listing(k)| == k
    ensures forall i :: 0 <= i < k ==> t.Listing(k)[i] == t.users[IdFor(i + 1)]
  {
    if k > 0 {
      ListingSpec(t, k - 1);
    }
  }

  /**
   * `get_all` returns exactly the stored records, one per successful
   * `create`, in insertion (id) order.
   */
  lemma GetAllSpec(t: Table)
    requires t.Valid()
    ensures |t.GetAll()| == t.counter == |t.users|
    ensures forall i :: 0 <= i < |t.GetAll()| ==> t.GetAll()[i] == t.users[IdFor(i + 1)]
    ensures forall u :: u in t.GetAll() <==> u in t.users.Values
  {
    ListingSpec(t, t.counter);
    var all := t.GetAll();
    forall u | u in t.users.Values
      ensures u in all
    {
      var id :| id in t.users && t.users[id] == u;
      assert all[Parse(id) - 1] == u;
    }
  }

  /** A new id str(counter + 1) is never already a key. */
  lemma NextIdFresh(t: Table)
    requires t.Valid()
    ensures IdFor(t.counter + 1) !in t.users
  {
    ParseShow(t.counter + 1);
  }

  /** `create` with an e-mail already stored returns None and changes neither the records nor the counter. */
  lemma CreateRejectsDuplicate(t: Table, data: UserCreate, id: string)
    requires t.Valid() && id in t.users && t.users[id].email == data.email
    ensures t.Create(data) == (None, t)
  {
    GetByEmailSpec(t, data.email);
  }

  /**
   * `create` with a new e-mail: the counter goes up by exactly one, the
   * record gets id str(new counter), copies name, e-mail and password, is
   * stored under its own id, is what both lookups now return, and is
   * appended to `get_all`; nothing else changes.
   */
  lemma CreateInsertsNew(t: Table, data: UserCreate)
    requires t.Valid()
    requires forall id :: id in t.users ==> t.users[id].email != data.email
    ensures var (r, t') := t.Create(data);
      && r.Some?
      && r.value == UserInDB(IdFor(t.counter + 1), data.email, data.name, data.password)
      && r.value.id !in t.users
      && t'.counter == t.counter + 1
      && t'.users == t.users[r.value.id := r.value]
      && t'.Valid()
      && t'.GetById(r.value.id) == Some(r.value)
      && t'.GetByEmail(data.email) == r
      && t'.GetAll() == t.GetAll() + [r.value]
  {
    GetByEmailSpec(t, data.email);
    NextIdFresh(t);
    var user := UserInDB(IdFor(t.counter + 1), data.email, data.name, data.password);
    var t' := Table(t.users[user.id := user], t.counter + 1);
    assert t.Create(data) == (Some(user), t');
    InsertKeepsValid(t, user);
    GetByEmailFindsRecord(t', user.id);
    InsertAppends(t, user);
  }

  /** Inserting under id str(counter + 1) appends the record to `get_all`. */
  lemma InsertAppends(t: Table, user: UserInDB)
    requires t.Valid()
    requires user.id == IdFor(t.counter + 1)
    requires Table(t.users[user.id := user], t.counter + 1).Valid()
    ensures Table(t.users[user.id := user], t.counter + 1).GetAll() == t.GetAll() + [user]
  {
    ListingUnchanged(t, Table(t.users[user.id := user], t.counter + 1), t.counter);
  }

  /** Listings up to k agree in two stores that agree on ids str(1) .. str(k). */
  lemma {:induction false} ListingUnchanged(t: Table, t': Table, k: nat)
    requires t.IdsPresent() && t'.IdsPresent() && k <= t.counter && k <= t'.counter
    requires forall j :: 1 <= j <= k ==> t.users[IdFor(j)] == t'.users[IdFor(j)]
    ensures t.Listing(k) == t'.Listing(k)
  {
    if k > 0 {
      ListingUnchanged(t, t', k - 1);
    }
  }

  /** The store invariant survives every `create`. */
  lemma CreateKeepsValid(t: Table, data: UserCreate)
    requires t.Valid()
    ensures t.Create(data).1.Valid()
  {
    GetByEmailSpec(t, data.email);
    if t.GetByEmail(data.email).None? {
      CreateInsertsNew(t, data);
    }
  }

  /** Storing a record with a new e-mail under id str(counter + 1) and bumping the counter keeps the invariant. */
  lemma InsertKeepsValid(t: Table, user: UserInDB)
    requires t.Valid()
    requires user.id == IdFor(t.counter + 1)
    requires forall id :: id in t.users ==> t.users[id].email != user.email
    ensures Table(t.users[user.id := user], t.counter + 1).Valid()
  {
    NextIdFresh(t);
    var t' := Table(t.users[user.id := user], t.counter + 1);
    InsertKeepsIds(t, user);
    InsertKeepsEmailsUnique(t, user);
    assert |t'.users| == |t.users| + 1;
  }

  /** The id part of the invariant survives an insert under the next id. */
  lemma InsertKeepsIds(t: Table, user: UserInDB)
    requires t.IdsPresent() && t.KeysAreIds() && t.KeysNumbered()
    requires user.id == IdFor(t.counter + 1)
    ensures var t' := Table(t.users[user.id := user], t.counter + 1);
      t'.IdsPresent() && t'.KeysAreIds() && t'.KeysNumbered()
  {
    ParseShow(t.counter + 1);
    var t' := Table(t.users[user.id := user], t.counter + 1);
    forall k: nat | 1 <= k <= t'.counter
      ensures IdFor(k) in t'.users
    {
      if k <= t.counter { assert IdFor(k) in t.users; }
    }
    forall id | id in t'.users
      ensures t'.users[id].id == id && 1 <= Parse(id) <= t'.counter && Show(Parse(id)) == id
    {
      if id != user.id { assert id in t.users; }
    }
  }

  /** E-mail uniqueness survives inserting a record whose e-mail is new. */
  lemma InsertKeepsEmailsUnique(t: Table, user: UserInDB)
    requires t.EmailsUnique()
    requires forall id :: id in t.users ==> t.users[id].email != user.email
    ensures Table(t.users[user.id := user], t.counter + 1).EmailsUnique()
  {
    var t' := Table(t.users[user.id := user], t.counter + 1);
    forall a, b | a in t'.users && b in t'.users && t'.users[a].email == t'.users[b].email
      ensures a == b
    {
      if a != user.id && b != user.id { assert a in t.users && b in t.users; }
    }
  }

  /** The in-memory store; `users` and `counter` are the attributes the source mutates. */
  class UserRepository {
    var users: map<string, UserInDB>
    var counter: nat

    function State(): Table
      reads this
    {
      Table(users, counter)
    }

    ghost predicate Valid()
      reads this
    {
      State().Valid()
    }

    /** `__init__`: no users, counter 0. */
    constructor ()
      ensures State() == EmptyTable
      ensures Valid()
    {
      users := map[];
      counter := 0;
    }

    method Create(data: UserCreate) returns (r: Option<UserInDB>)
      requires Valid()
      modifies this
      ensures Valid()
      ensures (r, State()) == old(State()).Create(data)
    {
      ghost var before := State();
      var i := 0;
      while i < counter
        invariant i <= counter
        invariant before.ScanEmail(data.email, i) == before.GetByEmail(data.email)
      {
        var user := users[IdFor(i + 1)];
        if user.email == data.email {
          assert before.GetByEmail(data.email) == Some(user);
          return None;
        }
        i := i + 1;
      }
      assert before.GetByEmail(data.email) == None;
      CreateKeepsValid(before, data);
      counter := counter + 1;
      var userId := IdFor(counter);
      var userInDb := UserInDB(userId, data.email, data.name, data.password);
      users := users[userId := userInDb];
      r := Some(userInDb);
      assert before.Create(data) == (r, State());
    }

    method GetByEmail(email: string) returns (r: Option<UserInDB>)
      requires Valid()
      ensures r == State().GetByEmail(email)
    {
      var i := 0;
      while i < counter
        invariant i <= counter
        invariant State().ScanEmail(email, i) == State().GetByEmail(email)
      {
        var user := users[IdFor(i + 1)];
        if user.email == email {
          return Some(user);
        }
        i := i + 1;
      }
      r := None;
    }

    method GetById(id: string) returns (r: Option<UserInDB>)
      requires Valid()
      ensures r == State().GetById(id)
      ensures r.Some? ==> r.value.id == id
    {
      r := if id in users then Some(users[id]) else None;
    }

    method GetAll() returns (r: seq<UserInDB>)
      requires Valid()
      ensures r == State().GetAll()
    {
      r := [];
      var i := 0;
      while i < counter
        invariant i <= counter
        invariant r == State().Listing(i)
      {
        i := i + 1;
        r := r + [users[IdFor(i)]];
      }
    }
  }
}
