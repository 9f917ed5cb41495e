/**
 * The HTTP handlers of backend/index.js over one store holding the `users`
 * and `pokemon` tables. Each handler is a method of `Store`; its reply is a
 * `Reply` whose constructor is the HTTP status. Socket.io broadcasts are
 * recorded in a ghost outbox as (room, event) pairs, so that "emitted after
 * the write committed, to the room of that key only" is part of each contract.
 */
module Server {
  import opened Wrappers
  import opened Database
  import Queries
  import Reorder
  import Seqs

  /** 200 with a body, 400, 404, or 500 (a statement threw). */
  datatype Reply<T> = Ok(value: T) | BadRequest | NotFound | ServerError

  datatype EventKind = PokemonUpdated | SettingsUpdated(orientation: string)

  /** `io.to(room).emit(kind)`. */
  datatype Event = Event(room: string, kind: EventKind)

  /** The JSON body of `POST /api/pokemon/:apiKey`; an absent `slot` is None. */
  datatype SlotBody = SlotBody(
    slot: Option<int>,
    name: Option<string>,
    species: Option<string>,
    spriteUrl: Option<string>,
    isDead: bool)

  /** One row of the admin listing: the `users` columns and `pokemonCount`. */
  datatype KeyRow = KeyRow(apiKey: string, createdAt: nat, orientation: Option<string>, pokemonCount: nat)

  /**
   * The slot guard of the upsert, `!slot || slot < 1 || slot > 6` negated: it
   * lets a slot through exactly when it is present and within 1..6.
   */
  predicate ValidSlot(slot: Option<int>)
    ensures ValidSlot(slot) <==> slot.Some? && 1 <= slot.value <= 6
  {
    slot.Some? && slot.value != 0 && !(slot.value < 1) && !(slot.value > 6)
  }

  /** `['horizontal', 'vertical'].includes(orientation)`. */
  predicate AllowedOrientation(o: Option<string>)
    ensures AllowedOrientation(o) ==> Truthy(o)
  {
    o == Some(Horizontal) || o == Some(Vertical)
  }

  /** `isDead ? 1 : 0`. */
  function Flag(isDead: bool): (r: int)
    ensures r == 0 || r == 1
    ensures r == 1 <==> isDead
  {
    if isDead then 1 else 0
  }

  /** `user.orientation || 'horizontal'`: a NULL or empty column reads as horizontal. */
  function ShownOrientation(u: User): (r: string)
    ensures Truthy(u.orientation) ==> r == u.orientation.value
    ensures !Truthy(u.orientation) ==> r == Horizontal
    ensures r != ""
  {
    if Truthy(u.orientation) then u.orientation.value else Horizontal
  }

  /** A fresh account reads as horizontal, and an accepted value reads back as itself. */
  lemma SettingsReadBack(now: nat, u: User, o: string)
    requires AllowedOrientation(Some(o))
    ensures ShownOrientation(NewUser(now)) == Horizontal
    ensures ShownOrientation(u.(orientation := Some(o))) == o
  {
  }

  function Recency(r: KeyRow): int
  {
    -(r.createdAt as int)
  }

  predicate KeysApart(x: KeyRow, y: KeyRow)
  {
    x.apiKey != y.apiKey
  }

  ghost function KeysOf(rows: seq<KeyRow>): set<string>
  {
    set r | r in rows :: r.apiKey
  }

  /** The listing row of account `k`: its columns and `COUNT(pokemon.id)` over the LEFT JOIN. */
  function Entry(users: map<string, User>, pokemon: seq<Row>, k: string): KeyRow
    requires k in users
  {
    KeyRow(k, users[k].createdAt, users[k].orientation, Queries.CountOwned(pokemon, k))
  }

  /**
   * The result of the admin listing: one row per account (GROUP BY apiKey),
   * each with its count of pokemon rows, newest first (ties in any order).
   */
  ghost predicate KeyListing(users: map<string, User>, pokemon: seq<Row>, rows: seq<KeyRow>)
  {
    && Seqs.Pairwise(rows, KeysApart)
    && KeysOf(rows) == users.Keys
    && (forall r :: r in rows ==> r.apiKey in users && r == Entry(users, pokemon, r.apiKey))
    && (forall i, j :: 0 <= i < j < |rows| ==> rows[i].createdAt >= rows[j].createdAt)
  }

  /** The listing built so far: the accounts not yet `pending`, each once, newest first. */
  ghost predicate PartialListing(users: map<string, User>, pokemon: seq<Row>, rows: seq<KeyRow>, pending: set<string>)
  {
    && pending <= users.Keys
    && KeysOf(rows) + pending == users.Keys && KeysOf(rows) !! pending
    && Seqs.Pairwise(rows, KeysApart)
    && (forall r :: r in rows ==> r.apiKey in users && r == Entry(users, pokemon, r.apiKey))
    && Seqs.SortedBy(rows, Recency)
  }

  /** Placing one more pending account into the listing by recency keeps it a partial listing. */
  lemma ListingStep(users: map<string, User>, pokemon: seq<Row>, rows: seq<KeyRow>, pending: set<string>, k: string)
    requires PartialListing(users, pokemon, rows, pending) && k in pending
    ensures PartialListing(users, pokemon, Seqs.InsertBy(rows, Entry(users, pokemon, k), Recency), pending - {k})
  {
    var entry := Entry(users, pokemon, k);
    forall y | y in rows ensures KeysApart(y, entry) && KeysApart(entry, y) {
      assert y.apiKey in KeysOf(rows);
    }
    Seqs.InsertKeepsSorted(rows, entry, Recency);
    Seqs.InsertPairwise(rows, entry, Recency, KeysApart);
    var rows' := Seqs.InsertBy(rows, entry, Recency);
    assert KeysOf(rows') == KeysOf(rows) + {k};
  }

  /** A partial listing with nothing pending is the listing. */
  lemma ListingDone(users: map<string, User>, pokemon: seq<Row>, rows: seq<KeyRow>)
    requires PartialListing(users, pokemon, rows, {})
    ensures KeyListing(users, pokemon, rows)
  {
    forall i, j | 0 <= i < j < |rows| ensures rows[i].createdAt >= rows[j].createdAt {
      assert Recency(rows[i]) <= Recency(rows[j]);
    }
  }

  class Store {
    var users: map<string, User>
    var pokemon: seq<Row>
    /** The AUTOINCREMENT counter: the largest id ever handed out. */
    var lastId: nat
    /**
     * Whether deleting an account removes its rows. The schema declares
     * ON DELETE CASCADE, but SQLite enforces it only when the connection has
     * enabled foreign keys, which database.js does not do.
     */
    const cascade: bool
    ghost var outbox: seq<Event>

    /** The schema constraints, and referential integrity where it is enforced. */
    ghost predicate Valid()
      reads this
    {
      TablesOk(pokemon, lastId) && (cascade ==> OwnersExist(users, pokemon))
    }

    constructor(cascade: bool)
      ensures Valid()
      ensures users == map[] && pokemon == [] && lastId == 0 && outbox == []
      ensures this.cascade == cascade
    {
      users := map[];
      pokemon := [];
      lastId := 0;
      this.cascade := cascade;
      outbox := [];
    }

    /**
     * `POST /api/keys` and `POST /api/admin/keys`: insert an account under
     * `key`, the fresh UUID, at clock reading `now`. A key already present
     * violates the PRIMARY KEY and the insert throws.
     */
    method IssueKey(key: string, now: nat) returns (r: Reply<string>)
      requires Valid()
      modifies this
      ensures Valid()
      ensures key in old(users) ==> r == ServerError && unchanged(this)
      ensures key !in old(users) ==>
        && r == Ok(key)
        && users == old(users)[key := NewUser(now)]
        && pokemon == old(pokemon) && lastId == old(lastId) && outbox == old(outbox)
    {
      if key in users {
        return ServerError;
      }
      users := users[key := NewUser(now)];
      r := Ok(key);
    }

    /** `GET /api/admin/keys`. */
    method ListKeys() returns (rows: seq<KeyRow>)
      ensures KeyListing(users, pokemon, rows)
    {
      var pending := users.Keys;
      rows := [];
      while pending != {}
        invariant PartialListing(users, pokemon, rows, pending)
        decreases |pending|
      {
        var k :| k in pending;
        ListingStep(users, pokemon, rows, pending, k);
        rows := Seqs.InsertBy(rows, Entry(users, pokemon, k), Recency);
        pending := pending - {k};
      }
      ListingDone(users, pokemon, rows);
    }

    /**
     * `DELETE /api/admin/keys/:key`: 404 exactly when no account row was
     * removed. No event is emitted.
     */
    method DeleteKey(key: string) returns (r: Reply<()>)
      requires Valid()
      modifies this
      ensures Valid()
      ensures key !in old(users) ==> r == NotFound && unchanged(this)
      ensures key in old(users) ==>
        && r == Ok(())
        && users == old(users) - {key}
        && pokemon == (if cascade then Queries.DropAccount(old(pokemon), key) else old(pokemon))
        && lastId == old(lastId) && outbox == old(outbox)
    {
      if key !in users {
        return NotFound;
      }
      users := users - {key};
      if cascade {
        Queries.FilterKeepsTables(pokemon, lastId, (p: Row) => p.apiKey != key);
        var kept := Queries.DropAccount(pokemon, key);
        forall i | 0 <= i < |kept| ensures kept[i].apiKey in users {
          assert kept[i] in kept;
        }
        pokemon := kept;
      }
      r := Ok(());
    }

    /** `GET /api/settings/:apiKey`. */
    method GetSettings(key: string) returns (r: Reply<string>)
      ensures key !in users ==> r == NotFound
      ensures key in users ==> r == Ok(ShownOrientation(users[key]))
    {
      if key !in users {
        return NotFound;
      }
      r := Ok(ShownOrientation(users[key]));
    }

    /**
     * `POST /api/settings/:apiKey`: the value is checked before the store
     * is touched; the update then reports 404 when it changed no row.
     */
    method PostSettings(key: string, orientation: Option<string>) returns (r: Reply<()>)
      requires Valid()
      modifies this
      ensures Valid()
      ensures !AllowedOrientation(orientation) ==> r == BadRequest && unchanged(this)
      ensures AllowedOrientation(orientation) && key !in old(users) ==> r == NotFound && unchanged(this)
      ensures AllowedOrientation(orientation) && key in old(users) ==>
        && r == Ok(())
        && users == old(users)[key := old(users)[key].(orientation := orientation)]
        && pokemon == old(pokemon) && lastId == old(lastId)
        && outbox == old(outbox) + [Event(key, SettingsUpdated(orientation.value))]
    {
      if !AllowedOrientation(orientation) {
        return BadRequest;
      }
      if key !in users {
        return NotFound;
      }
      users := users[key := users[key].(orientation := orientation)];
      outbox := outbox + [Event(key, SettingsUpdated(orientation.value))];
      r := Ok(());
    }

    /** `GET /api/pokemon/:apiKey`: the account's rows by ascending slot. */
    method ListTeam(key: string) returns (r: Reply<seq<Row>>)
      requires Valid()
      ensures key !in users ==> r == NotFound
      ensures key in users ==> r.Ok?
      ensures r.Ok? ==> r.value == Queries.Team(pokemon, key)
      ensures r.Ok? ==> forall p :: p in r.value <==> p in pokemon && p.apiKey == key
      ensures r.Ok? ==> forall i, j :: 0 <= i < j < |r.value| ==> r.value[i].slot < r.value[j].slot
    {
      if key !in users {
        return NotFound;
      }
      r := Ok(Queries.Team(pokemon, key));
    }

    /**
     * `POST /api/pokemon/:apiKey`: 400 for a bad slot before the store is
     * touched, 404 for an unknown key, otherwise the upsert and an event.
     */
    method Upsert(key: string, body: SlotBody) returns (r: Reply<()>)
      requires Valid()
      modifies this
      ensures Valid()
      ensures !ValidSlot(body.slot) ==> r == BadRequest && unchanged(this)
      ensures ValidSlot(body.slot) && key !in old(users) ==> r == NotFound && unchanged(this)
      ensures ValidSlot(body.slot) && key in old(users) ==>
        && r == Ok(())
        && (pokemon, lastId) == Queries.Upsert(old(pokemon), old(lastId), key, body.slot.value,
                                               body.name, body.species, body.spriteUrl, Flag(body.isDead))
        && users == old(users)
        && outbox == old(outbox) + [Event(key, PokemonUpdated)]
    {
      if !ValidSlot(body.slot) {
        return BadRequest;
      }
      if key !in users {
        return NotFound;
      }
      var dead := Flag(body.isDead);
      Queries.UpsertKeepsTables(pokemon, lastId, key, body.slot.value, body.name, body.species, body.spriteUrl, dead);
      var (t, last) := Queries.Upsert(pokemon, lastId, key, body.slot.value, body.name, body.species, body.spriteUrl, dead);
      pokemon, lastId := t, last;
      outbox := outbox + [Event(key, PokemonUpdated)];
      r := Ok(());
    }

    /**
     * `PUT /api/pokemon/:apiKey/reorder`: 400 unless `items` is an array,
     * 404 for an unknown key, then the transaction. Each single-row update
     * is checked against the table constraints as it runs; the first one that
     * fails rolls the table back to where it was and the reply is 500.
     */
    method ReorderTeam(key: string, items: Option<seq<Reorder.Item>>) returns (r: Reply<()>)
      requires Valid()
      modifies this
      ensures Valid()
      ensures items.None? ==> r == BadRequest && unchanged(this)
      ensures items.Some? && key !in old(users) ==> r == NotFound && unchanged(this)
      ensures items.Some? && key in old(users) && Reorder.Transaction(old(pokemon), key, items.value).None? ==>
        r == ServerError && unchanged(this)
      ensures items.Some? && key in old(users) && Reorder.Transaction(old(pokemon), key, items.value).Some? ==>
        && r == Ok(())
        && pokemon == Reorder.Transaction(old(pokemon), key, items.value).value
        && users == old(users) && lastId == old(lastId)
        && outbox == old(outbox) + [Event(key, PokemonUpdated)]
    {
      if items.None? {
        return BadRequest;
      }
      if key !in users {
        return NotFound;
      }
      var list := items.value;
      var snapshot := pokemon;  // what a rollback restores
      var ok := NegateAll(key, list);
      if ok {
        ghost var mid := pokemon;
        ok := AssignAll(key, list);
        if !ok {
          assert Reorder.Phase2(mid, key, list).None?;
        }
      }
      if !ok {
        pokemon := snapshot;
        return ServerError;
      }
      outbox := outbox + [Event(key, PokemonUpdated)];
      r := Ok(());
    }

    /**
     * The first loop of `reorderTransaction`: `makeNegative` for each item in
     * turn. Stops at the first statement that fails; the table then holds the
     * effect of the statements before it, for the caller to roll back.
     */
    method NegateAll(key: string, list: seq<Reorder.Item>) returns (ok: bool)
      requires Valid()
      modifies this`pokemon
      ensures Valid()
      ensures ok <==> Reorder.Phase1(old(pokemon), key, list).Some?
      ensures ok ==> Reorder.Phase1(old(pokemon), key, list) == Some(pokemon)
    {
      ghost var t0 := pokemon;
      var i := 0;
      while i < |list|
        invariant 0 <= i <= |list|
        invariant Reorder.Phase1(t0, key, list[..i]) == Some(pokemon)
        invariant Valid()
      {
        Reorder.Phase1Step(t0, key, list, i);
        var next := Reorder.Negate(pokemon, list[i].id, key);
        if next.None? {
          Reorder.Phase1FailsFrom(t0, key, list, i + 1);
          return false;
        }
        Reorder.MovedOnlyKeepsTables(pokemon, next.value, key, {list[i].id}, lastId);
        if cascade {
          Reorder.MovedOnlyKeepsOwners(users, pokemon, next.value, key, {list[i].id});
        }
        pokemon := next.value;
        i := i + 1;
      }
      assert list[..|list|] == list;
      return true;
    }

    /** The second loop of `reorderTransaction`: `updateSlot` for each item in turn. */
    method AssignAll(key: string, list: seq<Reorder.Item>) returns (ok: bool)
      requires Valid()
      modifies this`pokemon
      ensures Valid()
      ensures ok <==> Reorder.Phase2(old(pokemon), key, list).Some?
      ensures ok ==> Reorder.Phase2(old(pokemon), key, list) == Some(pokemon)
    {
      ghost var t0 := pokemon;
      var i := 0;
      while i < |list|
        invariant 0 <= i <= |list|
        invariant Reorder.Phase2(t0, key, list[..i]) == Some(pokemon)
        invariant Valid()
      {
        Reorder.Phase2Step(t0, key, list, i);
        var next := Reorder.SetSlot(pokemon, list[i].id, key, list[i].slot);
        if next.None? {
          Reorder.Phase2FailsFrom(t0, key, list, i + 1);
          return false;
        }
        Reorder.MovedOnlyKeepsTables(pokemon, next.value, key, {list[i].id}, lastId);
        if cascade {
          Reorder.MovedOnlyKeepsOwners(users, pokemon, next.value, key, {list[i].id});
        }
        pokemon := next.value;
        i := i + 1;
      }
      assert list[..|list|] == list;
      return true;
    }

    /**
     * `DELETE /api/pokemon/:apiKey/:slot`: 404 for an unknown key, otherwise
     * the delete, which succeeds and emits whether or not the slot was taken.
     */
    method DeleteSlot(key: string, slot: int) returns (r: Reply<()>)
      requires Valid()
      modifies this
      ensures Valid()
      ensures key !in old(users) ==> r == NotFound && unchanged(this)
      ensures key in old(users) ==>
        && r == Ok(())
        && pokemon == Queries.DeleteAt(old(pokemon), key, slot)
        && users == old(users) && lastId == old(lastId)
        && outbox == old(outbox) + [Event(key, PokemonUpdated)]
    {
      if key !in users {
        return NotFound;
      }
      Queries.FilterKeepsTables(pokemon, lastId, (p: Row) => !(p.apiKey == key && p.slot == slot));
      var kept := Queries.DeleteAt(pokemon, key, slot);
      forall i | 0 <= i < |kept| ensures kept[i] in pokemon {
        assert kept[i] in kept;
      }
      pokemon := kept;
      outbox := outbox + [Event(key, PokemonUpdated)];
      r := Ok(());
    }
  }
}
