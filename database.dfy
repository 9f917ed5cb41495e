/**
 * The persistent store of backend/database.js: a `users` table keyed by the
 * access token and a `pokemon` table of team entries. The constraints the
 * schema declares become predicates that every handler must keep.
 */
module Database {
  import opened Wrappers
  import Seqs

  /** The two orientation values the settings endpoint accepts. */
  const Horizontal: string := "horizontal"
  const Vertical: string := "vertical"

  /**
   * A `users` row without its key: the table is a map from apiKey to User, so
   * the PRIMARY KEY on apiKey (one account per key) holds by construction.
   * `createdAt` is the clock reading at insertion; `orientation` is nullable.
   */
  datatype User = User(createdAt: nat, orientation: Option<string>)

  /** A `pokemon` row. Text columns are nullable, hence Option; `isDead` is an INTEGER. */
  datatype Row = Row(
    id: int,
    apiKey: string,
    slot: int,
    name: Option<string>,
    species: Option<string>,
    spriteUrl: Option<string>,
    isDead: int)

  /** `INSERT INTO users (apiKey)`: every other column takes its declared default. */
  function NewUser(now: nat): User
  {
    User(now, Some(Horizontal))
  }

  predicate DistinctIds(x: Row, y: Row)
  {
    x.id != y.id
  }

  /** `UNIQUE(apiKey, slot)` for one pair of rows. */
  predicate SlotsApart(x: Row, y: Row)
  {
    x.apiKey == y.apiKey ==> x.slot != y.slot
  }

  /** `id INTEGER PRIMARY KEY`: no two rows share an id. */
  ghost predicate IdsUnique(t: seq<Row>)
  {
    Seqs.Pairwise(t, DistinctIds)
  }

  /** `UNIQUE(apiKey, slot)`: at most one row per (apiKey, slot). */
  ghost predicate SlotsUnique(t: seq<Row>)
  {
    Seqs.Pairwise(t, SlotsApart)
  }

  /** AUTOINCREMENT: every id was handed out, starting at 1, and `lastId` is the largest ever issued. */
  ghost predicate IdsIssued(t: seq<Row>, lastId: nat)
  {
    forall i :: 0 <= i < |t| ==> 1 <= t[i].id <= lastId
  }

  /** Every row's `isDead` is stored as 0 or 1. */
  ghost predicate FlagsBinary(t: seq<Row>)
  {
    forall i :: 0 <= i < |t| ==> t[i].isDead == 0 || t[i].isDead == 1
  }

  /** The invariant of the `pokemon` table. */
  ghost predicate TablesOk(t: seq<Row>, lastId: nat)
  {
    IdsUnique(t) && SlotsUnique(t) && IdsIssued(t, lastId) && FlagsBinary(t)
  }

  /** `FOREIGN KEY(apiKey) REFERENCES users(apiKey)`: every row belongs to an existing account. */
  ghost predicate OwnersExist(users: map<string, User>, t: seq<Row>)
  {
    forall i :: 0 <= i < |t| ==> t[i].apiKey in users
  }

  /** Two different rows of one account sit in different slots. */
  lemma SlotIdentifiesRow(t: seq<Row>, i: int, j: int)
    requires SlotsUnique(t)
    requires 0 <= i < |t| && 0 <= j < |t| && i != j
    ensures !(t[i].apiKey == t[j].apiKey && t[i].slot == t[j].slot)
  {
    if i < j {
      assert SlotsApart(t[i], t[j]);
    } else {
      assert SlotsApart(t[j], t[i]);
    }
  }

  /** Two different rows carry different ids. */
  lemma IdIdentifiesRow(t: seq<Row>, i: int, j: int)
    requires IdsUnique(t)
    requires 0 <= i < |t| && 0 <= j < |t| && i != j
    ensures t[i].id != t[j].id
  {
    if i < j {
      assert DistinctIds(t[i], t[j]);
    } else {
      assert DistinctIds(t[j], t[i]);
    }
  }
}
