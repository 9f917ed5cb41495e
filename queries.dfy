/**
 * The SQL statements that the handlers of backend/index.js run against the
 * `pokemon` table, as functions from the table before to the table after.
 * The reorder statements live in module Reorder.
 */
module Queries {
  import opened Wrappers
  import opened Database
  import Seqs

  function SlotOf(r: Row): int
  {
    r.slot
  }

  /** The position of the row holding (key, slot), if there is one: the conflict target of the upsert. */
  function FindAt(t: seq<Row>, key: string, slot: int): (r: Option<nat>)
    ensures r.Some? ==> r.value < |t| && t[r.value].apiKey == key && t[r.value].slot == slot
    ensures r.Some? ==> forall i :: 0 <= i < r.value ==> !(t[i].apiKey == key && t[i].slot == slot)
    ensures r.None? ==> forall i :: 0 <= i < |t| ==> !(t[i].apiKey == key && t[i].slot == slot)
  {
    if t == [] then None
    else if t[0].apiKey == key && t[0].slot == slot then Some(0)
    else match FindAt(t[1..], key, slot)
      case None => None
      case Some(i) => Some(i + 1)
  }

  /**
   * `INSERT INTO pokemon (...) VALUES (...) ON CONFLICT(apiKey, slot) DO UPDATE
   * SET name, species, spriteUrl, isDead`. Returns the new table and the new
   * AUTOINCREMENT counter. SQLite allocates the new rowid, and with it the
   * next AUTOINCREMENT value, before it finds the conflict, so the counter
   * advances on the update path as well as on the insert path.
   */
  function Upsert(t: seq<Row>, lastId: nat, key: string, slot: int,
                  name: Option<string>, species: Option<string>, spriteUrl: Option<string>, dead: int): (r: (seq<Row>, nat))
    ensures |t| <= |r.0| && r.1 == lastId + 1
    ensures forall i :: 0 <= i < |t| ==> r.0[i].id == t[i].id && r.0[i].apiKey == t[i].apiKey && r.0[i].slot == t[i].slot
    ensures forall i :: 0 <= i < |t| && !(t[i].apiKey == key && t[i].slot == slot) ==> r.0[i] == t[i]
    ensures forall i :: |t| <= i < |r.0| ==> r.0[i].apiKey == key && r.0[i].slot == slot
    ensures FindAt(r.0, key, slot).Some?
    ensures var i := FindAt(r.0, key, slot).value;
      r.0[i].name == name && r.0[i].species == species && r.0[i].spriteUrl == spriteUrl && r.0[i].isDead == dead
  {
    match FindAt(t, key, slot)
    case Some(i) =>
      (t[i := t[i].(name := name, species := species, spriteUrl := spriteUrl, isDead := dead)], lastId + 1)
    case None =>
      var t' := t + [Row(lastId + 1, key, slot, name, species, spriteUrl, dead)];
      FindAtAppend(t, t'[|t|], key, slot);
      (t', lastId + 1)
  }

  lemma {:induction false} FindAtAppend(t: seq<Row>, x: Row, key: string, slot: int)
    requires FindAt(t, key, slot).None?
    requires x.apiKey == key && x.slot == slot
    ensures FindAt(t + [x], key, slot) == Some(|t|)
  {
    if t != [] {
      assert (t + [x])[1..] == t[1..] + [x];
      FindAtAppend(t[1..], x, key, slot);
    }
  }

  /** A free slot gets a new row, appended, whose id is larger than every id already in the table. */
  lemma UpsertInsertsWhenFree(t: seq<Row>, lastId: nat, key: string, slot: int,
                              name: Option<string>, species: Option<string>, spriteUrl: Option<string>, dead: int)
    requires IdsIssued(t, lastId)
    requires FindAt(t, key, slot).None?
    ensures var (t', lastId') := Upsert(t, lastId, key, slot, name, species, spriteUrl, dead);
      && |t'| == |t| + 1 && t'[..|t|] == t && lastId' == lastId + 1
      && t'[|t|] == Row(lastId', key, slot, name, species, spriteUrl, dead)
      && forall i :: 0 <= i < |t| ==> t[i].id < t'[|t|].id
  {
  }

  /**
   * An occupied slot is overwritten in place: the row keeps its id, owner and
   * slot, takes the four new values, and no other row changes; the counter
   * still advances by one.
   */
  lemma UpsertOverwritesWhenTaken(t: seq<Row>, lastId: nat, key: string, slot: int,
                                  name: Option<string>, species: Option<string>, spriteUrl: Option<string>, dead: int)
    requires FindAt(t, key, slot).Some?
    ensures var (t', lastId') := Upsert(t, lastId, key, slot, name, species, spriteUrl, dead);
      var i := FindAt(t, key, slot).value;
      && |t'| == |t| && lastId' == lastId + 1
      && t'[i] == Row(t[i].id, key, slot, name, species, spriteUrl, dead)
      && forall j :: 0 <= j < |t| && j != i ==> t'[j] == t[j]
  {
  }

  /** Rewriting the non-key columns of rows leaves both uniqueness constraints as they were. */
  lemma SameKeysKeepUnique(t: seq<Row>, t': seq<Row>)
    requires |t'| == |t|
    requires forall i :: 0 <= i < |t| ==> t'[i].id == t[i].id && t'[i].apiKey == t[i].apiKey && t'[i].slot == t[i].slot
    requires IdsUnique(t) && SlotsUnique(t)
    ensures IdsUnique(t') && SlotsUnique(t')
  {
    forall i, j | 0 <= i < j < |t'| ensures DistinctIds(t'[i], t'[j]) && SlotsApart(t'[i], t'[j]) {
      assert DistinctIds(t[i], t[j]) && SlotsApart(t[i], t[j]);
    }
  }

  /** The upsert keeps the table invariant whenever the flag it writes is 0 or 1. */
  lemma UpsertKeepsTables(t: seq<Row>, lastId: nat, key: string, slot: int,
                          name: Option<string>, species: Option<string>, spriteUrl: Option<string>, dead: int)
    requires TablesOk(t, lastId)
    requires dead == 0 || dead == 1
    ensures var (t', lastId') := Upsert(t, lastId, key, slot, name, species, spriteUrl, dead);
      TablesOk(t', lastId') && lastId <= lastId'
  {
    var (t', lastId') := Upsert(t, lastId, key, slot, name, species, spriteUrl, dead);
    match FindAt(t, key, slot)
    case Some(i) =>
      SameKeysKeepUnique(t, t');
      forall j | 0 <= j < |t'| ensures 1 <= t'[j].id <= lastId' && (t'[j].isDead == 0 || t'[j].isDead == 1) {
      }
    case None =>
      forall j | 0 <= j < |t'| ensures 1 <= t'[j].id <= lastId' && (t'[j].isDead == 0 || t'[j].isDead == 1) {
        if j < |t| {
          assert t'[j] == t[j];
        }
      }
      forall i, j | 0 <= i < j < |t'| ensures DistinctIds(t'[i], t'[j]) && SlotsApart(t'[i], t'[j]) {
        if j < |t| {
          assert DistinctIds(t[i], t[j]) && SlotsApart(t[i], t[j]);
        } else {
          assert t'[i] == t[i];
        }
      }
  }

  /**
   * Repeating an upsert with the same values leaves the table as the first
   * one left it; only the AUTOINCREMENT counter moves on.
   */
  lemma UpsertIdempotent(t: seq<Row>, lastId: nat, key: string, slot: int,
                         name: Option<string>, species: Option<string>, spriteUrl: Option<string>, dead: int)
    ensures var (t1, last1) := Upsert(t, lastId, key, slot, name, species, spriteUrl, dead);
      Upsert(t1, last1, key, slot, name, species, spriteUrl, dead) == (t1, last1 + 1)
  {
    var (t1, last1) := Upsert(t, lastId, key, slot, name, species, spriteUrl, dead);
    var i := FindAt(t1, key, slot).value;
    assert t1[i := t1[i].(name := name, species := species, spriteUrl := spriteUrl, isDead := dead)] == t1;
  }

  /** `WHERE apiKey = ?`: the account's rows, in table order. */
  function Owned(t: seq<Row>, key: string): (r: seq<Row>)
    ensures forall p :: p in r <==> p in t && p.apiKey == key
    ensures Seqs.IsSubseq(r, t)
  {
    Seqs.Filter(t, (p: Row) => p.apiKey == key)
  }

  /** `COUNT(pokemon.id)` of the admin listing's LEFT JOIN, for one account. */
  function CountOwned(t: seq<Row>, key: string): (n: nat)
    ensures n <= |t|
    ensures n == 0 <==> forall i :: 0 <= i < |t| ==> t[i].apiKey != key
  {
    var owned := Owned(t, key);
    assert owned == [] <==> forall i :: 0 <= i < |t| ==> t[i].apiKey != key by {
      if owned != [] {
        assert owned[0] in owned;
      }
      forall i | 0 <= i < |t| && t[i].apiKey == key ensures owned != [] {
        assert t[i] in owned;
      }
    }
    |owned|
  }

  /**
   * `SELECT * FROM pokemon WHERE apiKey = ? ORDER BY slot ASC`: exactly the
   * account's rows, each once, in strictly increasing slot order.
   */
  function Team(t: seq<Row>, key: string): (r: seq<Row>)
    requires SlotsUnique(t)
    ensures multiset(r) == multiset(Owned(t, key))
    ensures forall p :: p in r <==> p in t && p.apiKey == key
    ensures forall i, j :: 0 <= i < j < |r| ==> r[i].slot < r[j].slot
  {
    var owned := Owned(t, key);
    OwnedSlotsDistinct(t, key);
    var r := Seqs.SortBy(owned, SlotOf);
    assert forall p :: p in r <==> p in owned by {
      forall p ensures p in r <==> p in owned {
        assert p in r <==> p in multiset(r);
      }
    }
    r
  }

  /** Under `UNIQUE(apiKey, slot)` the rows of one account have pairwise different slots. */
  lemma OwnedSlotsDistinct(t: seq<Row>, key: string)
    requires SlotsUnique(t)
    ensures var owned := Owned(t, key);
      forall i, j :: 0 <= i < j < |owned| ==> SlotOf(owned[i]) != SlotOf(owned[j])
  {
    var owned := Owned(t, key);
    Seqs.FilterPairwise(t, (p: Row) => p.apiKey == key, SlotsApart);
    forall i, j | 0 <= i < j < |owned| ensures SlotOf(owned[i]) != SlotOf(owned[j]) {
      assert owned[i] in owned && owned[j] in owned;
      assert SlotsApart(owned[i], owned[j]);
    }
  }

  /** `DELETE FROM pokemon WHERE apiKey = ? AND slot = ?`. */
  function DeleteAt(t: seq<Row>, key: string, slot: int): (r: seq<Row>)
    ensures forall p :: p in r <==> p in t && !(p.apiKey == key && p.slot == slot)
    ensures Seqs.IsSubseq(r, t)
  {
    Seqs.Filter(t, (p: Row) => !(p.apiKey == key && p.slot == slot))
  }

  /** Deleting a free slot changes nothing; deleting a taken one removes exactly that row. */
  lemma {:induction false} DeleteAtEffect(t: seq<Row>, key: string, slot: int)
    requires SlotsUnique(t)
    ensures FindAt(t, key, slot).None? ==> DeleteAt(t, key, slot) == t
    ensures FindAt(t, key, slot).Some? ==> |DeleteAt(t, key, slot)| == |t| - 1
  {
    if t != [] {
      var tail := t[1..];
      assert SlotsUnique(tail) by {
        forall i, j | 0 <= i < j < |tail| ensures SlotsApart(tail[i], tail[j]) {
          assert SlotsApart(t[i + 1], t[j + 1]);
        }
      }
      DeleteAtEffect(tail, key, slot);
      if t[0].apiKey == key && t[0].slot == slot {
        assert FindAt(tail, key, slot).None? by {
          forall i | 0 <= i < |tail| ensures !(tail[i].apiKey == key && tail[i].slot == slot) {
            assert SlotsApart(t[0], t[i + 1]);
          }
        }
      } else {
        assert t == [t[0]] + tail;
      }
    }
  }

  /** The cascade of `ON DELETE CASCADE` when an account is deleted: its rows go, every other row stays. */
  function DropAccount(t: seq<Row>, key: string): (r: seq<Row>)
    ensures forall p :: p in r <==> p in t && p.apiKey != key
    ensures Seqs.IsSubseq(r, t)
  {
    Seqs.Filter(t, (p: Row) => p.apiKey != key)
  }

  /** Any `DELETE FROM pokemon WHERE ...` keeps the table invariant. */
  lemma FilterKeepsTables(t: seq<Row>, lastId: nat, keep: Row -> bool)
    requires TablesOk(t, lastId)
    ensures TablesOk(Seqs.Filter(t, keep), lastId)
  {
    var r := Seqs.Filter(t, keep);
    Seqs.FilterPairwise(t, keep, DistinctIds);
    Seqs.FilterPairwise(t, keep, SlotsApart);
    forall i | 0 <= i < |r| ensures 1 <= r[i].id <= lastId && (r[i].isDead == 0 || r[i].isDead == 1) {
      assert r[i] in t;
    }
  }
}
