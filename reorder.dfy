/**
 * The reorder transaction of `PUT /api/pokemon/:apiKey/reorder`: two loops
 * of single-row `UPDATE`s, the first negating each listed row's slot, the
 * second writing the requested slot. Every `UPDATE` is checked against
 * `UNIQUE(apiKey, slot)` on its own; one violation aborts the transaction.
 */
module Reorder {
  import opened Wrappers
  import opened Database

  /** One element of the `items` payload, `{ id, slot }`. */
  datatype Item = Item(id: int, slot: int)

  /** The ids the payload names. */
  ghost function IdsOf(items: seq<Item>): set<int>
  {
    set k | 0 <= k < |items| :: items[k].id
  }

  lemma IdsOfAppend(p: seq<Item>, x: Item)
    ensures IdsOf(p + [x]) == IdsOf(p) + {x.id}
  {
    var q := p + [x];
    forall id | id in IdsOf(q) ensures id in IdsOf(p) + {x.id} {
      var k :| 0 <= k < |q| && q[k].id == id;
      if k < |p| {
        assert p[k] == q[k];
      }
    }
    forall id | id in IdsOf(p) + {x.id} ensures id in IdsOf(q) {
      if id == x.id {
        assert q[|p|].id == id;
      } else {
        var k :| 0 <= k < |p| && p[k].id == id;
        assert q[k].id == id;
      }
    }
  }

  /** The position of the row whose primary key is `id`, if any. */
  function FindById(t: seq<Row>, id: int): (r: Option<nat>)
    ensures r.Some? ==> r.value < |t| && t[r.value].id == id
    ensures r.None? ==> forall i :: 0 <= i < |t| ==> t[i].id != id
  {
    if t == [] then None
    else if t[0].id == id then Some(0)
    else match FindById(t[1..], id)
      case None => None
      case Some(i) => Some(i + 1)
  }

  /** Some row of the account other than row `i` already holds slot `s`. */
  predicate SlotTaken(t: seq<Row>, key: string, s: int, i: int)
  {
    exists j :: 0 <= j < |t| && j != i && t[j].apiKey == key && t[j].slot == s
  }

  /**
   * `t2` is `t` where only the slots of the account's rows with an id in
   * `ids` may have changed; every other column and every other row is kept.
   */
  ghost predicate SlotsMovedOnly(t: seq<Row>, t2: seq<Row>, key: string, ids: set<int>)
  {
    && |t2| == |t|
    && forall i :: 0 <= i < |t| ==>
         && t2[i] == t[i].(slot := t2[i].slot)
         && (t[i].apiKey != key || t[i].id !in ids ==> t2[i] == t[i])
  }

  lemma MovedOnlyTrans(a: seq<Row>, b: seq<Row>, c: seq<Row>, key: string, I: set<int>, J: set<int>)
    requires SlotsMovedOnly(a, b, key, I) && SlotsMovedOnly(b, c, key, J)
    ensures SlotsMovedOnly(a, c, key, I + J)
  {
  }

  /** Moving slots around keeps every part of the table invariant except possibly slot uniqueness. */
  lemma MovedOnlyKeepsTables(t: seq<Row>, t2: seq<Row>, key: string, ids: set<int>, lastId: nat)
    requires TablesOk(t, lastId) && SlotsMovedOnly(t, t2, key, ids) && SlotsUnique(t2)
    ensures TablesOk(t2, lastId)
  {
    forall i, j | 0 <= i < j < |t2| ensures DistinctIds(t2[i], t2[j]) {
      assert DistinctIds(t[i], t[j]);
    }
  }

  lemma MovedOnlyKeepsOwners(users: map<string, User>, t: seq<Row>, t2: seq<Row>, key: string, ids: set<int>)
    requires OwnersExist(users, t) && SlotsMovedOnly(t, t2, key, ids)
    ensures OwnersExist(users, t2)
  {
    forall i | 0 <= i < |t2| ensures t2[i].apiKey in users {
      assert t2[i].apiKey == t[i].apiKey;
    }
  }

  /**
   * `UPDATE pokemon SET slot = @slot WHERE id = @id AND apiKey = @apiKey`.
   * None is the constraint violation that aborts the statement: another row
   * of the account already holds the slot. No matching row is no change.
   */
  function SetSlot(t: seq<Row>, id: int, key: string, s: int): (r: Option<seq<Row>>)
    ensures r.Some? ==> SlotsMovedOnly(t, r.value, key, {id})
    ensures r.Some? && IdsUnique(t) ==>
      forall i :: 0 <= i < |t| && t[i].id == id && t[i].apiKey == key ==> r.value[i].slot == s
    ensures r.Some? && SlotsUnique(t) ==> SlotsUnique(r.value)
  {
    match FindById(t, id)
    case None => Some(t)
    case Some(i) =>
      OnlyRowWithId(t, i);
      if t[i].apiKey != key then Some(t)
      else if SlotTaken(t, key, s, i) then None
      else
        var t2 := t[i := t[i].(slot := s)];
        assert SlotsUnique(t) ==> SlotsUnique(t2) by {
          if SlotsUnique(t) {
            forall a, b | 0 <= a < b < |t2| ensures SlotsApart(t2[a], t2[b]) {
              if a != i && b != i {
                assert SlotsApart(t[a], t[b]);
              }
            }
          }
        }
        Some(t2)
  }

  /**
   * The update fails exactly when the row with that id belongs to the account
   * and another row of the account already holds the slot; when the id names
   * no row of the account it changes nothing.
   */
  lemma SetSlotOutcome(t: seq<Row>, id: int, key: string, s: int)
    requires IdsUnique(t)
    ensures SetSlot(t, id, key, s).None? <==>
      exists i :: 0 <= i < |t| && t[i].id == id && t[i].apiKey == key && SlotTaken(t, key, s, i)
    ensures (forall i :: 0 <= i < |t| ==> !(t[i].id == id && t[i].apiKey == key)) ==> SetSlot(t, id, key, s) == Some(t)
  {
    match FindById(t, id)
    case None =>
    case Some(i) =>
      forall j | 0 <= j < |t| && t[j].id == id ensures j == i {
        if j != i {
          IdIdentifiesRow(t, i, j);
        }
      }
  }

  /** With unique ids, the row at `i` is the only row carrying its id. */
  lemma OnlyRowWithId(t: seq<Row>, i: int)
    requires 0 <= i < |t|
    ensures IdsUnique(t) ==> forall j :: 0 <= j < |t| && t[j].id == t[i].id ==> j == i
  {
    if IdsUnique(t) {
      forall j | 0 <= j < |t| && t[j].id == t[i].id ensures j == i {
        if j != i {
          IdIdentifiesRow(t, i, j);
        }
      }
    }
  }

  /** `UPDATE pokemon SET slot = -slot WHERE id = @id AND apiKey = @apiKey`. */
  function Negate(t: seq<Row>, id: int, key: string): (r: Option<seq<Row>>)
    ensures r.Some? ==> SlotsMovedOnly(t, r.value, key, {id})
    ensures r.Some? && IdsUnique(t) ==>
      forall i :: 0 <= i < |t| && t[i].id == id && t[i].apiKey == key ==> r.value[i].slot == -t[i].slot
    ensures r.Some? && SlotsUnique(t) ==> SlotsUnique(r.value)
  {
    match FindById(t, id)
    case None => Some(t)
    case Some(i) =>
      OnlyRowWithId(t, i);
      SetSlot(t, id, key, -t[i].slot)
  }

  /**
   * The first loop, run over a prefix of the payload: None once a statement
   * has failed. A completed loop keeps every row and never breaks
   * `UNIQUE(apiKey, slot)`.
   */
  function Phase1(t: seq<Row>, key: string, items: seq<Item>): (r: Option<seq<Row>>)
    ensures r.Some? ==> |r.value| == |t|
    ensures r.Some? && SlotsUnique(t) ==> SlotsUnique(r.value)
    decreases |items|
  {
    if items == [] then Some(t)
    else match Phase1(t, key, items[..|items| - 1])
      case None => None
      case Some(t1) => Negate(t1, items[|items| - 1].id, key)
  }

  /** The second loop, run over a prefix of the payload, with the same guarantees. */
  function Phase2(t: seq<Row>, key: string, items: seq<Item>): (r: Option<seq<Row>>)
    ensures r.Some? ==> |r.value| == |t|
    ensures r.Some? && SlotsUnique(t) ==> SlotsUnique(r.value)
    decreases |items|
  {
    if items == [] then Some(t)
    else match Phase2(t, key, items[..|items| - 1])
      case None => None
      case Some(t1) => SetSlot(t1, items[|items| - 1].id, key, items[|items| - 1].slot)
  }

  /**
   * The body of `reorderTransaction`: None means the transaction threw and
   * was rolled back. A committed transaction keeps every row and never
   * breaks `UNIQUE(apiKey, slot)`.
   */
  function Transaction(t: seq<Row>, key: string, items: seq<Item>): (r: Option<seq<Row>>)
    ensures r.Some? ==> |r.value| == |t|
    ensures r.Some? && SlotsUnique(t) ==> SlotsUnique(r.value)
  {
    match Phase1(t, key, items)
    case None => None
    case Some(t1) => Phase2(t1, key, items)
  }

  /** One more item of the first loop: the next statement runs on what the loop left so far. */
  lemma Phase1Step(t: seq<Row>, key: string, items: seq<Item>, i: int)
    requires 0 <= i < |items|
    ensures Phase1(t, key, items[..i]).None? ==> Phase1(t, key, items[..i + 1]).None?
    ensures Phase1(t, key, items[..i]).Some? ==>
      Phase1(t, key, items[..i + 1]) == Negate(Phase1(t, key, items[..i]).value, items[i].id, key)
  {
    assert items[..i + 1][..i] == items[..i];
  }

  /** One more item of the second loop. */
  lemma Phase2Step(t: seq<Row>, key: string, items: seq<Item>, i: int)
    requires 0 <= i < |items|
    ensures Phase2(t, key, items[..i]).None? ==> Phase2(t, key, items[..i + 1]).None?
    ensures Phase2(t, key, items[..i]).Some? ==>
      Phase2(t, key, items[..i + 1]) == SetSlot(Phase2(t, key, items[..i]).value, items[i].id, key, items[i].slot)
  {
    assert items[..i + 1][..i] == items[..i];
  }

  /** Once a statement of the first loop fails, the whole loop fails. */
  lemma {:induction false} Phase1FailsFrom(t: seq<Row>, key: string, items: seq<Item>, n: nat)
    requires n <= |items| && Phase1(t, key, items[..n]) == None
    ensures Phase1(t, key, items) == None
    decreases |items|
  {
    if n < |items| {
      var init := items[..|items| - 1];
      assert init[..n] == items[..n];
      Phase1FailsFrom(t, key, init, n);
    } else {
      assert items[..n] == items;
    }
  }

  lemma {:induction false} Phase2FailsFrom(t: seq<Row>, key: string, items: seq<Item>, n: nat)
    requires n <= |items| && Phase2(t, key, items[..n]) == None
    ensures Phase2(t, key, items) == None
    decreases |items|
  {
    if n < |items| {
      var init := items[..|items| - 1];
      assert init[..n] == items[..n];
      Phase2FailsFrom(t, key, init, n);
    } else {
      assert items[..n] == items;
    }
  }

  lemma {:induction false} Phase1Moves(t: seq<Row>, key: string, items: seq<Item>)
    requires Phase1(t, key, items).Some?
    ensures SlotsMovedOnly(t, Phase1(t, key, items).value, key, IdsOf(items))
    decreases |items|
  {
    if items != [] {
      var init := items[..|items| - 1];
      var x := items[|items| - 1];
      assert items == init + [x];
      Phase1Moves(t, key, init);
      IdsOfAppend(init, x);
      MovedOnlyTrans(t, Phase1(t, key, init).value, Phase1(t, key, items).value, key, IdsOf(init), {x.id});
    }
  }

  lemma {:induction false} Phase2Moves(t: seq<Row>, key: string, items: seq<Item>)
    requires Phase2(t, key, items).Some?
    ensures SlotsMovedOnly(t, Phase2(t, key, items).value, key, IdsOf(items))
    decreases |items|
  {
    if items != [] {
      var init := items[..|items| - 1];
      var x := items[|items| - 1];
      assert items == init + [x];
      Phase2Moves(t, key, init);
      IdsOfAppend(init, x);
      MovedOnlyTrans(t, Phase2(t, key, init).value, Phase2(t, key, items).value, key, IdsOf(init), {x.id});
    }
  }

  /**
   * Whatever the payload, a committed reorder changed nothing but the slots
   * of rows that both belong to the account and are named in the payload:
   * rows of other accounts are never touched, and the table invariant holds.
   */
  lemma TransactionTouchesOnlyListed(t: seq<Row>, key: string, items: seq<Item>, lastId: nat)
    requires Transaction(t, key, items).Some?
    ensures SlotsMovedOnly(t, Transaction(t, key, items).value, key, IdsOf(items))
    ensures TablesOk(t, lastId) ==> TablesOk(Transaction(t, key, items).value, lastId)
  {
    var t1 := Phase1(t, key, items).value;
    Phase1Moves(t, key, items);
    Phase2Moves(t1, key, items);
    MovedOnlyTrans(t, t1, Transaction(t, key, items).value, key, IdsOf(items), IdsOf(items));
    if TablesOk(t, lastId) {
      MovedOnlyKeepsTables(t, Transaction(t, key, items).value, key, IdsOf(items), lastId);
    }
  }

  // ----- The reorder on a well-formed payload -----

  /** No two items name the same id. */
  ghost predicate DistinctItemIds(items: seq<Item>)
  {
    forall a, b :: 0 <= a < b < |items| ==> items[a].id != items[b].id
  }

  /** Every row of the account sits in a positive slot (true of every row the upsert writes). */
  ghost predicate OwnedPositive(t: seq<Row>, key: string)
  {
    forall i :: 0 <= i < |t| && t[i].apiKey == key ==> t[i].slot > 0
  }

  /** The table after the first loop: the listed rows of the account hold the negation of their slot. */
  ghost function Negated(t: seq<Row>, key: string, ids: set<int>): (r: seq<Row>)
    ensures |r| == |t|
  {
    seq(|t|, i requires 0 <= i < |t| =>
      if t[i].apiKey == key && t[i].id in ids then t[i].(slot := -t[i].slot) else t[i])
  }

  /**
   * With distinct ids the first loop negates exactly the listed rows of the
   * account; it cannot fail when those rows all sit in positive slots, since a
   * negative value never meets a positive one and two negated slots meet only
   * if the original slots did.
   */
  lemma {:induction false} Phase1Negates(t: seq<Row>, key: string, items: seq<Item>)
    requires IdsUnique(t) && DistinctItemIds(items)
    ensures Phase1(t, key, items).Some? ==> Phase1(t, key, items) == Some(Negated(t, key, IdsOf(items)))
    ensures SlotsUnique(t) && OwnedPositive(t, key) ==> Phase1(t, key, items).Some?
    decreases |items|
  {
    if items == [] {
      assert IdsOf(items) == {};
      assert Negated(t, key, {}) == t;
    } else {
      var init := items[..|items| - 1];
      var x := items[|items| - 1];
      assert items == init + [x];
      assert DistinctItemIds(init) by {
        forall a, b | 0 <= a < b < |init| ensures init[a].id != init[b].id {
          assert init[a] == items[a] && init[b] == items[b];
        }
      }
      Phase1Negates(t, key, init);
      IdsOfAppend(init, x);
      forall k | 0 <= k < |init| ensures init[k].id != x.id {
        assert init[k] == items[k];
      }
      if Phase1(t, key, init).Some? {
        NegateStep(t, key, IdsOf(init), x.id);
      }
    }
  }

  /** One statement of the first loop, run on the table the earlier ones produced. */
  lemma NegateStep(t: seq<Row>, key: string, ids: set<int>, id: int)
    requires IdsUnique(t) && id !in ids
    ensures Negate(Negated(t, key, ids), id, key).Some? ==>
              Negate(Negated(t, key, ids), id, key) == Some(Negated(t, key, ids + {id}))
    ensures SlotsUnique(t) && OwnedPositive(t, key) ==> Negate(Negated(t, key, ids), id, key).Some?
  {
    var N := Negated(t, key, ids);
    var N2 := Negated(t, key, ids + {id});
    match FindById(N, id)
    case None =>
      forall j | 0 <= j < |t| ensures N2[j] == N[j] {
        assert N[j].id == t[j].id;
      }
      assert N2 == N;
    case Some(i) =>
      assert N[i].id == t[i].id;
      if N[i].apiKey == key {
        NegateOwned(t, key, ids, i);
      } else {
        forall j | 0 <= j < |t| ensures N2[j] == N[j] {
          if j != i {
            IdIdentifiesRow(t, i, j);
          }
        }
        assert N2 == N;
      }
  }

  /** Negating row `i`, which belongs to the account: the result, and why it cannot collide. */
  lemma NegateOwned(t: seq<Row>, key: string, ids: set<int>, i: int)
    requires IdsUnique(t) && 0 <= i < |t| && t[i].apiKey == key && t[i].id !in ids
    ensures var N := Negated(t, key, ids);
      N[i := N[i].(slot := -t[i].slot)] == Negated(t, key, ids + {t[i].id})
    ensures SlotsUnique(t) && OwnedPositive(t, key) ==> !SlotTaken(Negated(t, key, ids), key, -t[i].slot, i)
  {
    var N := Negated(t, key, ids);
    var N2 := Negated(t, key, ids + {t[i].id});
    forall j | 0 <= j < |t| ensures N2[j] == N[i := N[i].(slot := -t[i].slot)][j] {
      if j != i {
        IdIdentifiesRow(t, i, j);
      }
    }
    if SlotsUnique(t) && OwnedPositive(t, key) {
      forall j | 0 <= j < |N| && j != i && N[j].apiKey == key ensures N[j].slot != -t[i].slot {
        SlotIdentifiesRow(t, i, j);
      }
    }
  }

  /** The slot the last item naming `id` asks for (0 when none does). */
  function TargetOf(items: seq<Item>, id: int): int
    decreases |items|
  {
    if items == [] then 0
    else if items[|items| - 1].id == id then items[|items| - 1].slot
    else TargetOf(items[..|items| - 1], id)
  }

  /** With distinct ids, the target of a listed id is the slot its one item asks for. */
  lemma {:induction false} TargetOfItem(items: seq<Item>, k: int)
    requires DistinctItemIds(items) && 0 <= k < |items|
    ensures TargetOf(items, items[k].id) == items[k].slot
    decreases |items|
  {
    if k < |items| - 1 {
      var init := items[..|items| - 1];
      assert init[k] == items[k];
      TargetOfItem(init, k);
    }
  }

  /** The payload is one the second loop can apply without any collision. */
  ghost predicate Consistent(t: seq<Row>, key: string, items: seq<Item>)
  {
    && DistinctItemIds(items)
    && (forall a, b :: 0 <= a < b < |items| ==> items[a].slot != items[b].slot)
    && (forall a :: 0 <= a < |items| ==> items[a].slot > 0)
    && (forall i, a :: 0 <= i < |t| && 0 <= a < |items| && t[i].apiKey == key && t[i].id !in IdsOf(items) ==>
          t[i].slot != items[a].slot)
  }

  /** The table once every listed row of the account holds its target. */
  ghost function Reordered(t: seq<Row>, key: string, items: seq<Item>): (r: seq<Row>)
    ensures |r| == |t|
  {
    seq(|t|, i requires 0 <= i < |t| =>
      if t[i].apiKey == key && t[i].id in IdsOf(items) then t[i].(slot := TargetOf(items, t[i].id)) else t[i])
  }

  /** Part way through the second loop: `done` applied, the ids in `pending` still negated. */
  ghost function Midway(t: seq<Row>, key: string, done: seq<Item>, pending: set<int>): (r: seq<Row>)
    ensures |r| == |t|
  {
    seq(|t|, i requires 0 <= i < |t| =>
      if t[i].apiKey == key && t[i].id in IdsOf(done) then t[i].(slot := TargetOf(done, t[i].id))
      else if t[i].apiKey == key && t[i].id in pending then t[i].(slot := -t[i].slot)
      else t[i])
  }

  lemma {:induction false} Phase2Prefix(t: seq<Row>, key: string, items: seq<Item>, n: nat)
    requires IdsUnique(t) && OwnedPositive(t, key) && Consistent(t, key, items)
    requires n <= |items|
    ensures Phase2(Negated(t, key, IdsOf(items)), key, items[..n])
         == Some(Midway(t, key, items[..n], IdsOf(items) - IdsOf(items[..n])))
    decreases n
  {
    if n == 0 {
      var N := Negated(t, key, IdsOf(items));
      assert items[..0] == [];
      assert IdsOf(items) - IdsOf([]) == IdsOf(items);
      assert Phase2(N, key, []) == Some(N);
      assert Midway(t, key, [], IdsOf(items)) == N;
    } else {
      assert items[..n][..n - 1] == items[..n - 1];
      Phase2Prefix(t, key, items, n - 1);
      AssignStep(t, key, items, n);
    }
  }

  /** The `n`-th statement of the second loop, run on the table the earlier ones produced. */
  lemma AssignStep(t: seq<Row>, key: string, items: seq<Item>, n: nat)
    requires IdsUnique(t) && OwnedPositive(t, key) && Consistent(t, key, items)
    requires 0 < n <= |items|
    ensures var p := items[..n - 1];
      SetSlot(Midway(t, key, p, IdsOf(items) - IdsOf(p)), items[n - 1].id, key, items[n - 1].slot)
        == Some(Midway(t, key, items[..n], IdsOf(items) - IdsOf(items[..n])))
  {
    var p := items[..n - 1];
    var x := items[n - 1];
    assert items[..n] == p + [x];
    IdsOfAppend(p, x);
    var P := IdsOf(items) - IdsOf(p);
    assert x.id in IdsOf(items);
    forall k | 0 <= k < |p| ensures p[k].id != x.id {
      assert p[k] == items[k];
    }
    assert IdsOf(items) - IdsOf(p + [x]) == P - {x.id};
    var A := Midway(t, key, p, P);
    var A2 := Midway(t, key, p + [x], P - {x.id});
    match FindById(A, x.id)
    case None =>
      forall j | 0 <= j < |t| ensures A2[j] == A[j] {
        assert A[j].id == t[j].id;
      }
      assert A2 == A;
    case Some(i) =>
      assert A[i].id == t[i].id;
      if A[i].apiKey == key {
        assert DistinctItemIds(p) by {
          forall a, b | 0 <= a < b < |p| ensures p[a].id != p[b].id {
            assert p[a] == items[a] && p[b] == items[b];
          }
        }
        forall k | 0 <= k < |p| ensures p[k].slot != x.slot {
          assert p[k] == items[k];
        }
        forall j | 0 <= j < |t| && t[j].apiKey == key && t[j].id !in IdsOf(p) && t[j].id !in P
          ensures t[j].slot != x.slot
        {
          assert t[j].id !in IdsOf(items);
        }
        AssignFree(t, key, p, P, x, i);
        AssignOwned(t, key, p, P, x, i);
      } else {
        forall j | 0 <= j < |t| ensures A2[j] == A[j] {
          if j != i {
            IdIdentifiesRow(t, i, j);
          }
        }
        assert A2 == A;
      }
  }

  /** Writing the target of item `x` into row `i`, which belongs to the account and carries its id. */
  lemma AssignOwned(t: seq<Row>, key: string, p: seq<Item>, P: set<int>, x: Item, i: int)
    requires IdsUnique(t) && 0 <= i < |t| && t[i].apiKey == key && t[i].id == x.id && x.id !in IdsOf(p)
    ensures var A := Midway(t, key, p, P);
      A[i := A[i].(slot := x.slot)] == Midway(t, key, p + [x], P - {x.id})
  {
    var A := Midway(t, key, p, P);
    var A2 := Midway(t, key, p + [x], P - {x.id});
    IdsOfAppend(p, x);
    forall j | 0 <= j < |t| ensures A2[j] == A[i := A[i].(slot := x.slot)][j] {
      if j != i {
        IdIdentifiesRow(t, i, j);
      }
    }
  }

  /** The target of item `x` is free: no earlier item asked for it, no row still pending holds it, no unlisted row holds it. */
  lemma AssignFree(t: seq<Row>, key: string, p: seq<Item>, P: set<int>, x: Item, i: int)
    requires OwnedPositive(t, key) && DistinctItemIds(p) && x.slot > 0
    requires forall k :: 0 <= k < |p| ==> p[k].slot != x.slot
    requires forall j :: 0 <= j < |t| && t[j].apiKey == key && t[j].id !in IdsOf(p) && t[j].id !in P ==> t[j].slot != x.slot
    ensures !SlotTaken(Midway(t, key, p, P), key, x.slot, i)
  {
    var A := Midway(t, key, p, P);
    forall j | 0 <= j < |A| && A[j].apiKey == key ensures A[j].slot != x.slot {
      if t[j].id in IdsOf(p) {
        var k :| 0 <= k < |p| && p[k].id == t[j].id;
        TargetOfItem(p, k);
      }
    }
  }


  /**
   * A consistent payload over an account whose rows sit in positive slots
   * commits, and leaves every listed row of the account in its requested slot
   * and every other row as it was.
   */
  lemma ReorderCorrect(t: seq<Row>, key: string, items: seq<Item>)
    requires IdsUnique(t) && SlotsUnique(t) && OwnedPositive(t, key) && Consistent(t, key, items)
    ensures Transaction(t, key, items) == Some(Reordered(t, key, items))
  {
    Phase1Negates(t, key, items);
    Phase2Prefix(t, key, items, |items|);
    assert items[..|items|] == items;
    assert IdsOf(items) - IdsOf(items) == {};
    assert Midway(t, key, items, {}) == Reordered(t, key, items);
  }

  /**
   * Swapping the entries in slots 1 and 2: writing the targets directly
   * collides on the first statement, while the two-phase transaction commits
   * the swap.
   */
  lemma SwapNeedsTwoPhases()
    ensures var t := [Row(1, "k", 1, None, None, None, 0), Row(2, "k", 2, None, None, None, 0)];
      var items := [Item(1, 2), Item(2, 1)];
      && Phase2(t, "k", items) == None
      && Transaction(t, "k", items) == Some([t[0].(slot := 2), t[1].(slot := 1)])
  {
    var t := [Row(1, "k", 1, None, None, None, 0), Row(2, "k", 2, None, None, None, 0)];
    var items := [Item(1, 2), Item(2, 1)];
    var one := items[..1];
    assert one == [Item(1, 2)] && one[..0] == [] && items[..1] == one;
    assert FindById(t, 1) == Some(0) && FindById(t, 2) == Some(1);
    // Direct write: the entry with id 1 cannot take slot 2 while id 2 holds it.
    assert SlotTaken(t, "k", 2, 0);
    assert SetSlot(t, 1, "k", 2) == None;
    assert Phase2(t, "k", one) == None;
    // First loop.
    var n1 := [t[0].(slot := -1), t[1]];
    assert !SlotTaken(t, "k", -1, 0);
    assert t[0 := t[0].(slot := -1)] == n1;
    assert Negate(t, 1, "k") == Some(n1);
    assert Phase1(t, "k", one) == Some(n1);
    var n2 := [t[0].(slot := -1), t[1].(slot := -2)];
    assert FindById(n1, 2) == Some(1);
    assert !SlotTaken(n1, "k", -2, 1);
    assert n1[1 := n1[1].(slot := -2)] == n2;
    assert Negate(n1, 2, "k") == Some(n2);
    assert Phase1(t, "k", items) == Some(n2);
    // Second loop.
    var m1 := [t[0].(slot := 2), t[1].(slot := -2)];
    assert FindById(n2, 1) == Some(0);
    assert !SlotTaken(n2, "k", 2, 0);
    assert n2[0 := n2[0].(slot := 2)] == m1;
    assert SetSlot(n2, 1, "k", 2) == Some(m1);
    assert Phase2(n2, "k", one) == Some(m1);
    var m2 := [t[0].(slot := 2), t[1].(slot := 1)];
    assert FindById(m1, 2) == Some(1);
    assert !SlotTaken(m1, "k", 1, 1);
    assert m1[1 := m1[1].(slot := 1)] == m2;
    assert SetSlot(m1, 2, "k", 1) == Some(m2);
    assert Phase2(n2, "k", items) == Some(m2);
  }

  /**
   * The transaction writes whatever slot the payload names: nothing checks
   * the range, so a target of -1 commits and leaves a row of the account in a
   * non-positive slot.
   */
  lemma AnyTargetCommits()
    ensures var t := [Row(1, "k", 1, None, None, None, 0)];
      Transaction(t, "k", [Item(1, -1)]) == Some([t[0].(slot := -1)])
  {
    var t := [Row(1, "k", 1, None, None, None, 0)];
    var items := [Item(1, -1)];
    var n1 := [t[0].(slot := -1)];
    assert items[..0] == [];
    assert FindById(t, 1) == Some(0) && FindById(n1, 1) == Some(0);
    assert !SlotTaken(t, "k", -1, 0) && !SlotTaken(n1, "k", -1, 0);
    assert t[0 := t[0].(slot := -1)] == n1 && n1[0 := n1[0].(slot := -1)] == n1;
    assert Phase1(t, "k", items) == Some(n1);
  }

  /**
   * Why `ReorderCorrect` asks for positive slots: with a row already in slot
   * -3, negating the row in slot 3 collides, so a payload that is otherwise
   * consistent rolls back.
   */
  lemma NonPositiveSlotBlocksReorder()
    ensures var t := [Row(1, "k", -3, None, None, None, 0), Row(2, "k", 3, None, None, None, 0)];
      var items := [Item(2, 4)];
      && IdsUnique(t) && SlotsUnique(t) && Consistent(t, "k", items) && !OwnedPositive(t, "k")
      && Transaction(t, "k", items) == None
  {
    var t := [Row(1, "k", -3, None, None, None, 0), Row(2, "k", 3, None, None, None, 0)];
    var items := [Item(2, 4)];
    assert IdsOf(items) == {2} by {
      assert items[0].id == 2;
    }
    assert items[..0] == [];
    assert FindById(t, 2) == Some(1);
    assert SlotTaken(t, "k", -3, 1);
    assert Phase1(t, "k", items) == None;
  }
}
