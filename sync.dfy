/**
 * Properties that span the client and the server: what the panel sends,
 * applied by the backend to the table it was computed from, and what the
 * admin page's total counts.
 */
module Sync {
  import opened Wrappers
  import opened Database
  import Seqs
  import Queries
  import Reorder
  import Server
  import Panel
  import Admin

  /** A `pokemon` row as the panel holds it after `GET /api/pokemon/:apiKey`; `!!isDead` reads the stored flag. */
  function ToEntry(r: Row): (e: Panel.Pokemon)
    ensures e.id == r.id && e.slot == r.slot && (e.isDead <==> r.isDead != 0)
  {
    Panel.Pokemon(r.id, r.slot, r.name, r.species, r.spriteUrl, r.isDead != 0)
  }

  /** The panel's `team`: the team listing of the account, entry by entry. */
  function ClientTeam(t: seq<Row>, key: string): (team: seq<Panel.Pokemon>)
    requires SlotsUnique(t)
    ensures forall i :: 0 <= i < |t| && t[i].apiKey == key ==> ToEntry(t[i]) in team
  {
    var rows := Queries.Team(t, key);
    var team := seq(|rows|, c requires 0 <= c < |rows| => ToEntry(rows[c]));
    assert forall i :: 0 <= i < |t| && t[i].apiKey == key ==> ToEntry(t[i]) in team by {
      forall i | 0 <= i < |t| && t[i].apiKey == key ensures ToEntry(t[i]) in team {
        assert t[i] in rows;
        var c :| 0 <= c < |rows| && rows[c] == t[i];
        assert team[c] == ToEntry(t[i]);
      }
    }
    team
  }

  /** The panel's team has distinct ids and distinct slots, and every entry is a row of the account. */
  lemma ClientTeamShape(t: seq<Row>, key: string)
    requires IdsUnique(t) && SlotsUnique(t)
    ensures var team := ClientTeam(t, key);
      && Panel.IdsDistinct(team) && Panel.SlotsDistinct(team)
      && forall c :: 0 <= c < |team| ==> exists i :: 0 <= i < |t| && t[i].apiKey == key && team[c] == ToEntry(t[i])
  {
    var rows := Queries.Team(t, key);
    var team := ClientTeam(t, key);
    forall c | 0 <= c < |team| ensures exists i :: 0 <= i < |t| && t[i].apiKey == key && team[c] == ToEntry(t[i]) {
      assert rows[c] in rows;
      var i :| 0 <= i < |t| && t[i] == rows[c];
      assert team[c] == ToEntry(t[i]);
    }
    forall a, b | 0 <= a < b < |team| ensures team[a].id != team[b].id && team[a].slot != team[b].slot {
      assert rows[a] in rows && rows[b] in rows;
      var x :| 0 <= x < |t| && t[x] == rows[a];
      var y :| 0 <= y < |t| && t[y] == rows[b];
      assert rows[a].slot < rows[b].slot;
      assert x != y;
      IdIdentifiesRow(t, x, y);
    }
  }

  /** In the panel's team the lookup of an owned row's slot finds that row. */
  lemma FindsOwnRow(t: seq<Row>, key: string, i: int)
    requires IdsUnique(t) && SlotsUnique(t)
    requires 0 <= i < |t| && t[i].apiKey == key
    ensures Panel.FindSlot(ClientTeam(t, key), t[i].slot) == Some(ToEntry(t[i]))
  {
    var team := ClientTeam(t, key);
    ClientTeamShape(t, key);
    var c :| 0 <= c < |team| && team[c] == ToEntry(t[i]);
    Panel.FindOwnSlot(team, c);
  }

  /** The upsert's lookup of an owned row's slot finds that row. */
  lemma FindAtOwnRow(t: seq<Row>, key: string, i: int)
    requires SlotsUnique(t) && 0 <= i < |t| && t[i].apiKey == key
    ensures Queries.FindAt(t, key, t[i].slot) == Some(i)
  {
    forall j | 0 <= j < |t| && j != i ensures !(t[j].apiKey == key && t[j].slot == t[i].slot) {
      SlotIdentifiesRow(t, i, j);
    }
  }

  /**
   * `toggleDeadStatus` on an occupied slot in 1..6, which passes the upsert
   * handler's slot guard, and the upsert statement applied to the table the
   * panel was showing: it flips that row's stored flag and leaves every other
   * column and every other row as it was.
   */
  lemma ToggleFlipsFlag(t: seq<Row>, lastId: nat, key: string, i: int)
    requires IdsUnique(t) && SlotsUnique(t) && FlagsBinary(t)
    requires 0 <= i < |t| && t[i].apiKey == key && key != "" && 1 <= t[i].slot <= 6
    ensures Server.ValidSlot(Some(t[i].slot))
    ensures var body := Panel.ToggleDeadStatus(Some(key), ClientTeam(t, key), t[i].slot, t[i].isDead != 0);
      && body.Some?
      && Queries.Upsert(t, lastId, key, t[i].slot, body.value.name, body.value.species, body.value.spriteUrl,
                        Server.Flag(body.value.isDead))
         == (t[i := t[i].(isDead := 1 - t[i].isDead)], lastId + 1)
  {
    FindsOwnRow(t, key, i);
    FindAtOwnRow(t, key, i);
    assert Server.Flag(!(t[i].isDead != 0)) == 1 - t[i].isDead;
    Queries.UpsertOverwritesWhenTaken(t, lastId, key, t[i].slot, t[i].name, t[i].species, t[i].spriteUrl, 1 - t[i].isDead);
  }

  /** An owned row on the board is in the drag payload, bound for the position its slot took in `ns`. */
  lemma OnBoardListed(t: seq<Row>, key: string, ns: seq<int>, i: int, k: int)
    requires IdsUnique(t) && SlotsUnique(t)
    requires 0 <= i < |t| && t[i].apiKey == key && 0 <= k < |ns| && ns[k] == t[i].slot
    ensures Reorder.Item(t[i].id, k + 1) in Panel.DragUpdates(ClientTeam(t, key), ns)
    ensures t[i].id in Reorder.IdsOf(Panel.DragUpdates(ClientTeam(t, key), ns))
  {
    var us := Panel.DragUpdates(ClientTeam(t, key), ns);
    FindsOwnRow(t, key, i);
    Panel.DragUpdateFor(ClientTeam(t, key), ns, k);
    var m :| 0 <= m < |us| && us[m] == Reorder.Item(t[i].id, k + 1);
    assert us[m].id == t[i].id;
  }

  /** An owned row is in the drag payload exactly when it sits on the board. */
  lemma ListedIffOnBoard(t: seq<Row>, key: string, ns: seq<int>, i: int)
    requires IdsUnique(t) && SlotsUnique(t) && Panel.SlotOrder(ns)
    requires 0 <= i < |t| && t[i].apiKey == key
    ensures t[i].id in Reorder.IdsOf(Panel.DragUpdates(ClientTeam(t, key), ns)) <==> 1 <= t[i].slot <= 6
  {
    var team := ClientTeam(t, key);
    var us := Panel.DragUpdates(team, ns);
    if t[i].id in Reorder.IdsOf(us) {
      var m :| 0 <= m < |us| && us[m].id == t[i].id;
      var s := ns[us[m].slot - 1];
      var p := Panel.FindSlot(team, s).value;
      ClientTeamShape(t, key);
      var c :| 0 <= c < |team| && team[c] == p;
      var x :| 0 <= x < |t| && t[x].apiKey == key && p == ToEntry(t[x]);
      assert x == i by {
        forall y | 0 <= y < |t| && y != i ensures t[y].id != t[i].id {
          IdIdentifiesRow(t, y, i);
        }
      }
      assert s in ns;
    }
    if 1 <= t[i].slot <= 6 {
      assert t[i].slot in ns;
      var k :| 0 <= k < |ns| && ns[k] == t[i].slot;
      OnBoardListed(t, key, ns, i, k);
    }
  }

  /** The payload of a drag is one the reorder transaction applies without a collision. */
  lemma DragPayloadConsistent(t: seq<Row>, key: string, ns: seq<int>)
    requires IdsUnique(t) && SlotsUnique(t) && Panel.SlotOrder(ns)
    ensures Reorder.Consistent(t, key, Panel.DragUpdates(ClientTeam(t, key), ns))
  {
    var team := ClientTeam(t, key);
    var us := Panel.DragUpdates(team, ns);
    ClientTeamShape(t, key);
    Panel.DragUpdateIdsDistinct(team, ns);
    forall j, a | 0 <= j < |t| && 0 <= a < |us| && t[j].apiKey == key && t[j].id !in Reorder.IdsOf(us)
      ensures t[j].slot != us[a].slot
    {
      ListedIffOnBoard(t, key, ns, j);
    }
  }

  /** With distinct ids the target of a payload item's id is that item's slot. */
  lemma ItemTarget(us: seq<Reorder.Item>, x: Reorder.Item)
    requires Reorder.DistinctItemIds(us) && x in us
    ensures Reorder.TargetOf(us, x.id) == x.slot
  {
    var m :| 0 <= m < |us| && us[m] == x;
    Reorder.TargetOfItem(us, m);
  }

  /**
   * A drag in the panel, sent to the reorder endpoint of the table it was
   * computed from, commits: the row that sat in slot `ns[k]` ends in slot
   * k + 1, as the optimistic update shows it, and every other row is untouched.
   */
  lemma DragCommits(t: seq<Row>, key: string, from: int, to: int)
    requires IdsUnique(t) && SlotsUnique(t) && Reorder.OwnedPositive(t, key)
    requires 0 <= from < 6 && 0 <= to < 6
    ensures var ns := Panel.ArrayMove(Panel.Slots, from, to);
      var us := Panel.DragUpdates(ClientTeam(t, key), ns);
      var r := Reorder.Transaction(t, key, us);
      && r.Some? && |r.value| == |t|
      && (forall i, k :: 0 <= i < |t| && 0 <= k < 6 && t[i].apiKey == key && t[i].slot == ns[k] ==>
            r.value[i] == t[i].(slot := k + 1))
      && (forall i :: 0 <= i < |t| && (t[i].apiKey != key || !(1 <= t[i].slot <= 6)) ==> r.value[i] == t[i])
  {
    var ns := Panel.ArrayMove(Panel.Slots, from, to);
    var us := Panel.DragUpdates(ClientTeam(t, key), ns);
    Panel.MovedSlots(from, to);
    DragPayloadConsistent(t, key, ns);
    Reorder.ReorderCorrect(t, key, us);
    var r := Reorder.Reordered(t, key, us);
    forall i, k | 0 <= i < |t| && 0 <= k < 6 && t[i].apiKey == key && t[i].slot == ns[k]
      ensures r[i] == t[i].(slot := k + 1)
    {
      OnBoardListed(t, key, ns, i, k);
      ItemTarget(us, Reorder.Item(t[i].id, k + 1));
    }
    forall i | 0 <= i < |t| && (t[i].apiKey != key || !(1 <= t[i].slot <= 6)) ensures r[i] == t[i] {
      if t[i].apiKey == key {
        ListedIffOnBoard(t, key, ns, i);
      }
    }
  }

  // ----- The admin total -----

  /** The number of rows whose owner is in `keys`. */
  function CountIn(t: seq<Row>, keys: set<string>): (n: nat)
    ensures n <= |t|
  {
    if t == [] then 0 else (if t[0].apiKey in keys then 1 else 0) + CountIn(t[1..], keys)
  }

  lemma {:induction false} CountOwnedIsCountIn(t: seq<Row>, key: string)
    ensures Queries.CountOwned(t, key) == CountIn(t, {key})
  {
    if t != [] {
      CountOwnedIsCountIn(t[1..], key);
    }
  }

  lemma {:induction false} CountInAdd(t: seq<Row>, keys: set<string>, key: string)
    requires key !in keys
    ensures CountIn(t, keys + {key}) == CountIn(t, keys) + CountIn(t, {key})
  {
    if t != [] {
      CountInAdd(t[1..], keys, key);
    }
  }

  /** When every row has an owner among `keys`, every row is counted. */
  lemma {:induction false} CountInAll(t: seq<Row>, keys: set<string>)
    requires forall i :: 0 <= i < |t| ==> t[i].apiKey in keys
    ensures CountIn(t, keys) == |t|
  {
    if t != [] {
      CountInAll(t[1..], keys);
    }
  }

  /** Rows with distinct keys: the last row's key is new to the rows before it. */
  lemma SplitLastKey(rows: seq<Server.KeyRow>)
    requires Seqs.Pairwise(rows, Server.KeysApart) && rows != []
    ensures var init := rows[..|rows| - 1];
      && Seqs.Pairwise(init, Server.KeysApart)
      && Server.KeysOf(rows) == Server.KeysOf(init) + {rows[|rows| - 1].apiKey}
      && rows[|rows| - 1].apiKey !in Server.KeysOf(init)
  {
    var init := rows[..|rows| - 1];
    var last := rows[|rows| - 1];
    assert rows == init + [last];
    assert Seqs.Pairwise(init, Server.KeysApart) by {
      forall a, b | 0 <= a < b < |init| ensures Server.KeysApart(init[a], init[b]) {
        assert init[a] == rows[a] && init[b] == rows[b];
      }
    }
    assert Server.KeysOf(rows) == Server.KeysOf(init) + {last.apiKey};
    forall r | r in init ensures r.apiKey != last.apiKey {
      var a :| 0 <= a < |init| && init[a] == r;
      assert Server.KeysApart(rows[a], rows[|rows| - 1]);
    }
  }

  /** Summing per-account counts over rows with distinct keys counts the rows owned by those keys. */
  lemma {:induction false} TotalCountsOwnedRows(pokemon: seq<Row>, rows: seq<Server.KeyRow>)
    requires Seqs.Pairwise(rows, Server.KeysApart)
    requires forall r :: r in rows ==> r.pokemonCount == Queries.CountOwned(pokemon, r.apiKey)
    ensures Admin.TotalPokemon(rows) == CountIn(pokemon, Server.KeysOf(rows))
    decreases |rows|
  {
    if rows == [] {
      assert Server.KeysOf(rows) == {};
      CountInNone(pokemon);
    } else {
      var init := rows[..|rows| - 1];
      var last := rows[|rows| - 1];
      assert rows == init + [last];
      SplitLastKey(rows);
      TotalCountsOwnedRows(pokemon, init);
      CountInAdd(pokemon, Server.KeysOf(init), last.apiKey);
      CountOwnedIsCountIn(pokemon, last.apiKey);
    }
  }

  lemma {:induction false} CountInNone(t: seq<Row>)
    ensures CountIn(t, {}) == 0
  {
    if t != [] {
      CountInNone(t[1..]);
    }
  }

  /**
   * The admin page's total over the key listing counts every row whose owner
   * still exists; when deleting an account cascades, that is every row.
   */
  lemma AdminTotalCountsRows(users: map<string, User>, pokemon: seq<Row>, rows: seq<Server.KeyRow>)
    requires Server.KeyListing(users, pokemon, rows)
    ensures Admin.TotalPokemon(rows) == CountIn(pokemon, users.Keys)
    ensures OwnersExist(users, pokemon) ==> Admin.TotalPokemon(rows) == |pokemon|
  {
    TotalCountsOwnedRows(pokemon, rows);
    if OwnersExist(users, pokemon) {
      CountInAll(pokemon, users.Keys);
    }
  }
}
