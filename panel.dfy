/**
 * The team editor of fronted/src/pages/Panel.tsx: the reorder payload and
 * optimistic update computed when a slot card is dropped on another, and the
 * request bodies that `saveSlot` and `toggleDeadStatus` post to the upsert
 * endpoint. Request bodies are the backend's own `SlotBody` and `Item`.
 */
module Panel {
  import opened Wrappers
  import Seqs
  import Server
  import Reorder

  /** A team entry as the client holds it. */
  datatype Pokemon = Pokemon(
    id: int,
    slot: int,
    name: Option<string>,
    species: Option<string>,
    spriteUrl: Option<string>,
    isDead: bool)

  /** A search result picked in the editor: its name and `sprites.front_default`. */
  datatype Choice = Choice(name: string, sprite: Option<string>)

  /** `team.find(p => p.slot === slot)`. */
  function FindSlot(team: seq<Pokemon>, slot: int): (r: Option<Pokemon>)
    ensures r.Some? ==> r.value in team && r.value.slot == slot
    ensures r.None? ==> forall p :: p in team ==> p.slot != slot
    ensures r.Some? && team != [] && team[0].slot == slot ==> r.value == team[0]
  {
    if team == [] then None
    else if team[0].slot == slot then Some(team[0])
    else FindSlot(team[1..], slot)
  }

  /** `find` returns the first entry in the slot: no entry before it sits there. */
  lemma {:induction false} FindSlotFirst(team: seq<Pokemon>, slot: int)
    ensures var r := FindSlot(team, slot);
      r.Some? ==> exists k :: 0 <= k < |team| && team[k] == r.value && forall j :: 0 <= j < k ==> team[j].slot != slot
  {
    if team != [] && team[0].slot != slot {
      var r := FindSlot(team[1..], slot);
      FindSlotFirst(team[1..], slot);
      if r.Some? {
        var k :| 0 <= k < |team[1..]| && team[1..][k] == r.value && forall j :: 0 <= j < k ==> team[1..][j].slot != slot;
        assert team[k + 1] == r.value;
        forall j | 0 <= j < k + 1 ensures team[j].slot != slot {
          if j > 0 {
            assert team[j] == team[1..][j - 1];
          }
        }
      }
    }
  }

  /** No two entries share an id. */
  ghost predicate IdsDistinct(team: seq<Pokemon>)
  {
    forall a, b :: 0 <= a < b < |team| ==> team[a].id != team[b].id
  }

  /** No two entries share a slot (the server's team listing never has two). */
  ghost predicate SlotsDistinct(team: seq<Pokemon>)
  {
    forall a, b :: 0 <= a < b < |team| ==> team[a].slot != team[b].slot
  }

  /** With distinct slots the lookup of an entry's own slot finds that entry. */
  lemma {:induction false} FindOwnSlot(team: seq<Pokemon>, i: int)
    requires SlotsDistinct(team) && 0 <= i < |team|
    ensures FindSlot(team, team[i].slot) == Some(team[i])
  {
    if i > 0 {
      var tail := team[1..];
      assert team[0].slot != team[i].slot;
      assert SlotsDistinct(tail) by {
        forall a, b | 0 <= a < b < |tail| ensures tail[a].slot != tail[b].slot {
          assert tail[a] == team[a + 1] && tail[b] == team[b + 1];
        }
      }
      FindOwnSlot(tail, i - 1);
    }
  }

  /**
   * `arrayMove` of @dnd-kit/sortable, whose source is not part of this
   * model. It is taken to remove the element at `from` and insert it at `to`
   * in what remains, as `Array.prototype.splice` does for in-range indices.
   */
  function ArrayMove<T>(s: seq<T>, from: int, to: int): (r: seq<T>)
    requires 0 <= from < |s| && 0 <= to < |s|
    ensures |r| == |s| && r[to] == s[from]
    ensures multiset(r) == multiset(s)
  {
    var rest := s[..from] + s[from + 1..];
    assert s == s[..from] + [s[from]] + s[from + 1..];
    assert multiset(s) == multiset(rest) + multiset{s[from]};
    assert rest == rest[..to] + rest[to..];
    assert multiset(rest) == multiset(rest[..to]) + multiset(rest[to..]);
    rest[..to] + [s[from]] + rest[to..]
  }

  /** The sortable ids, one per slot. */
  const Slots: seq<int> := [1, 2, 3, 4, 5, 6]

  /** The slot order after a move: each of the slots 1..6 exactly once. */
  ghost predicate SlotOrder(ns: seq<int>)
  {
    |ns| == 6 && Seqs.Distinct(ns) && forall v :: v in ns <==> 1 <= v <= 6
  }

  lemma SlotsInOrder()
    ensures SlotOrder(Slots)
  {
    assert Seqs.Distinct(Slots);
  }

  /** Moving one element keeps a slot order a slot order. */
  lemma MoveKeepsSlotOrder(s: seq<int>, from: int, to: int)
    requires SlotOrder(s) && 0 <= from < 6 && 0 <= to < 6
    ensures SlotOrder(ArrayMove(s, from, to))
  {
    var ns := ArrayMove(s, from, to);
    Seqs.DistinctByCount(s);
    Seqs.DistinctByCount(ns);
    forall v ensures v in ns <==> 1 <= v <= 6 {
      assert v in ns <==> v in multiset(ns);
      assert v in s <==> v in multiset(s);
    }
  }

  /** `newSlots` is a rearrangement of 1..6 with the dragged slot at the drop position. */
  lemma MovedSlots(from: int, to: int)
    requires 0 <= from < 6 && 0 <= to < 6
    ensures SlotOrder(ArrayMove(Slots, from, to))
    ensures ArrayMove(Slots, from, to)[to] == from + 1
  {
    SlotsInOrder();
    MoveKeepsSlotOrder(Slots, from, to);
  }

  /**
   * The `updates` the `forEach` over `newSlots` pushes: position `k` holds the
   * slot whose entry moves to slot k + 1, and an empty slot pushes nothing.
   */
  function DragUpdates(team: seq<Pokemon>, ns: seq<int>): (r: seq<Reorder.Item>)
    ensures |r| <= |ns|
    ensures forall j :: 0 <= j < |r| ==>
      && 1 <= r[j].slot <= |ns|
      && FindSlot(team, ns[r[j].slot - 1]).Some?
      && r[j].id == FindSlot(team, ns[r[j].slot - 1]).value.id
    ensures forall a, b :: 0 <= a < b < |r| ==> r[a].slot < r[b].slot
    decreases |ns|
  {
    if ns == [] then []
    else
      var init := ns[..|ns| - 1];
      var before := DragUpdates(team, init);
      assert forall j :: 0 <= j < |before| ==> ns[before[j].slot - 1] == init[before[j].slot - 1];
      match FindSlot(team, ns[|ns| - 1])
      case None => before
      case Some(p) =>
        var r := before + [Reorder.Item(p.id, |ns|)];
        assert forall j :: 0 <= j < |before| ==> r[j] == before[j];
        r
  }

  /** Every occupied position of the order yields an update to the slot one past it. */
  lemma {:induction false} DragUpdateFor(team: seq<Pokemon>, ns: seq<int>, k: int)
    requires 0 <= k < |ns| && FindSlot(team, ns[k]).Some?
    ensures Reorder.Item(FindSlot(team, ns[k]).value.id, k + 1) in DragUpdates(team, ns)
    decreases |ns|
  {
    if k < |ns| - 1 {
      var init := ns[..|ns| - 1];
      assert init[k] == ns[k];
      DragUpdateFor(team, init, k);
    }
  }

  /** The slots that hold an entry, among those in `ns`. */
  ghost function OccupiedIn(team: seq<Pokemon>, ns: seq<int>): set<int>
  {
    set v | v in ns && FindSlot(team, v).Some?
  }

  lemma {:induction false} DragUpdatesCount(team: seq<Pokemon>, ns: seq<int>)
    requires Seqs.Distinct(ns)
    ensures |DragUpdates(team, ns)| == |OccupiedIn(team, ns)|
    decreases |ns|
  {
    if ns == [] {
      assert OccupiedIn(team, ns) == {};
    } else {
      var init := ns[..|ns| - 1];
      var last := ns[|ns| - 1];
      assert ns == init + [last];
      assert Seqs.Distinct(init) by {
        forall a, b | 0 <= a < b < |init| ensures init[a] != init[b] {
          assert init[a] == ns[a] && init[b] == ns[b];
        }
      }
      DragUpdatesCount(team, init);
      assert last !in init by {
        forall a | 0 <= a < |init| ensures init[a] != last {
          assert init[a] == ns[a];
        }
      }
      if FindSlot(team, last).Some? {
        assert OccupiedIn(team, ns) == OccupiedIn(team, init) + {last};
      } else {
        assert OccupiedIn(team, ns) == OccupiedIn(team, init);
      }
    }
  }

  /** The slots 1..6 that hold an entry. */
  ghost function Occupied(team: seq<Pokemon>): set<int>
  {
    set v | 1 <= v <= 6 && FindSlot(team, v).Some?
  }

  /**
   * A drag produces one update per occupied slot and none for an empty slot;
   * the targets are distinct slots in 1..6.
   */
  lemma DragUpdatesPerOccupant(team: seq<Pokemon>, from: int, to: int)
    requires 0 <= from < 6 && 0 <= to < 6
    ensures var us := DragUpdates(team, ArrayMove(Slots, from, to));
      && |us| == |Occupied(team)|
      && (forall j :: 0 <= j < |us| ==> 1 <= us[j].slot <= 6)
      && (forall a, b :: 0 <= a < b < |us| ==> us[a].slot != us[b].slot)
  {
    var ns := ArrayMove(Slots, from, to);
    MovedSlots(from, to);
    DragUpdatesCount(team, ns);
    assert OccupiedIn(team, ns) == Occupied(team);
  }

  /** With distinct ids and slots in the team, no two updates name the same entry. */
  lemma DragUpdateIdsDistinct(team: seq<Pokemon>, ns: seq<int>)
    requires IdsDistinct(team) && Seqs.Distinct(ns)
    ensures var us := DragUpdates(team, ns);
      forall a, b :: 0 <= a < b < |us| ==> us[a].id != us[b].id
  {
    var us := DragUpdates(team, ns);
    forall a, b | 0 <= a < b < |us| ensures us[a].id != us[b].id {
      var pa := FindSlot(team, ns[us[a].slot - 1]).value;
      var pb := FindSlot(team, ns[us[b].slot - 1]).value;
      assert pa.slot != pb.slot;
      var x :| 0 <= x < |team| && team[x] == pa;
      var y :| 0 <= y < |team| && team[y] == pb;
      assert x != y;
      if x < y {
        assert team[x].id != team[y].id;
      } else {
        assert team[y].id != team[x].id;
      }
    }
  }

  /** `updates.find(u => u.id === id)`. */
  function FindUpdate(us: seq<Reorder.Item>, id: int): (r: Option<Reorder.Item>)
    ensures r.Some? ==> r.value in us && r.value.id == id
    ensures r.None? ==> forall u :: u in us ==> u.id != id
  {
    if us == [] then None
    else if us[0].id == id then Some(us[0])
    else FindUpdate(us[1..], id)
  }

  /** `find` returns the first update for the id: no update before it names that id. */
  lemma {:induction false} FindUpdateFirst(us: seq<Reorder.Item>, id: int)
    ensures var r := FindUpdate(us, id);
      r.Some? ==> exists k :: 0 <= k < |us| && us[k] == r.value && forall j :: 0 <= j < k ==> us[j].id != id
  {
    if us != [] && us[0].id != id {
      var r := FindUpdate(us[1..], id);
      FindUpdateFirst(us[1..], id);
      if r.Some? {
        var k :| 0 <= k < |us[1..]| && us[1..][k] == r.value && forall j :: 0 <= j < k ==> us[1..][j].id != id;
        assert us[k + 1] == r.value;
        forall j | 0 <= j < k + 1 ensures us[j].id != id {
          if j > 0 {
            assert us[j] == us[1..][j - 1];
          }
        }
      }
    }
  }

  /** With distinct ids, looking up the id of an update finds that update. */
  lemma FindUpdateOf(us: seq<Reorder.Item>, j: int)
    requires forall a, b :: 0 <= a < b < |us| ==> us[a].id != us[b].id
    requires 0 <= j < |us|
    ensures FindUpdate(us, us[j].id) == Some(us[j])
  {
    assert us[j] in us;
    FindUpdateFirst(us, us[j].id);
    var r := FindUpdate(us, us[j].id);
    var k :| 0 <= k < |us| && us[k] == r.value && forall i :: 0 <= i < k ==> us[i].id != us[j].id;
    assert k == j;
  }

  /** The optimistic `team.map`: an entry with an update takes its slot; nothing else changes. */
  function Optimistic(team: seq<Pokemon>, us: seq<Reorder.Item>): (r: seq<Pokemon>)
    ensures |r| == |team|
    ensures forall i :: 0 <= i < |team| ==> r[i] == team[i].(slot := r[i].slot)
    ensures forall i :: 0 <= i < |team| && (forall u :: u in us ==> u.id != team[i].id) ==> r[i] == team[i]
  {
    seq(|team|, i requires 0 <= i < |team| =>
      match FindUpdate(us, team[i].id)
      case None => team[i]
      case Some(u) => team[i].(slot := u.slot))
  }

  /**
   * After a drag the entry that sat in slot `ns[k]` shows in slot k + 1, and
   * an entry outside slots 1..6 keeps its place.
   */
  lemma OptimisticMoves(team: seq<Pokemon>, from: int, to: int)
    requires IdsDistinct(team) && SlotsDistinct(team)
    requires 0 <= from < 6 && 0 <= to < 6
    ensures var ns := ArrayMove(Slots, from, to);
      var r := Optimistic(team, DragUpdates(team, ns));
      && (forall i, k :: 0 <= i < |team| && 0 <= k < 6 && team[i].slot == ns[k] ==> r[i].slot == k + 1)
      && (forall i :: 0 <= i < |team| && !(1 <= team[i].slot <= 6) ==> r[i] == team[i])
  {
    var ns := ArrayMove(Slots, from, to);
    MovedSlots(from, to);
    forall i, k | 0 <= i < |team| && 0 <= k < 6 && team[i].slot == ns[k]
      ensures Optimistic(team, DragUpdates(team, ns))[i].slot == k + 1
    {
      OptimisticMovesOccupant(team, ns, i, k);
    }
    forall i | 0 <= i < |team| && !(1 <= team[i].slot <= 6)
      ensures Optimistic(team, DragUpdates(team, ns))[i] == team[i]
    {
      OptimisticKeepsOutside(team, ns, i);
    }
  }

  lemma OptimisticMovesOccupant(team: seq<Pokemon>, ns: seq<int>, i: int, k: int)
    requires IdsDistinct(team) && SlotsDistinct(team) && Seqs.Distinct(ns)
    requires 0 <= i < |team| && 0 <= k < |ns| && team[i].slot == ns[k]
    ensures Optimistic(team, DragUpdates(team, ns))[i].slot == k + 1
  {
    var us := DragUpdates(team, ns);
    DragUpdateIdsDistinct(team, ns);
    FindOwnSlot(team, i);
    DragUpdateFor(team, ns, k);
    var j :| 0 <= j < |us| && us[j] == Reorder.Item(team[i].id, k + 1);
    FindUpdateOf(us, j);
  }

  lemma OptimisticKeepsOutside(team: seq<Pokemon>, ns: seq<int>, i: int)
    requires IdsDistinct(team) && SlotOrder(ns)
    requires 0 <= i < |team| && !(1 <= team[i].slot <= 6)
    ensures Optimistic(team, DragUpdates(team, ns))[i] == team[i]
  {
    var us := DragUpdates(team, ns);
    forall j | 0 <= j < |us| ensures us[j].id != team[i].id {
      var p := FindSlot(team, ns[us[j].slot - 1]).value;
      assert ns[us[j].slot - 1] in ns;
      var x :| 0 <= x < |team| && team[x] == p;
      assert team[x].slot != team[i].slot;
      assert x != i;
      if x < i {
        assert team[x].id != team[i].id;
      } else {
        assert team[i].id != team[x].id;
      }
    }
    assert forall u :: u in us ==> u.id != team[i].id;
  }

  /**
   * `handleDragEnd` for a card dragged from slot `activeId` and dropped on
   * slot `overId`: nothing when dropped on itself, otherwise the `items`
   * payload of the reorder request and the optimistic team.
   */
  method HandleDragEnd(team: seq<Pokemon>, activeId: int, overId: int)
    returns (r: Option<(seq<Reorder.Item>, seq<Pokemon>)>)
    requires 1 <= activeId <= 6 && 1 <= overId <= 6
    ensures r.None? <==> activeId == overId
    ensures r.Some? ==>
      var ns := ArrayMove(Slots, activeId - 1, overId - 1);
      r.value.0 == DragUpdates(team, ns) && r.value.1 == Optimistic(team, r.value.0)
  {
    if activeId == overId {
      return None;
    }
    var ns := ArrayMove(Slots, activeId - 1, overId - 1);
    var updates := CollectUpdates(team, ns);
    r := Some((updates, Optimistic(team, updates)));
  }

  /** The `forEach` over `newSlots` that pushes one `{ id, slot }` per occupied position. */
  method CollectUpdates(team: seq<Pokemon>, ns: seq<int>) returns (updates: seq<Reorder.Item>)
    ensures updates == DragUpdates(team, ns)
  {
    updates := [];
    var i := 0;
    while i < |ns|
      invariant 0 <= i <= |ns|
      invariant updates == DragUpdates(team, ns[..i])
    {
      assert ns[..i + 1][..i] == ns[..i];
      var found := FindSlot(team, ns[i]);
      if found.Some? {
        updates := updates + [Reorder.Item(found.value.id, i + 1)];
      }
      i := i + 1;
    }
    assert ns[..|ns|] == ns;
  }

  /** `!editingSlot` is false: a slot is being edited. */
  predicate Editing(editingSlot: Option<int>)
  {
    editingSlot.Some? && editingSlot.value != 0
  }

  /** The sprite `saveSlot` sends: the custom URL, else the selection's, else the existing entry's. */
  function SpriteChoice(existing: Option<Pokemon>, selected: Option<Choice>, custom: string): Option<string>
  {
    if custom != "" then Some(custom)
    else if selected.Some? then selected.value.sprite
    else if existing.Some? then existing.value.spriteUrl
    else None
  }

  /**
   * The species `saveSlot` sends: the selection's name, else the existing
   * entry's species, else "Custom"; a nameless selection on a new slot with a
   * custom URL also becomes "Custom".
   */
  function SpeciesChoice(existing: Option<Pokemon>, selected: Option<Choice>, custom: string): Option<string>
  {
    if selected.Some? then
      if selected.value.name == "" && custom != "" && existing.None? then Some("Custom") else Some(selected.value.name)
    else if existing.Some? then existing.value.species
    else Some("Custom")
  }

  /** `saveSlot` gives up, with an alert, when a new slot would get neither a species nor a sprite. */
  predicate NothingToSave(existing: Option<Pokemon>, selected: Option<Choice>, custom: string)
  {
    existing.None? && custom == "" && (selected.None? || (selected.value.name == "" && !Truthy(selected.value.sprite)))
  }

  /**
   * `saveSlot`: the body it posts for the slot being edited, or None when it
   * returns without a request.
   */
  method SaveSlot(userKey: Option<string>, editingSlot: Option<int>, team: seq<Pokemon>,
                  selected: Option<Choice>, custom: string, nickname: string, isDead: bool)
    returns (r: Option<Server.SlotBody>)
    ensures !Truthy(userKey) || !Editing(editingSlot) ==> r.None?
    ensures Truthy(userKey) && Editing(editingSlot) ==>
      var existing := FindSlot(team, editingSlot.value);
      && (r.None? <==> NothingToSave(existing, selected, custom))
      && (r.Some? ==>
        && r.value.slot == editingSlot
        && r.value.spriteUrl == SpriteChoice(existing, selected, custom)
        && r.value.species == SpeciesChoice(existing, selected, custom)
        && r.value.name == (if nickname != "" then Some(nickname) else r.value.species)
        && r.value.isDead == isDead)
  {
    if !Truthy(userKey) || !Editing(editingSlot) {
      return None;
    }
    var existing := FindSlot(team, editingSlot.value);
    var species := if existing.Some? then existing.value.species else None;
    var spriteUrl := if existing.Some? then existing.value.spriteUrl else None;
    if selected.Some? {
      species := Some(selected.value.name);
      spriteUrl := selected.value.sprite;
    }
    if custom != "" {
      spriteUrl := Some(custom);
      if !Truthy(species) && existing.None? {
        species := Some("Custom");
      }
    }
    if !Truthy(species) && !Truthy(spriteUrl) && existing.None? {
      return None;
    }
    if selected.None? && custom == "" && existing.Some? {
      species := existing.value.species;
      spriteUrl := existing.value.spriteUrl;
    }
    var name := if nickname != "" then Some(nickname) else species;
    r := Some(Server.SlotBody(editingSlot, name, species, spriteUrl, isDead));
  }

  /** An existing entry edited with nothing new picked is resent with the same species and sprite. */
  lemma SaveKeepsExisting(existing: Pokemon, custom: string)
    ensures SpriteChoice(Some(existing), None, "") == existing.spriteUrl
    ensures SpeciesChoice(Some(existing), None, custom) == existing.species
    ensures !NothingToSave(Some(existing), None, custom)
  {
  }

  /** "Custom" appears only for a new slot with a custom URL and no named selection. */
  lemma CustomOnlyForNewSlot(existing: Option<Pokemon>, selected: Option<Choice>, custom: string)
    requires !NothingToSave(existing, selected, custom)
    requires SpeciesChoice(existing, selected, custom) == Some("Custom")
    requires selected.Some? ==> selected.value.name != "Custom"
    requires existing.Some? ==> existing.value.species != Some("Custom")
    ensures existing.None? && custom != ""
    ensures selected.None? || selected.value.name == ""
  {
  }

  /**
   * `toggleDeadStatus(slot, currentStatus)`: the body it posts, resending the
   * entry's name, species and sprite with the flag negated; None when there
   * is no key or the slot is empty.
   */
  function ToggleDeadStatus(userKey: Option<string>, team: seq<Pokemon>, slot: int, currentStatus: bool)
    : (r: Option<Server.SlotBody>)
    ensures r.Some? <==> Truthy(userKey) && FindSlot(team, slot).Some?
    ensures r.Some? ==> r.value.slot == Some(slot) && r.value.isDead == !currentStatus
    ensures r.Some? ==> var p := FindSlot(team, slot).value;
      r.value.name == p.name && r.value.species == p.species && r.value.spriteUrl == p.spriteUrl
  {
    if !Truthy(userKey) then None
    else match FindSlot(team, slot)
      case None => None
      case Some(p) => Some(Server.SlotBody(Some(slot), p.name, p.species, p.spriteUrl, !currentStatus))
  }
}
