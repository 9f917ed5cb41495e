# Pokémon team overlay: a verified model of the roster store and its clients

The overlay keeps, for every access key (`apiKey`), a team of up to six
Pokémon in numbered slots. The Express backend stores accounts in a `users`
table and team entries in a `pokemon` table, in SQLite. It serves key
management to an admin page, the orientation setting, and team listing,
upsert, deletion and reordering to the streamer's panel. After every
successful settings or team write it broadcasts an event to the key's
socket room. Creating and deleting keys emits nothing.

This project models that core in Dafny:

- `database.dfy` (`Database`): the two tables. A `users` row is a value in a
  map keyed by `apiKey`, so the primary key holds by construction. The
  `pokemon` table is a sequence of rows. The schema constraints are
  predicates:
  - `IdsUnique`: the primary key on `id`.
  - `SlotsUnique`: `UNIQUE(apiKey, slot)`.
  - `IdsIssued`: AUTOINCREMENT.
  - `FlagsBinary`: `isDead` is 0 or 1.
  - `OwnersExist`: the cascading foreign key.
- `queries.dfy` (`Queries`): the SQL statements of the handlers, as functions
  on the table. They are the upsert (`INSERT … ON CONFLICT(apiKey, slot) DO
  UPDATE`), the per-account selection and ordering, the slot delete and the
  cascade.
- `reorder.dfy` (`Reorder`): the single-row `UPDATE … WHERE id AND apiKey`
  statements and the two loops of `reorderTransaction`. A statement that
  would break `UNIQUE(apiKey, slot)` fails, and the transaction is then
  rolled back.
- `server.dfy` (`Server`): the request handlers of `backend/index.js`.
  - They are methods of a `Store` class holding `users`, `pokemon` and the
    AUTOINCREMENT counter.
  - A ghost `outbox` records the socket events, each as a room (the key) and
    an event kind. Every handler keeps the table invariant. Every 400, 404
    and rolled-back 500 path leaves the store and the outbox unchanged.
  - An event is queued only after a successful write, and only for the key
    that was written.
- `panel.dfy` (`Panel`): the streamer panel's client logic. It covers the
  drag-and-drop reorder payload and its optimistic update (`handleDragEnd`),
  the field resolution of `saveSlot`, and the body `toggleDeadStatus` posts.
- `admin.dfy` (`Admin`): the admin page's key search and its "Total Pokémon"
  figure.
- `sync.dfy` (`Sync`): end-to-end properties that cross client and server.
  - A drag computed on the team the server lists commits whenever every
    entry of the account sits in a positive slot. It then puts every entry
    where the optimistic update shows it. The store does not guarantee
    positive slots, because the reorder endpoint writes whatever target it
    is sent (`Reorder.AnyTargetCommits`). A row left in a non-positive slot
    can make a later, otherwise consistent reorder roll back
    (`Reorder.NonPositiveSlotBlocksReorder`).
  - Toggling an entry flips exactly its stored flag.
  - The admin total counts exactly the rows of existing accounts, which is
    every row when the cascade is in force.
- `seqs.dfy` (`Seqs`) and `wrappers.dfy` (`Wrappers`): a generic filter, an
  insertion sort and `Option`.

Assumptions stated in the model:

- `arrayMove` (from `@dnd-kit/sortable`, whose source is not part of this
  model) is taken to remove the element at the old index and insert it at
  the new one. `Panel.ArrayMove` defines it that way.
- `database.js` never runs `PRAGMA foreign_keys`. Whether `ON DELETE CASCADE`
  fires therefore depends on the SQLite build's default. The store carries
  this as a constructor parameter, `cascade`. The foreign-key invariant
  `OwnersExist` is claimed only when it is set.
- SQLite allocates the new rowid, and with it the next AUTOINCREMENT value,
  before it detects the `ON CONFLICT(apiKey, slot)` conflict. So the id
  counter advances by one on every upsert, including one that overwrites an
  existing row. `Queries.Upsert` models this.
- The admin search lower-cases the query but does not trim it. Only the
  blank check uses `trim()`, so a query with a leading space matches only
  keys that contain that space. The model follows the code.

## Model

| member | source | states |
|---|---|---|
| Server.Store.constructor | backend/database.js:5-28 | A fresh store has no accounts, no rows, an id counter at 0 and no events, and satisfies the table invariant. |
| Server.Store.IssueKey | backend/index.js:41-50 | A fresh key gets a `users` row with the clock reading and orientation 'horizontal'. Nothing else changes and no event is queued. A key already present is a 500 with the store unchanged. The admin route at 77-87 runs the same statement. |
| Server.Store.ListKeys | backend/index.js:89-103 | Returns one row per account, each with its columns and the count of its `pokemon` rows, ordered newest `createdAt` first. It does not change the store. |
| Server.Store.DeleteKey | backend/index.js:105-119 | Returns 404, with nothing changed, exactly when the key has no row. Otherwise the account is removed. With the cascade its rows are dropped and all others kept; without it the table is untouched. No event is queued. |
| Server.Store.GetSettings | backend/index.js:123-134 | Returns 404 for an unknown key. Otherwise it returns the stored orientation, or 'horizontal' when that is NULL or empty. |
| Server.Store.PostSettings | backend/index.js:136-157 | Anything but 'horizontal'/'vertical' gives 400; then an unknown key gives 404. Both leave the store and outbox unchanged. Otherwise only that account's orientation changes, and one `settings_updated` event with the value is queued for that key. |
| Server.Store.ListTeam | backend/index.js:161-174 | Returns 404 for an unknown key. Otherwise it returns exactly the account's rows, each once, in strictly increasing slot order. |
| Server.Store.Upsert | backend/index.js:176-209 | A slot that fails the guard gives 400 before any lookup; then an unknown key gives 404. Both leave everything unchanged. Otherwise the table becomes the upsert of the body with the flag stored as 0/1, and one `pokemon_updated` event is queued for that key. |
| Server.Store.ReorderTeam | backend/index.js:211-247 | A non-array payload gives 400 and an unknown key 404, both with nothing changed. A transaction in which any statement breaks `UNIQUE(apiKey, slot)` rolls back: 500, with table and outbox exactly as before. Otherwise the table becomes the two-phase result and one `pokemon_updated` event is queued for that key. |
| Server.Store.NegateAll | backend/index.js:230-232 | The first loop, statement by statement, keeps the table invariant after every row update. It succeeds exactly when the first phase does, leaving the table that phase computes. |
| Server.Store.AssignAll | backend/index.js:235-237 | The second loop, with the same guarantees for the second phase. |
| Server.Store.DeleteSlot | backend/index.js:249-266 | Returns 404 for an unknown key. Otherwise the rows at (key, slot) are removed, every other row stays in order, and one `pokemon_updated` event is queued, even when the slot was empty. |
| Server.ValidSlot | backend/index.js:180-182 | The slot guard lets a slot through exactly when it is present and within 1..6. |
| Server.AllowedOrientation | backend/index.js:140 | Only 'horizontal' and 'vertical' pass, and every accepted value is present and non-empty. |
| Server.ShownOrientation | backend/index.js:130 | A NULL or empty column reads as 'horizontal' and any other value as itself. The reply is never empty. |
| Server.Flag | backend/index.js:200 | The stored flag is 0 or 1, and 1 exactly when `isDead` is set. |
| Server.SettingsReadBack | backend/index.js:130 | A new account (default at database.js line 9) reads as 'horizontal'. An accepted orientation, once stored, reads back as itself. |
| Database.SlotIdentifiesRow | backend/database.js:23 | Two different rows never share both `apiKey` and `slot`. |
| Database.IdIdentifiesRow | backend/database.js:15 | Two different rows never share an `id`. |
| Queries.FindAt | backend/index.js:193 | The conflict target: the first row at (apiKey, slot), or a report that no row is there. |
| Queries.Upsert | backend/index.js:190-198 | Existing rows keep id, owner and slot. Rows elsewhere are unchanged. Anything appended sits at (apiKey, slot). Afterwards the row at (apiKey, slot) holds the four written values. The AUTOINCREMENT counter advances by one on both paths. |
| Queries.UpsertInsertsWhenFree | backend/index.js:190-192 | On a free slot, exactly one row is appended. Its id is one past the counter and larger than every id present. The rest of the table is unchanged. |
| Queries.UpsertOverwritesWhenTaken | backend/index.js:193-197 | On a taken slot, that row keeps its id, owner and slot and takes the four new values. Every other row is unchanged. The counter still advances by one. |
| Queries.UpsertKeepsTables | backend/database.js:15-23 | With a 0/1 flag the upsert keeps id uniqueness, `UNIQUE(apiKey, slot)`, ids within the counter and binary flags. |
| Queries.UpsertIdempotent | backend/index.js:190-200 | Repeating an upsert with the same values leaves the table as the first one left it. Only the AUTOINCREMENT counter moves on. |
| Queries.Owned | backend/index.js:94 | The rows an account joins with: exactly those with its key, in table order. |
| Queries.CountOwned | backend/index.js:92-95 | `COUNT(pokemon.id)` for one account is at most the table size, and 0 exactly when no row has that key. |
| Queries.Team | backend/index.js:169 | Exactly the account's rows, as a permutation of them, in strictly increasing slot order. |
| Queries.DeleteAt | backend/index.js:258-259 | Keeps exactly the rows not at (apiKey, slot), in their order. |
| Queries.DeleteAtEffect | backend/index.js:258-259 | Deleting an empty slot changes nothing. Deleting a taken one removes exactly one row. |
| Queries.DropAccount | backend/database.js:22 | After the cascade, exactly the rows of other accounts remain, in their order. |
| Queries.FilterKeepsTables | backend/database.js:15-23 | Any `DELETE FROM pokemon` keeps the table invariant. |
| Reorder.SetSlot | backend/index.js:225 | A successful statement changes only the slot of the row with that id and key. That row's slot becomes the requested slot, and `UNIQUE(apiKey, slot)` holds. |
| Reorder.SetSlotOutcome | backend/index.js:225 | The statement fails exactly when the row with that id belongs to the account and another row of the account holds the slot. An id naming no row of the account, such as one owned by another key, changes nothing. |
| Reorder.Negate | backend/index.js:226 | The negating statement changes only the slot of the row with that id and key. That row's slot becomes the negation of its old slot, and `UNIQUE(apiKey, slot)` holds. |
| Reorder.Phase1 | backend/index.js:230-232 | A completed first loop keeps every row and never breaks `UNIQUE(apiKey, slot)`. |
| Reorder.Phase2 | backend/index.js:235-237 | A completed second loop keeps every row and never breaks `UNIQUE(apiKey, slot)`. |
| Reorder.Transaction | backend/index.js:228-240 | The two loops in sequence: None is the rolled-back transaction. A committed one keeps every row and never breaks `UNIQUE(apiKey, slot)`. |
| Reorder.Phase1FailsFrom | backend/index.js:230-232 | Once a statement of the first loop fails, the loop fails. |
| Reorder.Phase2FailsFrom | backend/index.js:235-237 | Once a statement of the second loop fails, the loop fails. |
| Reorder.Phase1Moves | backend/index.js:230-232 | The first loop changes only slots of listed rows of the account and keeps slot uniqueness. |
| Reorder.Phase2Moves | backend/index.js:235-237 | The same holds for the second loop. |
| Reorder.Phase1Negates | backend/index.js:229-232 | With distinct listed ids, a completed first loop leaves every listed row of the account holding the negation of its slot, and nothing else changed. It always completes when the account's slots are positive. |
| Reorder.TransactionTouchesOnlyListed | backend/index.js:228-238 | Whatever the payload, a committed reorder changes nothing but slots of rows that belong to the key and are named in the payload, and keeps the table invariant. |
| Reorder.ReorderCorrect | backend/index.js:228-240 | When every row of the account sits in a positive slot, a consistent payload commits. Each listed row of the account then holds its requested slot, and every unlisted row is untouched. A payload is consistent when ids and targets are distinct, targets are positive, and no unlisted row of the account holds a target. |
| Reorder.AnyTargetCommits | backend/index.js:236 | The second loop writes any target it is sent: a payload asking for slot -1 commits and leaves that row in slot -1. |
| Reorder.NonPositiveSlotBlocksReorder | backend/index.js:231 | With one row of the account already in slot -3, an otherwise consistent payload that moves the row in slot 3 rolls back. Negating slot 3 collides with it. |
| Reorder.SwapNeedsTwoPhases | backend/index.js:229-237 | For two entries swapping slots, writing the targets directly fails on the first statement, while the negate-then-assign transaction commits the swap. |
| Panel.FindSlot | fronted/src/pages/Panel.tsx:255 | `team.find` by slot returns an entry of the team in that slot, or nothing when no entry is there. |
| Panel.FindSlotFirst | fronted/src/pages/Panel.tsx:255 | The entry `find` returns is the first in the slot: no entry before it sits there. |
| Panel.FindOwnSlot | fronted/src/pages/Panel.tsx:343 | With distinct slots, looking up an entry's slot finds that entry. |
| Panel.ArrayMove | fronted/src/pages/Panel.tsx:337 | The assumed `arrayMove`: the moved element lands at the new index and the result is a permutation of the input. |
| Panel.MovedSlots | fronted/src/pages/Panel.tsx:336-337 | `newSlots` holds 1..6, each exactly once, with the dragged slot at the drop index. |
| Panel.DragUpdates | fronted/src/pages/Panel.tsx:341-347 | Every update names the entry found in slot `newSlots[k]` and targets k + 1. Targets strictly increase. |
| Panel.DragUpdateFor | fronted/src/pages/Panel.tsx:343-346 | Every occupied position of `newSlots` produces its update. |
| Panel.DragUpdatesCount | fronted/src/pages/Panel.tsx:343-346 | Over distinct slot numbers, there are as many updates as occupied slots; empty slots produce none. |
| Panel.DragUpdatesPerOccupant | fronted/src/pages/Panel.tsx:341-347 | A drag yields one update per occupied slot in 1..6, with distinct targets in 1..6. |
| Panel.DragUpdateIdsDistinct | fronted/src/pages/Panel.tsx:341-347 | With distinct ids in the team, the updates name distinct ids. |
| Panel.FindUpdate | fronted/src/pages/Panel.tsx:351 | `updates.find` by id returns an update with that id, or nothing when none has it. |
| Panel.FindUpdateFirst | fronted/src/pages/Panel.tsx:351 | The update `find` returns is the first for the id: no update before it names that id. |
| Panel.FindUpdateOf | fronted/src/pages/Panel.tsx:351 | When no two updates share an id, looking up an update's id returns that very update. |
| Panel.Optimistic | fronted/src/pages/Panel.tsx:350-353 | The optimistic team differs from the old one only in `slot`. An entry no update names is unchanged. |
| Panel.OptimisticMoves | fronted/src/pages/Panel.tsx:350-353 | After a drag, the entry that sat in slot `newSlots[k]` shows in slot k + 1, and an entry outside 1..6 stays unchanged. |
| Panel.CollectUpdates | fronted/src/pages/Panel.tsx:341-347 | The `forEach` that pushes updates builds exactly the update list. |
| Panel.HandleDragEnd | fronted/src/pages/Panel.tsx:329-357 | Nothing happens exactly when a card is dropped on its own slot. Otherwise it returns the `items` payload and the optimistic team computed from it. |
| Panel.SaveSlot | fronted/src/pages/Panel.tsx:272-310 | With no key or no slot being edited it returns without a request. Otherwise it returns without a request exactly when a new slot would get no species and no sprite. The body names the edited slot, has the sprite, species and name precedence, and sends `isDead` as set. |
| Panel.SaveKeepsExisting | fronted/src/pages/Panel.tsx:298-301 | An existing entry saved with no new selection and no custom URL is resent with its own species and sprite. |
| Panel.CustomOnlyForNewSlot | fronted/src/pages/Panel.tsx:285-290 | Species "Custom" is produced only for a new slot with a custom URL and no named selection. |
| Panel.ToggleDeadStatus | fronted/src/pages/Panel.tsx:253-265 | Posts only with a key and an occupied slot. It resends that entry's name, species and sprite for the same slot, with `isDead` negated. |
| Admin.SkipSpace | fronted/src/pages/Admin.tsx:120 | The scan for the start of `trim()` passes only white space and stops at the first other character, or at the end. |
| Admin.SkipSpaceBack | fronted/src/pages/Admin.tsx:120 | The backward scan for the end of `trim()` passes only white space and stops just after the last other character, never going below its lower bound. |
| Admin.Trim | fronted/src/pages/Admin.tsx:120 | `trim()` returns a slice of the query with only white space cut off on either side, and a non-empty result neither starts nor ends with white space. |
| Admin.Lower | fronted/src/pages/Admin.tsx:123 | `toLowerCase` keeps the length, lowers each ASCII letter and leaves no upper-case ASCII letter. |
| Admin.Contains | fronted/src/pages/Admin.tsx:125 | `includes`: a match needs a needle no longer than the haystack. The empty needle and the haystack itself always match. |
| Admin.BlankIsAllSpace | fronted/src/pages/Admin.tsx:120 | `trim()` gives the empty string exactly when the query is all white space. |
| Admin.FilterUsers | fronted/src/pages/Admin.tsx:119-128 | A blank query shows every account. Otherwise it shows exactly the accounts whose lower-cased key contains the lower-cased query. The result is the listing filtered in order, each row kept as often as it occurs. |
| Admin.FilterIgnoresCase | fronted/src/pages/Admin.tsx:123-125 | Typing the query in upper or lower case gives the same result. |
| Admin.TotalPokemon | fronted/src/pages/Admin.tsx:268 | The `reduce` total is at least every account's count, and 0 exactly when every count is 0. |
| Sync.ClientTeam | fronted/src/pages/Panel.tsx:148-151 | The panel's `team` after fetching the listing holds an entry for every row of the account. |
| Sync.ClientTeamShape | fronted/src/pages/Panel.tsx:148-151 | That team has distinct ids and distinct slots, and each entry is a row of the account. |
| Sync.ToggleFlipsFlag | fronted/src/pages/Panel.tsx:253-265 | Toggling an occupied slot in 1..6, which the handler's slot guard accepts, and applying the upsert statement to the table the panel shows, flips that row's stored flag. Every other column and every other row stay as they were. The id counter advances by one, as on every upsert. |
| Sync.OnBoardListed | fronted/src/pages/Panel.tsx:341-347 | A row of the account in slot `newSlots[k]` is in the drag payload with target k + 1. |
| Sync.ListedIffOnBoard | fronted/src/pages/Panel.tsx:341-347 | A row of the account is named in the drag payload exactly when its slot is in 1..6. |
| Sync.DragPayloadConsistent | fronted/src/pages/Panel.tsx:341-357 | The payload a drag sends is one the reorder transaction applies without any `UNIQUE` collision. |
| Sync.DragCommits | fronted/src/pages/Panel.tsx:329-357 | When every row of the account sits in a positive slot, a drag sent to the reorder endpoint of the table it was computed from commits. The row in slot `newSlots[k]` ends in slot k + 1, as the optimistic update shows it. Rows of other keys and rows outside 1..6 are untouched. |
| Sync.TotalCountsOwnedRows | fronted/src/pages/Admin.tsx:268 | Summing `pokemonCount` over listing rows with distinct keys counts the `pokemon` rows owned by those keys. |
| Sync.AdminTotalCountsRows | fronted/src/pages/Admin.tsx:268 | The "Total Pokémon" figure counts every row whose owner still exists. With the cascade in force, that is every row of the table. |

## Left out

- Socket.io transport, connection and `join_room` handling are not modelled. Broadcasts are the ghost `outbox` of the store, which records room and event kind.
- The rate limiters on key creation and admin login are not modelled. They are time-window middleware.
- `crypto.randomUUID` is not modelled. The new key is a parameter of `IssueKey`; a key that already exists gives the primary-key error.
- The admin login route and its password check against the environment are not modelled.
- HTTP, axios, JSON encoding, the PokeAPI search and `localStorage` are not modelled. Handlers take typed arguments, and the client functions return the body they would post.
- The "new in 24h" figure of the admin page is not modelled. It is date and floating-point arithmetic.
- The box endpoints the admin page calls do not exist in the backend and are not modelled. The `keys_updated` event the admin page listens for is never emitted.
- The 500 paths other than a primary-key violation on key creation and a rolled-back reorder are not modelled. These are database I/O failures.
- `createdAt` is a natural clock reading passed in, not SQLite's `CURRENT_TIMESTAMP` text. The order among accounts created at the same instant is left open, as SQLite leaves it.
- The `isDead` column default of 0 is not modelled. The upsert always writes the flag, so no handler relies on the default.
- Server.Store.Upsert: the request body is typed. JavaScript truthiness of non-numeric slots and non-boolean `isDead` values is not modelled, and neither are fractional slots such as 2.5 that pass the range guard. A missing text field is stored as NULL.
- Server.Store.ReorderTeam: payload items are typed `{id, slot}` integers, and non-integer values in the array are not modelled.
- Server.Store.DeleteSlot: the `:slot` path parameter is taken as an integer, and SQLite's comparison of a text parameter with an INTEGER column is not modelled.
- Panel.HandleDragEnd: a drop outside any slot (`over` is null) is not modelled, since that path computes `NaN` indices. The ids are required to be slots 1..6.
- Admin.Lower, Admin.FilterUsers: `toLowerCase` is modelled for ASCII letters only. Unicode case mapping and UTF-16 code units are not modelled.
- Reorder.ReorderCorrect: it requires every row of the account to sit in a positive slot. The store does not keep that true, since the reorder endpoint writes unchecked targets, so no success is promised for a table that holds a non-positive slot.
- Sync.DragCommits: it requires positive slots, for the same reason.
- The cascade of `ON DELETE CASCADE` is a parameter of the store, because whether SQLite enforces it depends on a pragma that the schema never sets.
