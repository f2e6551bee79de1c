# Thread loader model

A Dafny model of the thread loader in `src/engine/network/utils/thread.ts`.
The loader of the Coracle Nostr client reconstructs the conversation around
one subject note. It has three cells: the thread's `root`, the subject's
`parent`, and a list of generic `ancestors`. It asks for the notes the subject
refers to. It files each delivered note into one of the cells, by looking it
up in the subject's own NIP-10 reply and root references. Then it asks for
whatever the delivered notes refer to that the thread does not hold yet.

Modules:

- `Wrappers` (`wrappers.dfy`): `Option`.
- `Events` (`events.dfy`): a note as the loader sees it. It has an id, a
  creation time, an optional address (for replaceable notes), and its root,
  reply and mention references. `IdOrAddress` stands for `getIdOrAddress`.
  `EventIds` and `IdsOf` stand for `getIds` and the flattened seen-set.
- `AncestorList` (`merge.dfy`): the merge at line 84. The batch is put in
  front of the stored list. `UniqByFrom` / `UniqById` then keep the first
  entry for each id, as ramda's `uniqBy` does. Finally `SortByTime` does a
  stable sort by `created_at`, as ramda's `sortBy` does.
- `Thread` (`thread.dfy`): `getAncestorIds`, the classification, and the
  `ThreadLoader` class. The class keeps the `stopped` flag and the three cells
  as fields. Its methods change those fields in place.

The network is a parameter of the model. `LoadNotes` returns the ids it would
request (`None` when no request is issued). A delivered batch is an input to
`OnBatch`, which mirrors the `onEvent` callback: file the batch, then load
what it refers to. A JavaScript constructor can issue a request, but a Dafny
constructor cannot return one. So `ThreadLoader.Start` stands for
`new ThreadLoader(note, relays)`: it runs the constructor, then the first
`LoadNotes`.

Where the model follows the code rather than a natural reading of it:

- When an id clashes, the batch's entry wins over the stored one. The local
  batch array comes first in `ancestors.concat($xs)`, and `uniqBy` keeps the
  first element.
- The stop flag is read only by `loadNotes`. A batch delivered after `Stop` is
  therefore still filed by `AddToThread`/`OnBatch`. Only the follow-up request
  is suppressed.

## Model

| member | source | states |
|---|---|---|
| `Thread.AncestorIds` | src/engine/network/utils/thread.ts:13-21 | The result splits into exactly the root references, then the reply references, then the mentions. Duplicates are kept, and the length is the sum of the three. |
| `Thread.BatchAncestorIds` | src/engine/network/utils/thread.ts:54 | An id is in the list passed to `loadNotes` for a batch iff some note of the batch refers to it (filtering happens afterwards, in `LoadNotes`). |
| `Thread.BatchAncestorIdsAppend` | src/engine/network/utils/thread.ts:54 | The batch's ids are the notes' ids concatenated in delivery order. |
| `Thread.Classify` | src/engine/network/utils/thread.ts:69-80 | A note is filed as parent iff the subject's reply references contain its id-or-address. It is filed as root iff it is not a reply and is in the subject's root references. Otherwise it is a generic ancestor. The reply check has priority, and the note's own tags are never consulted. |
| `Thread.Staged` | src/engine/network/utils/thread.ts:70-80 | The staged list holds exactly the batch's notes that are classified as generic ancestors. |
| `Thread.StagedAppend` | src/engine/network/utils/thread.ts:72-80 | Staging goes note by note, so it keeps delivery order. |
| `Thread.LastMatch` | src/engine/network/utils/thread.ts:72-76 | After a batch, a cell holds either its old value or a note of the batch that belongs in that cell. It keeps its old value when no note of the batch belongs there. |
| `Thread.LastMatchLastWins` | src/engine/network/utils/thread.ts:72-76 | When several notes of a batch belong in the same cell, the cell ends up holding the last of them, and that note belongs in the cell. |
| `Thread.Unseen` | src/engine/network/utils/thread.ts:45-46 | An id is kept iff it is in the input, is non-empty and is not yet seen. The result is never longer than the input. |
| `Thread.UnseenAppend` | src/engine/network/utils/thread.ts:46 | The filter works id by id, so the kept ids stay in input order and duplicates follow the input. |
| `Thread.SlotsDisjoint` | src/engine/network/utils/thread.ts:69-85 | When every cell holds only notes that belong there, no id-or-address appears in two of root, parent and ancestors. |
| `Thread.ThreadLoader.constructor` | src/engine/network/utils/thread.ts:24-32 | A new loader is not stopped, all three cells are empty, and the invariant holds. |
| `Thread.ThreadLoader.Start` | src/engine/network/utils/thread.ts:29-34 | Construction immediately requests the subject's non-empty referenced ids, and requests nothing when there are none. |
| `Thread.ThreadLoader.Stop` | src/engine/network/utils/thread.ts:36-38 | The loader is stopped afterwards, and the cells are untouched. |
| `Thread.ThreadLoader.GetThread` | src/engine/network/utils/thread.ts:62-66 | The result is the root (if present) first, then the ancestors in stored order, then the parent (if present) last. Its length is the number of present cells plus the number of ancestors. |
| `Thread.ThreadLoader.Seen` | src/engine/network/utils/thread.ts:45 | The seen-set holds exactly the id and address of the root, of the parent and of every stored ancestor. |
| `Thread.ThreadLoader.LoadNotes` | src/engine/network/utils/thread.ts:40-58 | A stopped loader requests nothing. Otherwise the loader requests exactly the non-empty input ids not among the identifiers of the current thread, in input order. It requests nothing when that list is empty. |
| `Thread.ThreadLoader.AddToThread` | src/engine/network/utils/thread.ts:68-87 | Parent and root become the last matching note of the batch, or keep their old values. Ancestors are unchanged when the batch has no generic ancestor; otherwise they are the merge of the staged notes with the old list. The id set of the ancestors grows by exactly the staged ids. The stop flag is unchanged, and the invariant (sorted, unique ids, every note in its cell) is kept. |
| `Thread.ThreadLoader.OnBatch` | src/engine/network/utils/thread.ts:52-55 | It does what `AddToThread` does, including growing the ancestors' id set by exactly the staged ids. Then it issues the `LoadNotes` request for the batch's referenced ids against the updated thread. It never requests again the id of a generic ancestor it has just filed. |
| `AncestorList.UniqByFrom` | src/engine/network/utils/thread.ts:84 | The result has no repeated id. Its id set is the input's ids minus those already kept, and every entry comes from the input. |
| `AncestorList.UniqByFromKeepsFirst` | src/engine/network/utils/thread.ts:84 | Every kept entry is the first entry in the input with its id. |
| `AncestorList.UniqByFromAppend` | src/engine/network/utils/thread.ts:84 | Uniqueness works left to right, so the kept entries stay in input order. |
| `AncestorList.SortByTime` | src/engine/network/utils/thread.ts:84 | The result is sorted by creation time and is a permutation of the input. |
| `AncestorList.SortByTimeStable` | src/engine/network/utils/thread.ts:84 | The sort is stable: entries with equal creation times keep their input order. |
| `AncestorList.InsertByTimeSorted` | src/engine/network/utils/thread.ts:84 | Inserting into a sorted list keeps it sorted. |
| `AncestorList.SortByTimeIdsUnique` | src/engine/network/utils/thread.ts:84 | Sorting a list without repeated ids leaves it without repeated ids. |
| `AncestorList.Merge` | src/engine/network/utils/thread.ts:84 | The merged ancestors are sorted by creation time and have no repeated id, and their id set is the union of the batch's and the stored ids. |
| `AncestorList.MergeSpec` | src/engine/network/utils/thread.ts:84 | Together with `Merge`'s own contract: every entry of the merge comes from the batch or from the stored list, so nothing is invented. |
| `AncestorList.MergeBatchWins` | src/engine/network/utils/thread.ts:84 | On an id clash, the merge keeps the batch's first entry with that id. An id that only the stored list has keeps the stored list's first entry with that id. |
| `AncestorList.MergeStable` | src/engine/network/utils/thread.ts:84 | Entries of the merge created at the same time keep the order the uniqueness step gave them (batch first, then stored). |
| `AncestorList.FirstWithIdAppend` | src/engine/network/utils/thread.ts:84 | In a concatenation, the first entry with an id comes from the front part whenever the front part has that id. |
| `Events.IdsOf` | src/engine/network/utils/thread.ts:45 | The seen-set holds exactly the identifiers (id and address) of the notes in the thread. |

## Left out

- `src/agent/keys.ts` as a whole. It is a facade over signing backends (a local key, NIP-46 remote signing, the browser extension) and over NIP-04 encryption, with persisted stores. There is no logic of its own to state.
- The network side of `loadNotes`: `load`, `selectHints` and `getIdFilters` (thread.ts:49-51). The request is returned as the list of ids it asks for, and delivered batches are method inputs. `relays` is kept on the loader but not used.
- The 300 ms `batch` coalescing of deliveries (thread.ts:52). Each delivered batch is one atomic `OnBatch` call.
- The `writable` store subscription and notification mechanics (thread.ts:25-27). The cells are plain fields.
- The scheduling of the asynchronous rounds. No driver chains `OnBatch` calls, so the termination of repeated rounds on an acyclic reference graph is not stated.
- `Tags.from(...).getAncestors()`, `replies()` and `roots()` come from the external `paravel` library. A note's three reference lists are given explicitly, and the same root and reply lists serve both `getAncestorIds` and the classification.
- `src/util/nostr.ts` (`getIdOrAddress`) and `src/engine/events/utils.ts` (`getIds`) are not part of this model. A note's identifiers are taken to be its id plus, for replaceable notes, its `address` field. The classification key is the address when present, else the id.
- Ids are strings, so the empty string stands for every falsy id (`null`, `undefined`, `""`); `loadNotes` drops them all alike (thread.ts:46).
- The seen-set is recomputed from the cells each round. A parent or root that a later batch overwrites drops out of the seen-set, so its id can be requested again. The model states "no refetch" only against the thread as it stands (`LoadNotes`, `OnBatch`).
