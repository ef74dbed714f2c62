# Burgmüller tier list: the ranking board

A model of the state machine inside the `BurgmullerTierList` React component: a board on
which the 25 études of Burgmüller's Op. 100 (ids 1 to 25) are dragged into five ranking
tiers S, A, B, C, D or back into an "unassigned" pool. The component keeps two pieces of
state, `tierAssignments` (one ordered list of piece ids per bucket) and `draggedPiece`
(the id being dragged, or null), and changes them in four handlers: drag start, drag end,
drop and reset.

- `arrayops.dfy`, module `ArrayOps`: the JavaScript array operations the drop handler is
  built from, over `seq<int>`: `filter(id => id !== x)` (`Without`), `indexOf`
  (`IndexOf`, -1 when absent) and `splice(i, 0, x)` (`Splice`), with `InsertBefore`, a
  recursive reference definition of "x immediately in front of the first t".
- `tier_board.dfy`, module `TierBoard`: the buckets, the catalogue, the board object as a
  six-field record (`Assignment`, one field per key `s`, `a`, `b`, `c`, `d`, `unassigned`),
  the partition invariant, `Dropped` (the specification of one drop) with the lemmas that
  say what a drop does, and the class `Board` whose fields are the two state variables and
  whose methods are the four handlers. `Board.Drop` is written the way the handler is: a
  loop over the six keys that copies each bucket with the dragged piece filtered out, then
  either a splice in front of the drop target or a push at the end; its postcondition ties
  the new state to `Dropped`.

The drop target, which the handler finds in the DOM (`closest('[data-piece-id]')` and
`parseInt`), is a parameter `dropTargetId: Option<int>`: `None` stands for "no piece under
the pointer" and for an id that does not parse (NaN). Because the handler tests the id for
truthiness, `Some(0)` counts as no target as well.

Behaviour of the drop handler worth knowing:
- a same-tier drop inserts the piece directly in front of the target, with no row-capacity
  or drag-direction adjustment: dragging 1 onto 3 in `[1,2,3,4]` gives `[2,1,3,4]`
  (`ReorderExample`);
- a drop of an id that no bucket holds still appends it to the destination, so the
  partition lemmas require a catalogue id; that holds because drags start only on rendered
  pieces (src/BurgmullerTierList.jsx:256);
- a drop leaves `draggedPiece` as it is; drag end clears it.

## Model

| member | source | states |
|---|---|---|
| ArrayOps.Without | src/BurgmullerTierList.jsx:88 | the filtered list contains no copy of the dragged id and contains every other id exactly when the input does |
| ArrayOps.WithoutCount | src/BurgmullerTierList.jsx:88 | filtering removes every copy of the dragged id and keeps the count of every other id |
| ArrayOps.WithoutAbsent | src/BurgmullerTierList.jsx:88 | filtering a list that does not hold the id returns the same list |
| ArrayOps.WithoutConcat | src/BurgmullerTierList.jsx:88 | filtering distributes over concatenation, so the survivors keep their relative order |
| ArrayOps.WithoutSingle | src/BurgmullerTierList.jsx:88 | removing the single occurrence from u + [x] + v leaves exactly u + v |
| ArrayOps.IndexOf | src/BurgmullerTierList.jsx:95 | the result is -1 exactly when the id is absent, otherwise a valid position holding the id |
| ArrayOps.IndexOfFirst | src/BurgmullerTierList.jsx:95 | no occurrence of the id comes before the position indexOf reports |
| ArrayOps.Splice | src/BurgmullerTierList.jsx:99 | the spliced list is one longer, has the new id at the splice position, and yields the old list when that position is taken out |
| ArrayOps.InsertBeforeCount | src/BurgmullerTierList.jsx:99 | inserting adds exactly one copy of the dragged id and changes no other count |
| ArrayOps.SpliceAtIndexOf | src/BurgmullerTierList.jsx:95-99 | splicing at the target's indexOf equals the reference definition "in front of the first target" |
| ArrayOps.InsertBeforeWithout | src/BurgmullerTierList.jsx:88-99 | filtering the inserted id out of a list that did not hold it gives back that list, so the insertion is undone by the filter |
| ArrayOps.InsertBeforeAdjacent | src/BurgmullerTierList.jsx:94-100 | the inserted id sits directly in front of the target, no target precedes it, and removing it gives back the list |
| TierBoard.CatalogCount | src/BurgmullerTierList.jsx:16-42 | each id 1..25 occurs in the catalogue exactly once and no other id occurs |
| TierBoard.PartitionedCounts | src/BurgmullerTierList.jsx:45-52 | the partition invariant holds exactly when every id 1..25 occurs once across the six buckets and nothing else occurs (both directions) |
| TierBoard.Catalog | src/BurgmullerTierList.jsx:16-42 | definition: the ids 1 to 25 in catalogue order; CatalogCount states what it holds |
| TierBoard.Partitioned | src/BurgmullerTierList.jsx:45-52 | definition of the board invariant (the buckets hold the catalogue's ids as a multiset); PartitionedCounts spells it out and InitialState, DropPreservesPartition and Board keep it |
| TierBoard.Reorders | src/BurgmullerTierList.jsx:92-97 | definition of the same-tier reorder condition (tier not unassigned, piece in it, truthy target other than the piece, target found); DropReorder and DropAppends state its two outcomes |
| TierBoard.Placed | src/BurgmullerTierList.jsx:92-108 | definition of the destination bucket after a drop; DropReorder and DropAppends state what it holds |
| TierBoard.Dropped | src/BurgmullerTierList.jsx:83-108 | definition of one drop, the specification Board.Drop is proved against; the Drop lemmas state its behaviour |
| TierBoard.InitialState | src/BurgmullerTierList.jsx:45-52 | the initial board (tiers empty, all ids unassigned in catalogue order) partitions the catalogue |
| TierBoard.FilteredMultiset | src/BurgmullerTierList.jsx:83-89 | copying every bucket with the dragged id filtered out removes every copy of that id from the board and leaves the count of every other id as it was |
| TierBoard.DropElsewhere | src/BurgmullerTierList.jsx:86-89 | every bucket other than the destination is its old list with the dragged id filtered out, order kept, and is unchanged if it did not hold the id |
| TierBoard.DropReorder | src/BurgmullerTierList.jsx:92-100 | same-tier reorder (destination not unassigned, piece already there, non-zero target other than the piece and in the tier): the piece lands immediately in front of the target and the other ids keep their order |
| TierBoard.ReorderPlaced | src/BurgmullerTierList.jsx:92-100 | when the reorder condition holds, the target is still in the filtered tier and the new destination is the filtered tier with the piece inserted in front of the first target |
| TierBoard.DropAppends | src/BurgmullerTierList.jsx:92-108 | in every other case (other tier, unassigned, no target, target = piece, target not found) the piece is appended to the filtered destination, which is the old destination plus the piece when it came from elsewhere |
| TierBoard.DropCounts | src/BurgmullerTierList.jsx:86-108 | after a drop each bucket holds the dragged id once if it is the destination and never otherwise, and every other id as often as before |
| TierBoard.DropPlacesOnce | src/BurgmullerTierList.jsx:86-108 | after a drop the piece occurs exactly once, in the destination, and in no other bucket |
| TierBoard.DropMultiset | src/BurgmullerTierList.jsx:86-108 | the multiset of ids on the board changes only in that the dragged id now occurs exactly once |
| TierBoard.MovedOnce | src/BurgmullerTierList.jsx:86-108 | per-bucket counts of that shape add up to the board-wide multiset with the dragged id occurring once |
| TierBoard.DropPreservesPartition | src/BurgmullerTierList.jsx:86-108 | a drop of a catalogue piece on a partitioned board leaves it partitioned |
| TierBoard.DropPreservesTotal | src/BurgmullerTierList.jsx:86-108 | on a partitioned board a drop keeps the sum of the bucket lengths at 25 |
| TierBoard.ReorderExample | src/BurgmullerTierList.jsx:92-100 | dragging 1 onto 3 in the tier [1, 2, 3, 4] gives [2, 1, 3, 4] |
| TierBoard.Board.constructor | src/BurgmullerTierList.jsx:45-56 | the component mounts with the initial partition and nothing dragged |
| TierBoard.Board.DragStart | src/BurgmullerTierList.jsx:63-65 | the dragged piece becomes the given id and the assignments are untouched; the invariant holds for a catalogue id |
| TierBoard.Board.DragEnd | src/BurgmullerTierList.jsx:68-70 | the dragged piece becomes null and the assignments are untouched |
| TierBoard.Board.Drop | src/BurgmullerTierList.jsx:73-112 | with no dragged piece nothing changes; otherwise the new assignments are Dropped of the old ones, the dragged piece stays as it was, and the partition invariant is kept |
| TierBoard.Board.Reset | src/BurgmullerTierList.jsx:120-125 | the state becomes the initial partition with nothing dragged whatever it was before, so a second reset gives the same state |

## Left out

- PDF export (`handleDownloadPDF`, src/BurgmullerTierList.jsx:128-234): DOM construction, calls into `html2canvas` and `jsPDF`, a timer callback and floating-point page scaling.
- The image error fallback and the colour table (src/BurgmullerTierList.jsx:237-245, 287-295), all JSX rendering and inline styles, `handleDragOver`, `e.preventDefault()`, `console.log`, and the `isGeneratingPDF` flag and `contentRef`: presentation and browser calls with no effect on the board state.
- The piece titles of the catalogue (src/BurgmullerTierList.jsx:16-42): only the ids reach the board state.
- Resolving the drop target in the DOM (src/BurgmullerTierList.jsx:79-80): it is the `Option<int>` parameter of `Board.Drop`.
- React's batching and asynchronous state updates: each handler is one atomic update of the fields.
- TierBoard.Board.Drop: the handler builds `newAssignments` from an empty object key by key; the record model starts from the old record and overwrites each of the six keys in the same order, which gives the same object because every key is written.
- TierBoard.DropReorder: states the landing position as the target's `indexOf` in the filtered bucket; that this is the first occurrence of the target is the separate lemma ArrayOps.IndexOfFirst.
