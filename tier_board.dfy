/**
 * The state machine behind the Burgmüller tier list: a board that assigns each of the
 * 25 études to one of five ranking tiers (S, A, B, C, D) or leaves it unassigned, and
 * the four handlers that change it (drag start, drag end, drop, reset).
 *
 * The board state is two fields: `tierAssignments`, an object holding one ordered
 * list of piece ids per bucket, and `draggedPiece`, the id being dragged if any.
 * `Dropped` is the specification of one drop; `Board.Drop` computes it the way the
 * handler does (filter every bucket, then splice or push). The lemmas below say what
 * a drop does: the buckets keep partitioning the catalogue, the dragged piece ends up
 * exactly once and only in the destination, every other bucket only loses that piece,
 * and the destination either gets it immediately in front of the drop target or at
 * its end.
 */
module TierBoard {
  import opened ArrayOps

  datatype Option<T> = None | Some(value: T)

  /** The six drop zones: the five ranking tiers and the pool of unranked pieces. */
  datatype Bucket = S | A | B | C | D | Unassigned

  /** The buckets in the order the board object lists its keys. */
  const Buckets: seq<Bucket> := [S, A, B, C, D, Unassigned]

  /** Where a bucket stands in Buckets. */
  function Position(b: Bucket): (k: nat)
    ensures k < |Buckets| && Buckets[k] == b
    ensures forall j :: 0 <= j < |Buckets| && Buckets[j] == b ==> j == k
  {
    match b
    case S => 0
    case A => 1
    case B => 2
    case C => 3
    case D => 4
    case Unassigned => 5
  }

  /** The ids of the 25 études, in catalogue order: 1, 2, ..., 25. */
  function Catalog(): seq<int>
  {
    seq(25, i => i + 1)
  }

  /** Each of the ids 1 to 25 occurs in the catalogue exactly once, and nothing else does. */
  lemma CatalogCount(x: int)
    ensures multiset(Catalog())[x] == if 1 <= x <= 25 then 1 else 0
  {
    RangeCount(25, x);
  }

  lemma {:induction false} RangeCount(n: nat, x: int)
    ensures multiset(seq(n, i => i + 1))[x] == if 1 <= x <= n then 1 else 0
  {
    if n > 0 {
      assert seq(n, i => i + 1) == seq(n - 1, i => i + 1) + [n];
      RangeCount(n - 1, x);
    }
  }

  /** The board object: one ordered list of ids per bucket, under the keys s..d, unassigned. */
  datatype Assignment = Assignment(
    s: seq<int>, a: seq<int>, b: seq<int>, c: seq<int>, d: seq<int>, unassigned: seq<int>)
  {
    /** `tierAssignments[tier]` */
    function Get(tier: Bucket): seq<int>
    {
      match tier
      case S => s
      case A => a
      case B => b
      case C => c
      case D => d
      case Unassigned => unassigned
    }

    /** `tierAssignments` with the list under `tier` replaced by `v`. */
    function With(tier: Bucket, v: seq<int>): (r: Assignment)
      ensures r.Get(tier) == v
      ensures forall u :: u != tier ==> r.Get(u) == Get(u)
    {
      match tier
      case S => this.(s := v)
      case A => this.(a := v)
      case B => this.(b := v)
      case C => this.(c := v)
      case D => this.(d := v)
      case Unassigned => this.(unassigned := v)
    }

    /** Every id on the board, bucket after bucket. */
    function Flatten(): seq<int>
    {
      s + a + b + c + d + unassigned
    }
  }

  /** Two boards are the same when every bucket holds the same list. */
  lemma AssignmentExt(x: Assignment, y: Assignment)
    requires forall t :: x.Get(t) == y.Get(t)
    ensures x == y
  {
    assert x.Get(S) == y.Get(S) && x.Get(A) == y.Get(A) && x.Get(B) == y.Get(B);
    assert x.Get(C) == y.Get(C) && x.Get(D) == y.Get(D) && x.Get(Unassigned) == y.Get(Unassigned);
  }

  /** The buckets partition the catalogue: every id 1..25 occurs exactly once among them. */
  predicate Partitioned(m: Assignment)
  {
    multiset(m.Flatten()) == multiset(Catalog())
  }

  /** Partitioned, spelled out id by id (both directions). */
  lemma PartitionedCounts(m: Assignment)
    ensures Partitioned(m) <==>
      forall x :: multiset(m.Flatten())[x] == if 1 <= x <= 25 then 1 else 0
  {
    forall x ensures multiset(Catalog())[x] == if 1 <= x <= 25 then 1 else 0 {
      CatalogCount(x);
    }
  }

  /** The state the board starts in and is reset to: all tiers empty, every piece unassigned. */
  function InitialState(): (m: Assignment)
    ensures Partitioned(m)
  {
    var start := Assignment([], [], [], [], [], Catalog());
    assert start.Flatten() == Catalog();
    start
  }

  /**
   * The same-tier reorder applies: the destination is a ranking tier that already holds
   * the piece, the drop landed on another piece (a non-zero id that is not the dragged
   * one), and that piece is in the destination.
   */
  predicate Reorders(m: Assignment, piece: int, tier: Bucket, target: Option<int>)
  {
    tier != Unassigned && piece in m.Get(tier) &&
    target.Some? && target.value != 0 && target.value != piece &&
    target.value in m.Get(tier)
  }

  /** The destination bucket after the drop. */
  function Placed(m: Assignment, piece: int, tier: Bucket, target: Option<int>): seq<int>
  {
    var rest := Without(m.Get(tier), piece);
    if Reorders(m, piece, tier, target) then
      InsertBefore(rest, target.value, piece)
    else
      rest + [piece]
  }

  /** Every bucket with `piece` filtered out. */
  function Filtered(m: Assignment, piece: int): (r: Assignment)
    ensures forall t :: r.Get(t) == Without(m.Get(t), piece)
  {
    Assignment(Without(m.s, piece), Without(m.a, piece), Without(m.b, piece),
               Without(m.c, piece), Without(m.d, piece), Without(m.unassigned, piece))
  }

  /** Filtering every bucket takes every copy of the piece off the board and nothing else. */
  lemma FilteredMultiset(m: Assignment, piece: int)
    ensures multiset(Filtered(m, piece).Flatten()) == multiset(m.Flatten())[piece := 0]
  {
    var f := m.Flatten();
    WithoutConcat(m.s + m.a + m.b + m.c + m.d, m.unassigned, piece);
    WithoutConcat(m.s + m.a + m.b + m.c, m.d, piece);
    WithoutConcat(m.s + m.a + m.b, m.c, piece);
    WithoutConcat(m.s + m.a, m.b, piece);
    WithoutConcat(m.s, m.a, piece);
    assert Filtered(m, piece).Flatten() == Without(f, piece);
    forall x ensures multiset(Without(f, piece))[x] == multiset(f)[piece := 0][x] {
      WithoutCount(f, piece, x);
    }
  }

  /**
   * Specification of a drop of `piece` onto bucket `tier`, the pointer over the piece
   * `target` (if any): the piece leaves every bucket, then is placed in `tier`.
   */
  function Dropped(m: Assignment, piece: int, tier: Bucket, target: Option<int>): Assignment
  {
    Filtered(m, piece).With(tier, Placed(m, piece, tier, target))
  }

  /** Every bucket but the destination only loses the piece, in order; one without it is untouched. */
  lemma DropElsewhere(m: Assignment, piece: int, tier: Bucket, target: Option<int>, t: Bucket)
    requires t != tier
    ensures Dropped(m, piece, tier, target).Get(t) == Without(m.Get(t), piece)
    ensures piece !in m.Get(t) ==> Dropped(m, piece, tier, target).Get(t) == m.Get(t)
  {
    if piece !in m.Get(t) {
      WithoutAbsent(m.Get(t), piece);
    }
  }

  /**
   * Same-tier reorder: the piece lands immediately in front of the target, at the
   * position indexOf finds it in the filtered bucket (the first one, by IndexOfFirst),
   * and taking the piece out again leaves the old bucket minus the piece, in order.
   */
  lemma DropReorder(m: Assignment, piece: int, tier: Bucket, target: int)
    requires tier != Unassigned && piece in m.Get(tier)
    requires target != 0 && target != piece && target in m.Get(tier)
    ensures var r, rest := Dropped(m, piece, tier, Some(target)).Get(tier), Without(m.Get(tier), piece);
      var k := IndexOf(rest, target);
      0 <= k && k + 1 < |r| && r[k] == piece && r[k + 1] == target && r[..k] + r[k + 1..] == rest
  {
    var rest := Without(m.Get(tier), piece);
    ReorderPlaced(m, piece, tier, Some(target));
    InsertBeforeAdjacent(rest, target, piece);
  }

  /** When the reorder applies, the destination is the filtered tier with the piece put before the target. */
  lemma ReorderPlaced(m: Assignment, piece: int, tier: Bucket, target: Option<int>)
    requires Reorders(m, piece, tier, target)
    ensures target.value in Without(m.Get(tier), piece)
    ensures Dropped(m, piece, tier, target).Get(tier) ==
      InsertBefore(Without(m.Get(tier), piece), target.value, piece)
  {
  }

  /**
   * In every other case the piece is appended: a move from another bucket, any drop into
   * Unassigned, no target (or target id 0), a drop onto the piece itself, or a target
   * that is not in the destination.
   */
  lemma DropAppends(m: Assignment, piece: int, tier: Bucket, target: Option<int>)
    requires tier == Unassigned || piece !in m.Get(tier) || target.None? ||
             target == Some(0) || target == Some(piece) || target.value !in m.Get(tier)
    ensures Dropped(m, piece, tier, target).Get(tier) == Without(m.Get(tier), piece) + [piece]
    ensures piece !in m.Get(tier) ==> Dropped(m, piece, tier, target).Get(tier) == m.Get(tier) + [piece]
  {
    assert !Reorders(m, piece, tier, target);
    if piece !in m.Get(tier) {
      WithoutAbsent(m.Get(tier), piece);
    }
  }

  /**
   * How often each id occurs in each bucket after a drop: the piece once in the
   * destination and nowhere else, every other id as often as before.
   */
  lemma DropCounts(m: Assignment, piece: int, tier: Bucket, target: Option<int>, t: Bucket, x: int)
    ensures multiset(Dropped(m, piece, tier, target).Get(t))[x] ==
      if x == piece then (if t == tier then 1 else 0) else multiset(m.Get(t))[x]
  {
    WithoutCount(m.Get(t), piece, x);
    if t == tier && Reorders(m, piece, tier, target) {
      InsertBeforeCount(Without(m.Get(tier), piece), target.value, piece);
    }
  }

  /** After a drop the piece occurs exactly once on the board, in the destination. */
  lemma DropPlacesOnce(m: Assignment, piece: int, tier: Bucket, target: Option<int>)
    ensures var r := Dropped(m, piece, tier, target);
      multiset(r.Get(tier))[piece] == 1 && forall t :: t != tier ==> piece !in r.Get(t)
  {
    DropCounts(m, piece, tier, target, tier, piece);
    forall t | t != tier ensures piece !in Dropped(m, piece, tier, target).Get(t) {
      DropCounts(m, piece, tier, target, t, piece);
    }
  }

  /** The ids on the board, counted bucket by bucket. */
  lemma FlattenCount(m: Assignment, x: int)
    ensures multiset(m.Flatten())[x] ==
      multiset(m.Get(S))[x] + multiset(m.Get(A))[x] + multiset(m.Get(B))[x] +
      multiset(m.Get(C))[x] + multiset(m.Get(D))[x] + multiset(m.Get(Unassigned))[x]
  {
  }

  /** The multiset of ids on the board changes only in that the piece now occurs once. */
  lemma DropMultiset(m: Assignment, piece: int, tier: Bucket, target: Option<int>)
    ensures multiset(Dropped(m, piece, tier, target).Flatten()) == multiset(m.Flatten())[piece := 1]
  {
    var r := Dropped(m, piece, tier, target);
    forall t, x
      ensures multiset(r.Get(t))[x] ==
        if x == piece then (if t == tier then 1 else 0) else multiset(m.Get(t))[x]
    {
      DropCounts(m, piece, tier, target, t, x);
    }
    MovedOnce(m, r, piece, tier);
  }

  /** If r differs from m only in that `piece` now occurs once, in `tier`, so does the whole board. */
  lemma MovedOnce(m: Assignment, r: Assignment, piece: int, tier: Bucket)
    requires forall t, x :: multiset(r.Get(t))[x] ==
                            if x == piece then (if t == tier then 1 else 0) else multiset(m.Get(t))[x]
    ensures multiset(r.Flatten()) == multiset(m.Flatten())[piece := 1]
  {
    forall x ensures multiset(r.Flatten())[x] == multiset(m.Flatten())[piece := 1][x] {
      FlattenCount(r, x);
      FlattenCount(m, x);
      assert multiset(r.Get(S))[x] == if x == piece then (if S == tier then 1 else 0) else multiset(m.Get(S))[x];
      assert multiset(r.Get(A))[x] == if x == piece then (if A == tier then 1 else 0) else multiset(m.Get(A))[x];
      assert multiset(r.Get(B))[x] == if x == piece then (if B == tier then 1 else 0) else multiset(m.Get(B))[x];
      assert multiset(r.Get(C))[x] == if x == piece then (if C == tier then 1 else 0) else multiset(m.Get(C))[x];
      assert multiset(r.Get(D))[x] == if x == piece then (if D == tier then 1 else 0) else multiset(m.Get(D))[x];
      assert multiset(r.Get(Unassigned))[x] ==
        if x == piece then (if Unassigned == tier then 1 else 0) else multiset(m.Get(Unassigned))[x];
    }
  }

  /** A drop of a catalogue piece keeps the buckets a partition of the catalogue. */
  lemma DropPreservesPartition(m: Assignment, piece: int, tier: Bucket, target: Option<int>)
    requires Partitioned(m) && piece in Catalog()
    ensures Partitioned(Dropped(m, piece, tier, target))
  {
    DropMultiset(m, piece, tier, target);
    CatalogCount(piece);
    assert multiset(Catalog())[piece := 1] == multiset(Catalog());
  }

  /** A drop of a catalogue piece on a partitioned board keeps the number of ids on it. */
  lemma DropPreservesTotal(m: Assignment, piece: int, tier: Bucket, target: Option<int>)
    requires Partitioned(m) && piece in Catalog()
    ensures |Dropped(m, piece, tier, target).Flatten()| == |m.Flatten()| == 25
  {
    var r := Dropped(m, piece, tier, target);
    DropPreservesPartition(m, piece, tier, target);
    assert |multiset(m.Flatten())| == |m.Flatten()|;
    assert |multiset(r.Flatten())| == |r.Flatten()|;
    assert |multiset(Catalog())| == 25;
  }

  /** Dragging piece 1 onto piece 3 of the tier [1, 2, 3, 4] gives [2, 1, 3, 4]. */
  lemma ReorderExample(m: Assignment)
    requires m.a == [1, 2, 3, 4]
    ensures Dropped(m, 1, A, Some(3)).a == [2, 1, 3, 4]
  {
    var rest := Without([1, 2, 3, 4], 1);
    assert rest == [2, 3, 4] by {
      assert [1, 2, 3, 4][1..] == [2, 3, 4];
      WithoutAbsent([2, 3, 4], 1);
    }
    assert Reorders(m, 1, A, Some(3)) by {
      assert m.Get(A)[0] == 1 && m.Get(A)[2] == 3;
    }
    assert InsertBefore(rest, 3, 1) == [2, 1, 3, 4] by {
      assert [2, 3, 4][1..] == [3, 4];
      assert InsertBefore([3, 4], 3, 1) == [1, 3, 4];
    }
    assert Dropped(m, 1, A, Some(3)).Get(A) == InsertBefore(rest, 3, 1);
  }

  /** The tier board component: its two pieces of state and its four handlers. */
  class Board {
    var tierAssignments: Assignment
    var draggedPiece: Option<int>

    /** The buckets partition the catalogue and any dragged piece is a catalogue piece. */
    ghost predicate Consistent()
      reads this
    {
      Partitioned(tierAssignments) && (draggedPiece.Some? ==> draggedPiece.value in Catalog())
    }

    /** Mounting the component: every piece unassigned, nothing dragged. */
    constructor ()
      ensures Consistent()
      ensures tierAssignments == InitialState() && draggedPiece == None
    {
      tierAssignments := InitialState();
      draggedPiece := None;
    }

    /** A drag starts on the piece `pieceId`. */
    method DragStart(pieceId: int)
      modifies this
      ensures draggedPiece == Some(pieceId) && tierAssignments == old(tierAssignments)
      ensures old(Consistent()) && pieceId in Catalog() ==> Consistent()
    {
      draggedPiece := Some(pieceId);
    }

    /** The drag ends, dropped or not. */
    method DragEnd()
      modifies this
      ensures draggedPiece == None && tierAssignments == old(tierAssignments)
      ensures old(Consistent()) ==> Consistent()
    {
      draggedPiece := None;
    }

    /**
     * A drop onto bucket `tierId`; `dropTargetId` is the id of the piece under the
     * pointer, None when there is none or its id does not parse. Without a dragged
     * piece nothing changes; the drop itself leaves `draggedPiece` as it is.
     */
    method Drop(tierId: Bucket, dropTargetId: Option<int>)
      modifies this
      ensures draggedPiece == old(draggedPiece)
      ensures old(draggedPiece).None? ==> tierAssignments == old(tierAssignments)
      ensures old(draggedPiece).Some? ==>
        tierAssignments == Dropped(old(tierAssignments), old(draggedPiece).value, tierId, dropTargetId)
      ensures old(Consistent()) ==> Consistent()
    {
      if draggedPiece.None? {
        return;
      }
      var piece := draggedPiece.value;
      ghost var m := tierAssignments;

      // copy every bucket with the dragged piece filtered out
      var newAssignments := tierAssignments;
      var i := 0;
      while i < |Buckets|
        invariant 0 <= i <= |Buckets|
        invariant forall t :: newAssignments.Get(t) ==
                              if Position(t) < i then Without(m.Get(t), piece) else m.Get(t)
      {
        var tier := Buckets[i];
        newAssignments := newAssignments.With(tier, Without(tierAssignments.Get(tier), piece));
        i := i + 1;
      }
      assert newAssignments == Filtered(m, piece) by {
        AssignmentExt(newAssignments, Filtered(m, piece));
      }

      if tierId != Unassigned && piece in tierAssignments.Get(tierId) &&
         dropTargetId.Some? && dropTargetId.value != 0 && piece != dropTargetId.value
      {
        // reorder within the same tier
        var tierItems := newAssignments.Get(tierId);
        var dropTargetIndex := IndexOf(tierItems, dropTargetId.value);
        if dropTargetIndex != -1 {
          tierItems := Splice(tierItems, dropTargetIndex, piece);
          assert tierItems == Placed(m, piece, tierId, dropTargetId) by {
            assert Reorders(m, piece, tierId, dropTargetId);
            SpliceAtIndexOf(Without(m.Get(tierId), piece), dropTargetId.value, piece);
          }
          newAssignments := newAssignments.With(tierId, tierItems);
        } else {
          assert !Reorders(m, piece, tierId, dropTargetId);
          newAssignments := newAssignments.With(tierId, newAssignments.Get(tierId) + [piece]);
        }
      } else {
        // a move to another tier, or into Unassigned
        newAssignments := newAssignments.With(tierId, newAssignments.Get(tierId) + [piece]);
      }

      tierAssignments := newAssignments;
      if old(Consistent()) {
        DropPreservesPartition(m, piece, tierId, dropTargetId);
      }
    }

    /** The reset button: the initial partition again, nothing dragged. */
    method Reset()
      modifies this
      ensures Consistent()
      ensures tierAssignments == InitialState() && draggedPiece == None
    {
      tierAssignments := InitialState();
      draggedPiece := None;
    }
  }
}
