/** `getActiveTableId` and the dashed outline: a table is highlighted while one of its
    own blocks is being dragged. The active drag id comes from the drag-and-drop provider. */
module DragHighlight {
  import opened Types
  import opened Seqs

  /** The character of one decimal digit. */
  function DigitChar(d: nat): (c: char)
    requires d < 10
    ensures '0' <= c <= '9'
    ensures c as int - '0' as int == d
  {
    "0123456789"[d]
  }

  /** The decimal text JavaScript prints for a block index. */
  function Decimal(n: nat): (r: string)
    ensures |r| > 0
    ensures n >= 10 ==> |r| >= 2
    ensures forall i :: 0 <= i < |r| ==> '0' <= r[i] <= '9'
  {
    if n < 10 then [DigitChar(n)] else Decimal(n / 10) + [DigitChar(n % 10)]
  }

  /** Different indices print differently. */
  lemma {:induction false} DecimalInjective(a: nat, b: nat)
    requires Decimal(a) == Decimal(b)
    ensures a == b
  {
    if a >= 10 && b >= 10 {
      var da, db := Decimal(a), Decimal(b);
      assert da[|da| - 1] == db[|db| - 1];
      assert da[..|da| - 1] == Decimal(a / 10) && db[..|db| - 1] == Decimal(b / 10);
      DecimalInjective(a / 10, b / 10);
    }
  }

  /** `${tableId}:${index}`: the drag id given to the index-th block of a table. */
  function DragId(tableId: string, index: nat): (r: string)
    ensures |r| > |tableId| + 1 && r[..|tableId|] == tableId && r[|tableId|] == ':'
    ensures forall k :: |tableId| < k < |r| ==> '0' <= r[k] <= '9'
  {
    tableId + ":" + Decimal(index)
  }

  /** Blocks of one table get pairwise different drag ids. */
  lemma DragIdsDistinct(tableId: string, i: nat, j: nat)
    requires i != j
    ensures DragId(tableId, i) != DragId(tableId, j)
  {
    var a, b := DragId(tableId, i), DragId(tableId, j);
    if a == b {
      assert a[|tableId| + 1..] == Decimal(i) && b[|tableId| + 1..] == Decimal(j);
      DecimalInjective(i, j);
    }
  }

  /** `getActiveTableId()`: no table while nothing is dragged (a falsy id: absent or
      empty); otherwise the part of the drag id before its first `:`. */
  function ActiveTableId(activeId: Option<string>): (r: Option<string>)
    ensures r.None? <==> activeId.None? || activeId.value == ""
    ensures r.Some? ==> r.value <= activeId.value && ':' !in r.value
    ensures r.Some? && |r.value| < |activeId.value| ==> activeId.value[|r.value|] == ':'
  {
    if activeId.Some? && activeId.value != "" then Some(TakeUntil(activeId.value, ':')) else None
  }

  /** `activeTableId === tableId`: whether the table draws its dashed outline. */
  function Outlined(tableId: string, activeId: Option<string>): (b: bool)
    ensures activeId.None? ==> !b
    ensures b ==> ':' !in tableId && activeId.Some? && tableId <= activeId.value
  {
    ActiveTableId(activeId) == Some(tableId)
  }

  /** Round trip: the prefix of a block's drag id is its table, when the table id has no `:`. */
  lemma ActiveTableOfDragId(tableId: string, index: nat)
    requires ':' !in tableId
    ensures ActiveTableId(Some(DragId(tableId, index))) == Some(tableId)
    ensures Outlined(tableId, Some(DragId(tableId, index)))
  {
    TakeUntilJoin(tableId, ':', Decimal(index));
  }

  /** Dragging a block of table `owner` outlines table `tableId` exactly when they are the same table. */
  lemma OutlinedIff(tableId: string, owner: string, index: nat)
    requires ':' !in owner
    ensures Outlined(tableId, Some(DragId(owner, index))) <==> tableId == owner
  {
    ActiveTableOfDragId(owner, index);
  }

  /** A table whose id contains `:` is never outlined, whatever is dragged. */
  lemma ColonTableNeverOutlined(tableId: string, activeId: Option<string>)
    requires ':' in tableId
    ensures !Outlined(tableId, activeId)
  {
  }
}
