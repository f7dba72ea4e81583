/**
 Task records and the rendered task list. A rendered entry carries the text,
 the state of its checkbox and whether its text is drawn struck through; the
 persisted record keeps only the text and the checkbox state.
 */
module Tasks {

  /** Largest number of tasks the add button accepts. */
  const MAX_TASKS: nat := 20

  /** A persisted task: `{ text, checked }`. */
  datatype Record = Record(text: string, checked: bool)

  /** A rendered task entry: its text, its checkbox, and whether the text
      carries the strikethrough class. */
  datatype TaskItem = TaskItem(text: string, checked: bool, struck: bool)

  /** Every entry is struck through exactly when its checkbox is checked. */
  predicate Consistent(items: seq<TaskItem>) {
    forall k :: 0 <= k < |items| ==> items[k].struck == items[k].checked
  }

  /** Joining two consistent lists gives a consistent list. */
  lemma ConsistentConcat(a: seq<TaskItem>, b: seq<TaskItem>)
    requires Consistent(a) && Consistent(b)
    ensures Consistent(a + b)
  {
  }

  /** The records `saveTasks` collects from the rendered entries, in order. */
  function Snapshot(items: seq<TaskItem>): (rs: seq<Record>)
    ensures |rs| == |items|
    ensures forall k :: 0 <= k < |items| ==> rs[k].text == items[k].text && rs[k].checked == items[k].checked
  {
    if items == [] then [] else [Record(items[0].text, items[0].checked)] + Snapshot(items[1..])
  }

  /** The entries `createTaskElement` renders for records, in order; each
      is struck through exactly when its record is checked. */
  function Render(rs: seq<Record>): (items: seq<TaskItem>)
    ensures |items| == |rs|
    ensures Consistent(items)
    ensures forall k :: 0 <= k < |rs| ==> items[k].text == rs[k].text && items[k].checked == rs[k].checked
  {
    if rs == [] then [] else [TaskItem(rs[0].text, rs[0].checked, rs[0].checked)] + Render(rs[1..])
  }

  /** Rendering what was saved reproduces a consistent list exactly. */
  lemma RenderSnapshot(items: seq<TaskItem>)
    requires Consistent(items)
    ensures Render(Snapshot(items)) == items
  {
  }

  /** Saving what was rendered reproduces the records exactly. */
  lemma SnapshotRender(rs: seq<Record>)
    ensures Snapshot(Render(rs)) == rs
  {
  }

  /** Rendering distributes over concatenation. */
  lemma RenderAppend(rs: seq<Record>, r: Record)
    ensures Render(rs + [r]) == Render(rs) + [TaskItem(r.text, r.checked, r.checked)]
  {
    assert Render(rs + [r])[|rs|] == TaskItem(r.text, r.checked, r.checked);
  }

  /** Saving distributes over concatenation. */
  lemma SnapshotAppend(items: seq<TaskItem>, t: TaskItem)
    ensures Snapshot(items + [t]) == Snapshot(items) + [Record(t.text, t.checked)]
  {
    assert Snapshot(items + [t])[|items|] == Record(t.text, t.checked);
  }

  /** The number of checked checkboxes. */
  function CountChecked(items: seq<TaskItem>): (n: nat)
    ensures n <= |items|
  {
    if items == [] then 0 else (if items[0].checked then 1 else 0) + CountChecked(items[1..])
  }

  /** At least one checkbox is checked. */
  predicate AnyChecked(items: seq<TaskItem>) {
    exists k :: 0 <= k < |items| && items[k].checked
  }

  /** The count of checked boxes is positive exactly when some box is checked. */
  lemma {:induction false} CountCheckedPositive(items: seq<TaskItem>)
    ensures CountChecked(items) > 0 <==> AnyChecked(items)
  {
    if items != [] {
      CountCheckedPositive(items[1..]);
      if AnyChecked(items[1..]) {
        var k :| 0 <= k < |items| - 1 && items[1..][k].checked;
        assert items[k + 1].checked;
      }
      if AnyChecked(items) && !items[0].checked {
        var k :| 0 <= k < |items| && items[k].checked;
        assert items[1..][k - 1].checked;
      }
    }
  }

  /** The list left after every checked entry is removed. */
  function RemoveChecked(items: seq<TaskItem>): (r: seq<TaskItem>)
    ensures |r| == |items| - CountChecked(items)
    ensures !AnyChecked(r)
    ensures Consistent(items) ==> Consistent(r)
  {
    if items == [] then []
    else if items[0].checked then RemoveChecked(items[1..])
    else [items[0]] + RemoveChecked(items[1..])
  }

  /** Removal keeps the relative order: the survivors of a concatenation
      are the survivors of the first part followed by those of the second. */
  lemma {:induction false} RemoveCheckedConcat(a: seq<TaskItem>, b: seq<TaskItem>)
    ensures RemoveChecked(a + b) == RemoveChecked(a) + RemoveChecked(b)
    decreases |a|
  {
    if a == [] {
      assert a + b == b;
    } else {
      assert (a + b)[0] == a[0] && (a + b)[1..] == a[1..] + b;
      RemoveCheckedConcat(a[1..], b);
    }
  }

  /** Removal takes out every copy of a checked entry and keeps every copy
      of an unchecked one. */
  lemma {:induction false} RemoveCheckedExactly(items: seq<TaskItem>, t: TaskItem)
    ensures multiset(RemoveChecked(items))[t] == if t.checked then 0 else multiset(items)[t]
  {
    if items != [] {
      RemoveCheckedExactly(items[1..], t);
      assert items == [items[0]] + items[1..];
    }
  }

  /** With nothing checked, removal changes nothing. */
  lemma {:induction false} RemoveCheckedNoneChecked(items: seq<TaskItem>)
    requires !AnyChecked(items)
    ensures RemoveChecked(items) == items
  {
    if items != [] {
      assert !items[0].checked;
      RemoveCheckedNoneChecked(items[1..]);
    }
  }

}
