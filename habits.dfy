/**
 * The app around the grid: the ordered list of habits and, per habit id, the
 * keys of its checked blocks as an array of strings. The pure transforms
 * (`filter`, `map`, `findIndex`, `splice`, the name check) are functions;
 * the app's `useState` fields are the fields of class `App`, and its event
 * handlers are methods that reassign them.
 */
module Habits {
  import opened Optional
  import opened Text

  const MAX_NAME_LENGTH := 20
  const NAME_WARNING := "Name cannot be more than 20 characters."

  datatype Habit = Habit(id: int, name: string)

  // ---------------------------------------------------------------------------
  // Searching, removing, renaming

  /** `habits.findIndex(h => h.id === id)`: the first position holding `id`, or -1. */
  function FindIndex(habits: seq<Habit>, id: int): (k: int)
    ensures -1 <= k < |habits|
    ensures k == -1 <==> forall i :: 0 <= i < |habits| ==> habits[i].id != id
    ensures k >= 0 ==> habits[k].id == id && forall i :: 0 <= i < k ==> habits[i].id != id
  {
    if |habits| == 0 then -1
    else if habits[0].id == id then 0
    else
      var k := FindIndex(habits[1..], id);
      if k == -1 then -1 else k + 1
  }

  /** `habits.filter(h => h.id !== id)`: every habit with that id goes, every other one stays. */
  function RemoveWithId(habits: seq<Habit>, id: int): (r: seq<Habit>)
    ensures |r| <= |habits|
    ensures forall i :: 0 <= i < |r| ==> r[i].id != id
  {
    if |habits| == 0 then []
    else (if habits[0].id == id then [] else [habits[0]]) + RemoveWithId(habits[1..], id)
  }

  /** Each habit without that id survives as often as it occurred; none with it survives. */
  lemma {:induction false} RemoveWithIdCounts(habits: seq<Habit>, id: int)
    ensures forall h :: multiset(RemoveWithId(habits, id))[h] == if h.id == id then 0 else multiset(habits)[h]
  {
    if |habits| > 0 {
      RemoveWithIdCounts(habits[1..], id);
      assert habits == [habits[0]] + habits[1..];
    }
  }

  /** Filtering a concatenation filters each part in place: the survivors keep their order. */
  lemma {:induction false} RemoveWithIdDistributes(a: seq<Habit>, b: seq<Habit>, id: int)
    ensures RemoveWithId(a + b, id) == RemoveWithId(a, id) + RemoveWithId(b, id)
  {
    if |a| > 0 {
      var head := if a[0].id == id then [] else [a[0]];
      assert (a + b)[0] == a[0] && (a + b)[1..] == a[1..] + b;
      assert RemoveWithId(a + b, id) == head + RemoveWithId(a[1..] + b, id);
      RemoveWithIdDistributes(a[1..], b, id);
      assert RemoveWithId(a, id) == head + RemoveWithId(a[1..], id);
    } else {
      assert a + b == b;
    }
  }

  /** With no habit carrying `id`, nothing is removed. */
  lemma {:induction false} RemoveAbsentId(habits: seq<Habit>, id: int)
    requires forall i :: 0 <= i < |habits| ==> habits[i].id != id
    ensures RemoveWithId(habits, id) == habits
  {
    if |habits| > 0 {
      RemoveAbsentId(habits[1..], id);
    }
  }

  /** `habits.map(h => h.id === id ? { ...h, name } : h)`: same ids in the same places, new name where the id matches. */
  function RenameHabit(habits: seq<Habit>, id: int, name: string): (r: seq<Habit>)
    ensures |r| == |habits|
    ensures forall i :: 0 <= i < |r| ==> r[i].id == habits[i].id
    ensures forall i :: 0 <= i < |r| ==>
              r[i].name == if habits[i].id == id then name else habits[i].name
  {
    seq(|habits|, i requires 0 <= i < |habits| =>
      if habits[i].id == id then habits[i].(name := name) else habits[i])
  }

  /** Of two renames of the same habit the later one wins, and renaming an absent id changes nothing. */
  lemma RenameLastWins(habits: seq<Habit>, id: int, first: string, second: string)
    ensures RenameHabit(RenameHabit(habits, id, first), id, second) == RenameHabit(habits, id, second)
    ensures (forall i :: 0 <= i < |habits| ==> habits[i].id != id) ==> RenameHabit(habits, id, first) == habits
  {
  }

  // ---------------------------------------------------------------------------
  // Names

  datatype NameCheck = Blank | TooLong | Accepted(name: string)

  /** The checks `saveEdit` applies to the edited name, after trimming it. */
  function CheckName(input: string): (c: NameCheck)
    ensures c == Blank <==> IsBlank(input)
    ensures c == TooLong <==> |Trim(input)| > MAX_NAME_LENGTH
    ensures c.Accepted? ==> c.name == Trim(input) && 1 <= |c.name| <= MAX_NAME_LENGTH
  {
    TrimEmptyIffBlank(input);
    var t := Trim(input);
    if t == [] then Blank else if |t| > MAX_NAME_LENGTH then TooLong else Accepted(t)
  }

  // ---------------------------------------------------------------------------
  // Reordering

  /** `s.splice(i, 1)`: the element at `i` taken out, the rest closing the gap. */
  function RemoveAt<T>(s: seq<T>, i: nat): (r: seq<T>)
    requires i < |s|
    ensures |r| == |s| - 1
    ensures forall k :: 0 <= k < |r| ==> r[k] == if k < i then s[k] else s[k + 1]
    ensures multiset(r) + multiset{s[i]} == multiset(s)
  {
    assert s == s[..i] + [s[i]] + s[i + 1..];
    s[..i] + s[i + 1..]
  }

  /** `s.splice(i, 0, x)`: `x` placed at `i`, the elements from `i` on moving up by one. */
  function InsertAt<T>(s: seq<T>, i: nat, x: T): (r: seq<T>)
    requires i <= |s|
    ensures |r| == |s| + 1 && r[i] == x
    ensures forall k :: 0 <= k < |s| ==> r[if k < i then k else k + 1] == s[k]
    ensures multiset(r) == multiset(s) + multiset{x}
  {
    assert s == s[..i] + s[i..];
    s[..i] + [x] + s[i..]
  }

  lemma RemoveInsertedAt<T>(s: seq<T>, i: nat, x: T)
    requires i <= |s|
    ensures RemoveAt(InsertAt(s, i, x), i) == s
  {
    var t := s[..i] + [x] + s[i..];
    assert t[..i] == s[..i] && t[i + 1..] == s[i..];
    assert s == s[..i] + s[i..];
  }

  lemma InsertRemovedAt<T>(s: seq<T>, i: nat)
    requires i < |s|
    ensures InsertAt(RemoveAt(s, i), i, s[i]) == s
  {
    var t := s[..i] + s[i + 1..];
    assert t[..i] == s[..i] && t[i..] == s[i + 1..];
    assert s == s[..i] + [s[i]] + s[i + 1..];
  }

  /**
   * The drop: take the habit at `from` out, then insert it at `to`, the index
   * the target had before. The result is a permutation that has the moved
   * habit at `to` and the other habits in their old order.
   */
  function MoveHabit(habits: seq<Habit>, from: nat, to: nat): (r: seq<Habit>)
    requires from < |habits| && to < |habits|
    ensures |r| == |habits| && r[to] == habits[from]
    ensures RemoveAt(r, to) == RemoveAt(habits, from)
    ensures multiset(r) == multiset(habits)
  {
    RemoveInsertedAt(RemoveAt(habits, from), to, habits[from]);
    InsertAt(RemoveAt(habits, from), to, habits[from])
  }

  /** Dragging the moved habit back to where it came from restores the list. */
  lemma MoveHabitBack(habits: seq<Habit>, from: nat, to: nat)
    requires from < |habits| && to < |habits|
    ensures MoveHabit(MoveHabit(habits, from, to), to, from) == habits
  {
    InsertRemovedAt(habits, from);
  }

  // ---------------------------------------------------------------------------
  // The per-habit block store

  /** `new Set(arr)`. */
  function ToSet(arr: seq<string>): set<string> {
    set x | x in arr
  }

  predicate NoDuplicates(arr: seq<string>) {
    forall i, j :: 0 <= i < j < |arr| ==> arr[i] != arr[j]
  }

  /** Appending a key not yet in a duplicate-free array keeps it duplicate-free and adds just that key. */
  lemma AppendNew(arr: seq<string>, x: string)
    requires NoDuplicates(arr) && x !in ToSet(arr)
    ensures NoDuplicates(arr + [x]) && ToSet(arr + [x]) == ToSet(arr) + {x}
  {
    var t := arr + [x];
    forall i, j | 0 <= i < j < |t| ensures t[i] != t[j] {
      if j == |arr| {
        assert t[i] in ToSet(arr);
      }
    }
  }

  /** `Array.from(set)`: every member once, in an order the model leaves open. */
  method ArrayFrom(s: set<string>) returns (arr: seq<string>)
    ensures ToSet(arr) == s
    ensures NoDuplicates(arr)
    ensures |arr| == |s|
  {
    arr := [];
    var rest := s;
    while rest != {}
      invariant ToSet(arr) + rest == s
      invariant ToSet(arr) !! rest
      invariant NoDuplicates(arr)
      invariant |arr| + |rest| == |s|
      decreases |rest|
    {
      var x :| x in rest;
      AppendNew(arr, x);
      arr := arr + [x];
      rest := rest - {x};
    }
  }

  /** `streaks[id] || []`: a habit without an entry has no checked blocks. */
  function StoredBlocks(streaks: map<int, seq<string>>, id: int): seq<string> {
    if id in streaks then streaks[id] else []
  }

  // ---------------------------------------------------------------------------
  // The app state

  class App {
    var habits: seq<Habit>
    var habitStreaks: map<int, seq<string>>
    var editingId: Option<int>
    var editingName: string
    var nameWarning: string
    var addInput: string
    var showAddModal: bool
    var deleteId: Option<int>
    var draggedId: Option<int>
    var dragOverId: Option<int>
    var selectedHabit: Option<Habit>

    /**
     * The app as it starts: `savedHabits` and `savedStreaks` are the parsed
     * stored values, `None` when nothing was stored or it did not parse.
     */
    constructor (savedHabits: Option<seq<Habit>>, savedStreaks: Option<map<int, seq<string>>>)
      ensures habits == savedHabits.GetOr([]) && habitStreaks == savedStreaks.GetOr(map[])
      ensures editingId == None && editingName == "" && nameWarning == ""
      ensures addInput == "" && !showAddModal
      ensures deleteId == None && draggedId == None && dragOverId == None && selectedHabit == None
    {
      habits := savedHabits.GetOr([]);
      habitStreaks := savedStreaks.GetOr(map[]);
      editingId, editingName, nameWarning := None, "", "";
      addInput, showAddModal := "", false;
      deleteId, draggedId, dragOverId, selectedHabit := None, None, None, None;
    }

    /** `removeHabit`: ask for confirmation before deleting habit `id`. */
    method RemoveHabit(id: int)
      modifies this`deleteId
      ensures deleteId == Some(id)
    {
      deleteId := Some(id);
    }

    /** `confirmRemoveHabit`: delete the habits with the pending id; the block store is left as it is. */
    method ConfirmRemoveHabit()
      modifies this`habits, this`deleteId
      ensures old(deleteId) == None ==> habits == old(habits) && deleteId == None
      ensures old(deleteId).Some? ==> habits == RemoveWithId(old(habits), old(deleteId).value) && deleteId == None
    {
      if deleteId.Some? {
        habits := RemoveWithId(habits, deleteId.value);
        deleteId := None;
      }
    }

    /** `cancelRemoveHabit`. */
    method CancelRemoveHabit()
      modifies this`deleteId
      ensures deleteId == None
    {
      deleteId := None;
    }

    /** `startEdit`: begin renaming habit `id`, starting from `name`. */
    method StartEdit(id: int, name: string)
      modifies this`editingId, this`editingName, this`nameWarning
      ensures editingId == Some(id) && editingName == name && nameWarning == ""
    {
      editingId, editingName, nameWarning := Some(id), name, "";
    }

    /**
     * `saveEdit`: a blank edited name is ignored, one longer than 20
     * characters after trimming only raises the warning, any other renames
     * habit `id` to the trimmed name and ends the edit.
     */
    method SaveEdit(id: int)
      modifies this`habits, this`editingId, this`editingName, this`nameWarning
      ensures CheckName(old(editingName)) == Blank ==>
                && habits == old(habits) && editingId == old(editingId)
                && editingName == old(editingName) && nameWarning == old(nameWarning)
      ensures CheckName(old(editingName)) == TooLong ==>
                && habits == old(habits) && editingId == old(editingId)
                && editingName == old(editingName) && nameWarning == NAME_WARNING
      ensures CheckName(old(editingName)).Accepted? ==>
                && habits == RenameHabit(old(habits), id, Trim(old(editingName)))
                && editingId == None && editingName == "" && nameWarning == ""
    {
      var check := CheckName(editingName);
      if check.Accepted? {
        habits := RenameHabit(habits, id, check.name);
        editingId, editingName, nameWarning := None, "", "";
      } else if check == TooLong {
        nameWarning := NAME_WARNING;
      }
    }

    /** `handleDoubleClick`: open the grid of the first habit with `id`, if there is one. */
    method HandleDoubleClick(id: int)
      modifies this`selectedHabit
      ensures FindIndex(habits, id) == -1 ==> selectedHabit == old(selectedHabit)
      ensures FindIndex(habits, id) >= 0 ==> selectedHabit == Some(habits[FindIndex(habits, id)])
    {
      var k := FindIndex(habits, id);
      if k >= 0 {
        selectedHabit := Some(habits[k]);
      }
    }

    /**
     * `handleAddHabit`: with a non-blank input, append a habit named by the
     * trimmed input under `newId` (the time of the click) and give it an
     * empty block list; a blank input changes nothing.
     */
    method HandleAddHabit(newId: int)
      modifies this`habits, this`habitStreaks, this`addInput, this`showAddModal
      ensures IsBlank(old(addInput)) ==>
                && habits == old(habits) && habitStreaks == old(habitStreaks)
                && addInput == old(addInput) && showAddModal == old(showAddModal)
      ensures !IsBlank(old(addInput)) ==>
                && habits == old(habits) + [Habit(newId, Trim(old(addInput)))]
                && habitStreaks == old(habitStreaks)[newId := []]
                && addInput == "" && !showAddModal
    {
      TrimEmptyIffBlank(addInput);
      var name := Trim(addInput);
      if name != [] {
        habits := habits + [Habit(newId, name)];
        habitStreaks := habitStreaks[newId := []];
        addInput, showAddModal := "", false;
      }
    }

    /** `handleDragStart`: remember which habit is being dragged. */
    method HandleDragStart(id: int)
      modifies this`draggedId
      ensures draggedId == Some(id)
    {
      draggedId := Some(id);
    }

    /** `handleDragEnd`: the drag is over, with or without a drop. */
    method HandleDragEnd()
      modifies this`draggedId, this`dragOverId
      ensures draggedId == None && dragOverId == None
    {
      draggedId, dragOverId := None, None;
    }

    /** `handleDragOver`: remember the habit under the pointer. */
    method HandleDragOver(id: int)
      modifies this`dragOverId
      ensures dragOverId == Some(id)
    {
      if dragOverId != Some(id) {
        dragOverId := Some(id);
      }
    }

    /** Whether a drop on habit `targetId` is ignored by `handleDrop`. */
    predicate DropIgnored(targetId: int)
      reads this
    {
      || draggedId == None
      || draggedId.value == targetId
      || FindIndex(habits, draggedId.value) == -1
      || FindIndex(habits, targetId) == -1
    }

    /**
     * `handleDrop`: move the dragged habit to the target's index by two
     * splices and end the drag; an ignored drop changes nothing.
     */
    method HandleDrop(targetId: int)
      modifies this`habits, this`draggedId, this`dragOverId
      ensures old(DropIgnored(targetId)) ==>
                habits == old(habits) && draggedId == old(draggedId) && dragOverId == old(dragOverId)
      ensures !old(DropIgnored(targetId)) ==>
                && habits == MoveHabit(old(habits), FindIndex(old(habits), old(draggedId).value),
                                       FindIndex(old(habits), targetId))
                && draggedId == None && dragOverId == None
    {
      if draggedId == None || draggedId.value == targetId {
        return;
      }
      var fromIdx := FindIndex(habits, draggedId.value);
      var toIdx := FindIndex(habits, targetId);
      if fromIdx == -1 || toIdx == -1 {
        return;
      }
      // `updated.splice(fromIdx, 1)`, then `updated.splice(toIdx, 0, removed)`
      habits := MoveHabit(habits, fromIdx, toIdx);
      draggedId, dragOverId := None, None;
    }

    /** `getFilledBlocksForSelected`: the checked block keys of the open habit, as a set. */
    function GetFilledBlocksForSelected(): (blocks: set<string>)
      reads this
      ensures selectedHabit == None ==> blocks == {}
      ensures selectedHabit.Some? ==>
                forall key :: key in blocks <==> key in StoredBlocks(habitStreaks, selectedHabit.value.id)
    {
      if selectedHabit == None then {} else ToSet(StoredBlocks(habitStreaks, selectedHabit.value.id))
    }

    /**
     * The `setFilledBlocks` adapter handed to the grid: apply `setFn` to the
     * open habit's blocks as a set and store the result as an array under
     * that habit only. Nothing happens when no habit is open.
     */
    method SetFilledBlocks(setFn: set<string> -> set<string>)
      modifies this`habitStreaks
      ensures selectedHabit == None ==> habitStreaks == old(habitStreaks)
      ensures selectedHabit.Some? ==>
                var id := selectedHabit.value.id;
                && habitStreaks.Keys == old(habitStreaks).Keys + {id}
                && (forall k :: k in old(habitStreaks) && k != id ==> habitStreaks[k] == old(habitStreaks)[k])
                && ToSet(habitStreaks[id]) == setFn(ToSet(StoredBlocks(old(habitStreaks), id)))
                && NoDuplicates(habitStreaks[id])
      ensures selectedHabit.Some? ==> GetFilledBlocksForSelected() == setFn(old(GetFilledBlocksForSelected()))
    {
      if selectedHabit == None {
        return;
      }
      var id := selectedHabit.value.id;
      var prevArr := StoredBlocks(habitStreaks, id);
      var prevSet := ToSet(prevArr);
      var nextSet := setFn(prevSet);
      var nextArr := ArrayFrom(nextSet);
      habitStreaks := habitStreaks[id := nextArr];
    }
  }
}
