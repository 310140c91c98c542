/**
  The notebook merger: `merge` interleaves the cells of a second notebook
  into a first one by cell id, and `check` says whether two notebooks can
  be merged that way. Notebooks are already-read values; reading files and
  `nbformat` itself are not modelled.
*/
module Merger {
  import opened Wrappers

  /** A cell: its id and, opaque to the merger, its content. */
  datatype Cell = Cell(id: string, source: string)

  datatype Notebook = Notebook(nbformat: int, nbformatMinor: int, metadata: map<string, string>, cells: seq<Cell>)

  /** The minor format version of a notebook made by `nbformat.v4.new_notebook()`. */
  const NewNotebookMinor := 5

  /** The failure messages of `_load_notebook`, `check` and `merge`. */
  datatype MergeError = OldFormat | NoSharedIds | DifferentOrder

  /** `_load_notebook` on an already-read notebook: both version assertions. */
  function LoadNotebook(nb: Notebook): (r: Result<Notebook, MergeError>)
    ensures r.Success? <==> nb.nbformat >= 4 && nb.nbformatMinor >= 4
    ensures r.Success? ==> r.value == nb
  {
    if nb.nbformat < 4 || nb.nbformatMinor < 4 then Failure(OldFormat) else Success(nb)
  }

  function Ids(cells: seq<Cell>): set<string> {
    set c | c in cells :: c.id
  }

  lemma IdsAppend(a: seq<Cell>, b: seq<Cell>)
    ensures Ids(a + b) == Ids(a) + Ids(b)
  {
    forall x | x in Ids(a + b) ensures x in Ids(a) + Ids(b) {
      var c :| c in a + b && c.id == x;
      if c in a { assert x in Ids(a); } else { assert x in Ids(b); }
    }
    forall x | x in Ids(a) + Ids(b) ensures x in Ids(a + b) {
      if x in Ids(a) {
        var c :| c in a && c.id == x;
        assert c in a + b;
      } else {
        var c :| c in b && c.id == x;
        assert c in a + b;
      }
    }
  }

  predicate DistinctIds(cells: seq<Cell>) {
    forall i, j :: 0 <= i < j < |cells| ==> cells[i].id != cells[j].id
  }

  /**
    `{cell.id: i for i, cell in enumerate(cells, start=1)}`: each id maps to
    one past the position of its LAST cell, since later entries overwrite
    earlier ones.
  */
  function PositionMap(cells: seq<Cell>): (m: map<string, nat>)
    ensures m.Keys == Ids(cells)
  {
    if cells == [] then map[]
    else
      var prefix := cells[..|cells| - 1];
      assert cells == prefix + [cells[|cells| - 1]];
      IdsAppend(prefix, [cells[|cells| - 1]]);
      PositionMap(prefix)[cells[|cells| - 1].id := |cells|]
  }

  /** The last cell's id maps to the length; every other id keeps its entry from the prefix. */
  lemma PositionMapSnoc(cells: seq<Cell>)
    requires cells != []
    ensures var prefix := cells[..|cells| - 1];
            var id := cells[|cells| - 1].id;
            PositionMap(cells) == PositionMap(prefix)[id := |cells|]
  {
  }

  /** An id absent from a suffix of `cells` and from `c` is absent from that suffix of `cells + [c]`. */
  lemma IdAbsentSnoc(cells: seq<Cell>, c: Cell, n: nat, id: string)
    requires forall j :: n <= j < |cells| ==> cells[j].id != id
    requires c.id != id
    ensures forall j :: n <= j < |cells| + 1 ==> (cells + [c])[j].id != id
  {
  }

  /** An id maps to one past its last position. */
  lemma {:induction false} PositionMapLast(cells: seq<Cell>, id: string)
    requires id in PositionMap(cells)
    ensures 1 <= PositionMap(cells)[id] <= |cells| && cells[PositionMap(cells)[id] - 1].id == id
    ensures forall j :: PositionMap(cells)[id] <= j < |cells| ==> cells[j].id != id
  {
    var prefix := cells[..|cells| - 1];
    var last := cells[|cells| - 1];
    PositionMapSnoc(cells);
    if last.id != id {
      PositionMapLast(prefix, id);
      var n := PositionMap(prefix)[id];
      assert cells[n - 1] == prefix[n - 1];
      IdAbsentSnoc(prefix, last, n, id);
      assert cells == prefix + [last];
    }
  }

  /**
    `notebook2.cells[: nb2_ids.get(cell.id, 0)] or [cell]`: the second
    notebook's cells up to the last one sharing the id, or the cell itself
    when no cell of the second notebook has that id.
  */
  function ToAdd(cell: Cell, cells2: seq<Cell>): (r: seq<Cell>)
    ensures cell.id in Ids(cells2) ==> r <= cells2 && |r| > 0 && r[|r| - 1].id == cell.id
    ensures cell.id in Ids(cells2) ==> forall j :: |r| <= j < |cells2| ==> cells2[j].id != cell.id
    ensures cell.id !in Ids(cells2) ==> r == [cell]
  {
    var m := PositionMap(cells2);
    if cell.id in m then
      PositionMapLast(cells2, cell.id);
      var upTo := cells2[..m[cell.id]];
      if upTo != [] then upTo else [cell]
    else
      // `get(cell.id, 0)` slices nothing, and the empty list is falsy
      [cell]
  }

  /** Append, in order, each cell whose id is not yet in `out`. */
  function AddNew(out: seq<Cell>, cells: seq<Cell>): (r: seq<Cell>)
    ensures |out| <= |r| && r[..|out|] == out
  {
    if cells == [] then out
    else
      var before := AddNew(out, cells[..|cells| - 1]);
      var c := cells[|cells| - 1];
      if c.id in Ids(before) then before else before + [c]
  }

  /** `AddNew` adds exactly the ids of `cells`. */
  lemma {:induction false} AddNewIds(out: seq<Cell>, cells: seq<Cell>)
    ensures Ids(AddNew(out, cells)) == Ids(out) + Ids(cells)
  {
    if cells != [] {
      var prefix := cells[..|cells| - 1];
      var c := cells[|cells| - 1];
      assert cells == prefix + [c];
      IdsAppend(prefix, [c]);
      AddNewIds(out, prefix);
      IdsAppend(AddNew(out, prefix), [c]);
    }
  }

  /** `AddNew` appends only cells of `cells`. */
  lemma {:induction false} AddNewFrom(out: seq<Cell>, cells: seq<Cell>)
    ensures forall c :: c in AddNew(out, cells) ==> c in out || c in cells
  {
    if cells != [] {
      var prefix := cells[..|cells| - 1];
      AddNewFrom(out, prefix);
    }
  }

  /** `AddNew` never repeats an id. */
  lemma {:induction false} AddNewDistinct(out: seq<Cell>, cells: seq<Cell>)
    requires DistinctIds(out)
    ensures DistinctIds(AddNew(out, cells))
  {
    if cells != [] {
      var prefix := cells[..|cells| - 1];
      var c := cells[|cells| - 1];
      var before := AddNew(out, prefix);
      AddNewDistinct(out, prefix);
      if c.id !in Ids(before) {
        forall i | 0 <= i < |before| ensures before[i].id != c.id {
          assert before[i] in before;
        }
      }
    }
  }

  /** The cells `merge` has appended after the first loop has handled `cells1`. */
  function FirstPass(cells1: seq<Cell>, cells2: seq<Cell>): (r: seq<Cell>)
    ensures DistinctIds(r)
  {
    if cells1 == [] then []
    else
      var before := FirstPass(cells1[..|cells1| - 1], cells2);
      AddNewDistinct(before, ToAdd(cells1[|cells1| - 1], cells2));
      AddNew(before, ToAdd(cells1[|cells1| - 1], cells2))
  }

  /** The second loop: the cells whose id the first loop never saw, duplicates included. */
  function Rest(cells2: seq<Cell>, seen: set<string>): (r: seq<Cell>)
    ensures forall c :: c in r <==> c in cells2 && c.id !in seen
  {
    if cells2 == [] then []
    else
      var c := cells2[|cells2| - 1];
      assert cells2 == cells2[..|cells2| - 1] + [c];
      Rest(cells2[..|cells2| - 1], seen) + if c.id in seen then [] else [c]
  }

  /** The cells of the merged notebook. */
  function MergeCells(cells1: seq<Cell>, cells2: seq<Cell>): seq<Cell> {
    var first := FirstPass(cells1, cells2);
    first + Rest(cells2, Ids(first))
  }

  /** The inner loop of `merge`, with `seen` the ids already appended. */
  method AppendNew(out0: seq<Cell>, seen0: set<string>, toAdd: seq<Cell>) returns (out: seq<Cell>, seen: set<string>)
    requires seen0 == Ids(out0)
    ensures out == AddNew(out0, toAdd) && seen == Ids(out)
  {
    out, seen := out0, seen0;
    for i := 0 to |toAdd|
      invariant out == AddNew(out0, toAdd[..i]) && seen == Ids(out)
    {
      assert toAdd[..i + 1][..i] == toAdd[..i];
      if toAdd[i].id !in seen {
        seen := seen + {toAdd[i].id};
        IdsAppend(out, [toAdd[i]]);
        out := out + [toAdd[i]];
      }
    }
    assert toAdd[..|toAdd|] == toAdd;
  }

  /** The first loop of `merge`: each first-notebook cell with the second notebook's cells it pulls in. */
  method FirstPassLoop(cells1: seq<Cell>, cells2: seq<Cell>) returns (out: seq<Cell>, seen: set<string>)
    ensures out == FirstPass(cells1, cells2) && seen == Ids(out)
  {
    out, seen := [], {};
    for i := 0 to |cells1|
      invariant out == FirstPass(cells1[..i], cells2) && seen == Ids(out)
    {
      assert cells1[..i + 1][..i] == cells1[..i];
      out, seen := AppendNew(out, seen, ToAdd(cells1[i], cells2));
    }
    assert cells1[..|cells1|] == cells1;
  }

  /** The second loop of `merge`: append every second-notebook cell whose id is unseen, without adding to `seen`. */
  method AppendRest(first: seq<Cell>, seen: set<string>, cells2: seq<Cell>) returns (out: seq<Cell>)
    ensures out == first + Rest(cells2, seen)
  {
    out := first;
    for j := 0 to |cells2|
      invariant out == first + Rest(cells2[..j], seen)
    {
      assert cells2[..j + 1][..j] == cells2[..j];
      if cells2[j].id !in seen {
        out := out + [cells2[j]];
      }
    }
    assert cells2[..|cells2|] == cells2;
  }

  /**
    `merge`: fails as loading fails; otherwise a new notebook with the first
    notebook's metadata and the merged cells.
  */
  method Merge(nb1: Notebook, nb2: Notebook) returns (r: Result<Notebook, MergeError>)
    ensures r.Success? <==> LoadNotebook(nb1).Success? && LoadNotebook(nb2).Success?
    ensures r.Success? ==> r.value.metadata == nb1.metadata && r.value.nbformat == 4 && r.value.nbformatMinor == NewNotebookMinor
    ensures r.Success? ==> r.value.cells == MergeCells(nb1.cells, nb2.cells)
  {
    var loaded1 := LoadNotebook(nb1);
    if loaded1.Failure? {
      return Failure(loaded1.error);
    }
    var loaded2 := LoadNotebook(nb2);
    if loaded2.Failure? {
      return Failure(loaded2.error);
    }
    var out, seen := FirstPassLoop(nb1.cells, nb2.cells);
    out := AppendRest(out, seen, nb2.cells);
    r := Success(Notebook(4, NewNotebookMinor, nb1.metadata, out));
  }

  /** Every cell id of the second notebook occurs in the merged cells. */
  lemma SecondIdsKept(cells1: seq<Cell>, cells2: seq<Cell>)
    ensures Ids(cells2) <= Ids(MergeCells(cells1, cells2))
  {
    var first := FirstPass(cells1, cells2);
    IdsAppend(first, Rest(cells2, Ids(first)));
    forall x | x in Ids(cells2) ensures x in Ids(first) + Ids(Rest(cells2, Ids(first))) {
      var c :| c in cells2 && c.id == x;
      if x !in Ids(first) {
        assert c in Rest(cells2, Ids(first));
      }
    }
  }

  lemma ToAddIds(c: Cell, cells2: seq<Cell>)
    ensures c.id in Ids(ToAdd(c, cells2))
    ensures Ids(ToAdd(c, cells2)) <= Ids(cells2) + {c.id}
  {
    var r := ToAdd(c, cells2);
    assert r[|r| - 1] in r;
    if c.id in Ids(cells2) {
      forall x | x in Ids(r) ensures x in Ids(cells2) {
        var d :| d in r && d.id == x;
        var k :| 0 <= k < |r| && r[k] == d;
        assert cells2[k] == d;
      }
    }
  }

  /** A first-notebook cell whose id the second notebook lacks still has its id in the merged cells. */
  lemma {:induction false} FirstOnlyKept(cells1: seq<Cell>, cells2: seq<Cell>, c: Cell)
    requires c in cells1 && c.id !in Ids(cells2)
    ensures c.id in Ids(FirstPass(cells1, cells2))
    ensures c.id in Ids(MergeCells(cells1, cells2))
  {
    var prefix := cells1[..|cells1| - 1];
    var last := cells1[|cells1| - 1];
    assert cells1 == prefix + [last];
    if c in prefix {
      FirstOnlyKept(prefix, cells2, c);
    } else {
      ToAddIds(last, cells2);
    }
    var first := FirstPass(cells1, cells2);
    IdsAppend(first, Rest(cells2, Ids(first)));
  }

  /**
    When the id of the `i`-th first-notebook cell is shared, every
    second-notebook cell up to its last match has its id appended by the
    time that cell has been handled.
  */
  lemma SharedPrefixTaken(cells1: seq<Cell>, cells2: seq<Cell>, i: nat, k: nat)
    requires i < |cells1| && cells1[i].id in Ids(cells2)
    requires k < |cells2| && (exists j :: k <= j < |cells2| && cells2[j].id == cells1[i].id)
    ensures cells2[k].id in Ids(FirstPass(cells1[..i + 1], cells2))
  {
    var upTo := ToAdd(cells1[i], cells2);
    var j :| k <= j < |cells2| && cells2[j].id == cells1[i].id;
    assert k < |upTo|;
    assert upTo[k] == cells2[k] && upTo[k] in upTo;
    var pre := cells1[..i + 1];
    assert pre[..i] == cells1[..i] && pre[i] == cells1[i];
    AddNewIds(FirstPass(cells1[..i], cells2), upTo);
  }

  /** The first-notebook cells with the first occurrence of each id: `AddNew([], cells1)`. */
  function FirstOccurrences(cells1: seq<Cell>): seq<Cell> {
    AddNew([], cells1)
  }

  /** With no shared id, the first pass keeps the first occurrence of each first-notebook id. */
  lemma {:induction false} DisjointFirstPass(cells1: seq<Cell>, cells2: seq<Cell>)
    requires Ids(cells1) !! Ids(cells2)
    ensures FirstPass(cells1, cells2) == FirstOccurrences(cells1)
  {
    if cells1 != [] {
      var prefix := cells1[..|cells1| - 1];
      var c := cells1[|cells1| - 1];
      assert cells1 == prefix + [c];
      IdsAppend(prefix, [c]);
      DisjointFirstPass(prefix, cells2);
      assert ToAdd(c, cells2) == [c];
      var before := FirstOccurrences(prefix);
      assert [c][..0] == [];
      assert AddNew(before, [c]) == if c.id in Ids(before) then before else before + [c];
    }
  }

  /** With no shared id, the merge is the first notebook's first occurrences, then all of the second notebook. */
  lemma DisjointMerge(cells1: seq<Cell>, cells2: seq<Cell>)
    requires Ids(cells1) !! Ids(cells2)
    ensures MergeCells(cells1, cells2) == FirstOccurrences(cells1) + cells2
  {
    DisjointFirstPass(cells1, cells2);
    AddNewIds([], cells1);
    RestAll(cells2, Ids(FirstOccurrences(cells1)));
  }

  lemma {:induction false} RestAll(cells2: seq<Cell>, seen: set<string>)
    requires Ids(cells2) !! seen
    ensures Rest(cells2, seen) == cells2
  {
    if cells2 != [] {
      var prefix := cells2[..|cells2| - 1];
      var c := cells2[|cells2| - 1];
      assert cells2 == prefix + [c];
      IdsAppend(prefix, [c]);
      RestAll(prefix, seen);
    }
  }

  /** `sorted(shared, key=ids.index)`: the shared ids by their first position in `ids`. */
  function SharedInOrder(ids: seq<string>, shared: set<string>): (r: seq<string>)
    ensures forall x :: x in r <==> x in shared && x in ids
    ensures IncreasingIn(ids, r)
  {
    if ids == [] then []
    else if ids[0] in shared then
      var tail := SharedInOrder(ids[1..], shared - {ids[0]});
      IncreasingInCons(ids, tail);
      [ids[0]] + tail
    else
      var r := SharedInOrder(ids[1..], shared);
      IncreasingInCons(ids, r);
      r
  }

  /** A later position in `ids[1..]` is a later position in `ids`, and `ids[0]` comes first of all. */
  lemma IncreasingInCons(ids: seq<string>, t: seq<string>)
    requires ids != [] && IncreasingIn(ids[1..], t) && ids[0] !in t
    ensures IncreasingIn(ids, t) && IncreasingIn(ids, [ids[0]] + t)
  {
    IncreasingShift(ids, t);
    IncreasingPrepend(ids, t);
  }

  /** An order increasing in the tail of `ids`, without the head, is increasing in `ids`. */
  lemma IncreasingShift(ids: seq<string>, t: seq<string>)
    requires ids != [] && IncreasingIn(ids[1..], t) && ids[0] !in t
    ensures IncreasingIn(ids, t)
  {
    forall x | x in t ensures x in ids {
      FirstIndexTail(ids, x);
    }
    forall a, b | 0 <= a < b < |t| ensures t[a] in ids && t[b] in ids && FirstIndex(ids, t[a]) < FirstIndex(ids, t[b]) {
      FirstIndexTail(ids, t[a]);
      FirstIndexTail(ids, t[b]);
    }
  }

  /** The head of `ids` can go before an order increasing in `ids` that lacks it. */
  lemma IncreasingPrepend(ids: seq<string>, t: seq<string>)
    requires ids != [] && IncreasingIn(ids, t) && ids[0] !in t
    ensures IncreasingIn(ids, [ids[0]] + t)
  {
    var r := [ids[0]] + t;
    assert FirstIndex(ids, ids[0]) == 0;
    forall a, b | 0 <= a < b < |r| ensures r[a] in ids && r[b] in ids && FirstIndex(ids, r[a]) < FirstIndex(ids, r[b]) {
      assert r[b] == t[b - 1];
      if a > 0 {
        assert r[a] == t[a - 1];
      } else {
        assert r[b] != ids[0];
      }
    }
  }

  /** An id other than the first is found one place further on than in the tail. */
  lemma FirstIndexTail(ids: seq<string>, x: string)
    requires ids != [] && x in ids[1..] && x != ids[0]
    ensures x in ids && FirstIndex(ids, x) == 1 + FirstIndex(ids[1..], x)
  {
  }

  /** `ids.index(x)`. */
  function FirstIndex(ids: seq<string>, x: string): (r: nat)
    requires x in ids
    ensures r < |ids| && ids[r] == x && x !in ids[..r]
  {
    if ids[0] == x then 0 else 1 + FirstIndex(ids[1..], x)
  }

  /** `check`: fails as loading fails, when no id is shared, or when the shared ids come in different orders. */
  function Check(nb1: Notebook, nb2: Notebook): (r: Result<(), MergeError>)
    ensures r == Failure(OldFormat) <==> LoadNotebook(nb1).Failure? || LoadNotebook(nb2).Failure?
    ensures r == Failure(NoSharedIds) <==>
              LoadNotebook(nb1).Success? && LoadNotebook(nb2).Success? &&
              (set x | x in CellIds(nb1.cells)) * (set x | x in CellIds(nb2.cells)) == {}
  {
    if LoadNotebook(nb1).Failure? || LoadNotebook(nb2).Failure? then Failure(OldFormat)
    else
      var ids1 := CellIds(nb1.cells);
      var ids2 := CellIds(nb2.cells);
      var shared := (set x | x in ids1) * (set x | x in ids2);
      if shared == {} then Failure(NoSharedIds)
      else if SharedInOrder(ids1, shared) != SharedInOrder(ids2, shared) then Failure(DifferentOrder)
      else Success(())
  }

  /** The ids of the cells, in order. */
  function CellIds(cells: seq<Cell>): (r: seq<string>)
    ensures |r| == |cells| && forall i :: 0 <= i < |cells| ==> r[i] == cells[i].id
  {
    seq(|cells|, i requires 0 <= i < |cells| => cells[i].id)
  }

  /** Every element of `r` occurs in `ids`, earlier in `r` meaning earlier first position in `ids`. */
  predicate IncreasingIn(ids: seq<string>, r: seq<string>) {
    (forall x :: x in r ==> x in ids) &&
    forall a, b :: 0 <= a < b < |r| ==> r[a] in ids && r[b] in ids && FirstIndex(ids, r[a]) < FirstIndex(ids, r[b])
  }

  /** Any two ids of `shared` come in the same order, by first position, in `ids1` and in `ids2`. */
  predicate SameRelativeOrder(ids1: seq<string>, ids2: seq<string>, shared: set<string>) {
    forall a, b :: a in shared && b in shared && a in ids1 && b in ids1 && a in ids2 && b in ids2 ==>
      (FirstIndex(ids1, a) < FirstIndex(ids1, b) <==> FirstIndex(ids2, a) < FirstIndex(ids2, b))
  }

  /** Two orders of the same ids, each increasing by first position in `ids`, are one order. */
  lemma {:induction false} SortedUnique(ids: seq<string>, r1: seq<string>, r2: seq<string>)
    requires forall x :: x in r1 <==> x in r2
    requires IncreasingIn(ids, r1) && IncreasingIn(ids, r2)
    ensures r1 == r2
  {
    EmptyTogether(r1, r2);
    if r1 != [] {
      HeadFirst(ids, r1, r2[0]);
      HeadFirst(ids, r2, r1[0]);
      assert r1[0] == ids[FirstIndex(ids, r1[0])] == r2[0];
      TailsAlike(ids, r1, r2);
      IncreasingTail(ids, r1);
      IncreasingTail(ids, r2);
      SortedUnique(ids, r1[1..], r2[1..]);
      assert r1 == [r1[0]] + r1[1..] && r2 == [r2[0]] + r2[1..];
    }
  }

  lemma IncreasingTail(ids: seq<string>, r: seq<string>)
    requires IncreasingIn(ids, r) && r != []
    ensures IncreasingIn(ids, r[1..])
  {
    forall a, b | 0 <= a < b < |r| - 1 ensures FirstIndex(ids, r[1..][a]) < FirstIndex(ids, r[1..][b]) {
      assert r[1..][a] == r[a + 1] && r[1..][b] == r[b + 1];
    }
  }

  /** With equal heads, the tails of two increasing lists of the same ids hold the same ids. */
  lemma TailsAlike(ids: seq<string>, r1: seq<string>, r2: seq<string>)
    requires forall x :: x in r1 <==> x in r2
    requires IncreasingIn(ids, r1) && IncreasingIn(ids, r2)
    requires r1 != [] && r2 != [] && r1[0] == r2[0]
    ensures forall x :: x in r1[1..] <==> x in r2[1..]
  {
    forall x ensures x in r1[1..] <==> x in r2[1..] {
      if x in r1[1..] {
        var a :| 1 <= a < |r1| && r1[a] == x;
        assert FirstIndex(ids, r1[0]) < FirstIndex(ids, r1[a]);
        assert x in r2;
      }
      if x in r2[1..] {
        var a :| 1 <= a < |r2| && r2[a] == x;
        assert FirstIndex(ids, r2[0]) < FirstIndex(ids, r2[a]);
        assert x in r1;
      }
    }
  }

  lemma EmptyTogether(r1: seq<string>, r2: seq<string>)
    requires forall x :: x in r1 <==> x in r2
    ensures r1 == [] <==> r2 == []
  {
    if r1 != [] {
      assert r1[0] in r2;
    }
    if r2 != [] {
      assert r2[0] in r1;
    }
  }

  /** The head of an increasing list comes first in `ids`. */
  lemma HeadFirst(ids: seq<string>, r: seq<string>, x: string)
    requires IncreasingIn(ids, r) && r != [] && x in r
    ensures r[0] in ids && FirstIndex(ids, r[0]) <= FirstIndex(ids, x)
  {
    var i :| 0 <= i < |r| && r[i] == x;
    if i > 0 {
      assert FirstIndex(ids, r[0]) < FirstIndex(ids, r[i]);
    }
  }

  /** Equal sorted lists give the same relative order. */
  lemma OrderFromEqual(ids1: seq<string>, ids2: seq<string>, shared: set<string>)
    requires SharedInOrder(ids1, shared) == SharedInOrder(ids2, shared)
    ensures SameRelativeOrder(ids1, ids2, shared)
  {
    var r := SharedInOrder(ids1, shared);
    forall a, b | a in shared && b in shared && a in ids1 && b in ids1 && a in ids2 && b in ids2
      ensures FirstIndex(ids1, a) < FirstIndex(ids1, b) <==> FirstIndex(ids2, a) < FirstIndex(ids2, b)
    {
      var i :| 0 <= i < |r| && r[i] == a;
      var j :| 0 <= j < |r| && r[j] == b;
      if i < j {
        assert FirstIndex(ids1, a) < FirstIndex(ids1, b) && FirstIndex(ids2, a) < FirstIndex(ids2, b);
      } else if j < i {
        assert FirstIndex(ids1, b) < FirstIndex(ids1, a) && FirstIndex(ids2, b) < FirstIndex(ids2, a);
      }
    }
  }

  /** The same relative order gives equal sorted lists. */
  lemma EqualFromOrder(ids1: seq<string>, ids2: seq<string>, shared: set<string>)
    requires forall x :: x in shared ==> x in ids1 && x in ids2
    requires SameRelativeOrder(ids1, ids2, shared)
    ensures SharedInOrder(ids1, shared) == SharedInOrder(ids2, shared)
  {
    var r1, r2 := SharedInOrder(ids1, shared), SharedInOrder(ids2, shared);
    forall a, b | 0 <= a < b < |r2| ensures r2[a] in ids1 && r2[b] in ids1 && FirstIndex(ids1, r2[a]) < FirstIndex(ids1, r2[b]) {
      assert FirstIndex(ids2, r2[a]) < FirstIndex(ids2, r2[b]);
    }
    SortedUnique(ids1, r1, r2);
  }

  /**
    `check` succeeds exactly when both notebooks load, they share an id,
    and every two shared ids come in the same order in both.
  */
  lemma CheckIff(nb1: Notebook, nb2: Notebook)
    ensures Check(nb1, nb2).Success? <==>
      LoadNotebook(nb1).Success? && LoadNotebook(nb2).Success? &&
      Ids(nb1.cells) * Ids(nb2.cells) != {} &&
      SameRelativeOrder(CellIds(nb1.cells), CellIds(nb2.cells), Ids(nb1.cells) * Ids(nb2.cells))
  {
    var ids1, ids2 := CellIds(nb1.cells), CellIds(nb2.cells);
    var shared := Ids(nb1.cells) * Ids(nb2.cells);
    IdsAsSet(nb1.cells);
    IdsAsSet(nb2.cells);
    if SharedInOrder(ids1, shared) == SharedInOrder(ids2, shared) {
      OrderFromEqual(ids1, ids2, shared);
    }
    if SameRelativeOrder(ids1, ids2, shared) {
      EqualFromOrder(ids1, ids2, shared);
    }
  }

  lemma IdsAsSet(cells: seq<Cell>)
    ensures (set x | x in CellIds(cells)) == Ids(cells)
    ensures forall x :: x in CellIds(cells) <==> x in Ids(cells)
  {
    forall x | x in Ids(cells) ensures x in CellIds(cells) {
      var c :| c in cells && c.id == x;
      var i :| 0 <= i < |cells| && cells[i] == c;
      assert CellIds(cells)[i] == x;
    }
  }
}
