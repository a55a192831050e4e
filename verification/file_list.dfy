/** The client's ordered selection of files (App.jsx `handleFileChange`,
    `moveUp`, `moveDown`, `removeFile`). The list order is the merge order.
    A file is opaque here: the type parameter `F`. */
module FileList {

  /** Adding a picked batch: every file goes to the end, in the order picked,
      with nothing dropped or deduplicated. */
  function Append<F>(files: seq<F>, batch: seq<F>): (r: seq<F>)
    ensures |r| == |files| + |batch|
    ensures r[..|files|] == files
    ensures forall k :: 0 <= k < |batch| ==> r[|files| + k] == batch[k]
    ensures multiset(r) == multiset(files) + multiset(batch)
  {
    files + batch
  }

  /** The list with the files at `i` and `j` exchanged. */
  function Swap<F>(files: seq<F>, i: nat, j: nat): (r: seq<F>)
    requires i < |files| && j < |files|
    ensures |r| == |files|
    ensures r[i] == files[j] && r[j] == files[i]
    ensures forall k :: 0 <= k < |files| && k != i && k != j ==> r[k] == files[k]
    ensures multiset(r) == multiset(files)
  {
    files[i := files[j]][j := files[i]]
  }

  /** Moving the file at `i` one place towards the front; the first file
      stays where it is. The interface only offers the move for a listed
      file, so `i` is a valid position. */
  function MoveUp<F>(files: seq<F>, i: nat): (r: seq<F>)
    requires i < |files|
    ensures |r| == |files| && multiset(r) == multiset(files)
    ensures i == 0 ==> r == files
    ensures i > 0 ==> r[i - 1] == files[i] && r[i] == files[i - 1]
    ensures i > 0 ==> forall k :: 0 <= k < |files| && k != i - 1 && k != i ==> r[k] == files[k]
  {
    if i == 0 then files else Swap(files, i - 1, i)
  }

  /** Moving the file at `i` one place towards the back; the last file stays
      where it is. */
  function MoveDown<F>(files: seq<F>, i: nat): (r: seq<F>)
    requires i < |files|
    ensures |r| == |files| && multiset(r) == multiset(files)
    ensures i == |files| - 1 ==> r == files
    ensures i < |files| - 1 ==> r[i + 1] == files[i] && r[i] == files[i + 1]
    ensures i < |files| - 1 ==> forall k :: 0 <= k < |files| && k != i && k != i + 1 ==> r[k] == files[k]
  {
    if i == |files| - 1 then files else Swap(files, i + 1, i)
  }

  /** Removing the file at index `i`, written as the source writes it: keep
      every file whose index differs from `i`. Any integer may be passed. */
  function Remove<F>(files: seq<F>, i: int): (r: seq<F>)
    ensures 0 <= i < |files| ==> r == files[..i] + files[i + 1..]
    ensures !(0 <= i < |files|) ==> r == files
    decreases |files|
  {
    if |files| == 0 then []
    else
      var last := |files| - 1;
      Remove(files[..last], i) + (if last == i then [] else [files[last]])
  }

  /** Moving a file up and then moving it back down (from its new index)
      restores the list. */
  lemma MoveUpThenDown<F>(files: seq<F>, i: nat)
    requires 0 < i < |files|
    ensures MoveDown(MoveUp(files, i), i - 1) == files
  {
  }

  /** Moving a file down and then back up restores the list. */
  lemma MoveDownThenUp<F>(files: seq<F>, i: nat)
    requires i + 1 < |files|
    ensures MoveUp(MoveDown(files, i), i + 1) == files
  {
  }

  /** Moving the file at `i` up is the same as moving its predecessor down. */
  lemma MoveUpIsMoveDownOfPredecessor<F>(files: seq<F>, i: nat)
    requires 0 < i < |files|
    ensures MoveUp(files, i) == MoveDown(files, i - 1)
  {
  }

  /** Removing a listed file shortens the list by one, keeps the others in
      their relative order, and removes exactly one occurrence of that file. */
  lemma RemoveInRange<F>(files: seq<F>, i: int)
    requires 0 <= i < |files|
    ensures |Remove(files, i)| == |files| - 1
    ensures forall k :: 0 <= k < i ==> Remove(files, i)[k] == files[k]
    ensures forall k :: i <= k < |files| - 1 ==> Remove(files, i)[k] == files[k + 1]
    ensures multiset(Remove(files, i)) == multiset(files) - multiset{files[i]}
  {
    DropAt(files, i);
  }

  lemma DropAt<F>(files: seq<F>, i: int)
    requires 0 <= i < |files|
    ensures var r := files[..i] + files[i + 1..];
      && |r| == |files| - 1
      && (forall k :: 0 <= k < i ==> r[k] == files[k])
      && (forall k :: i <= k < |files| - 1 ==> r[k] == files[k + 1])
      && multiset(r) == multiset(files) - multiset{files[i]}
  {
    assert files == files[..i] + [files[i]] + files[i + 1..];
  }
}
