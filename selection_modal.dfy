/**
 * `AudioFileSelectionModal` (src/modal.ts; main.js carries the same class): one checkbox row per
 * audio link, a select-all checkbox, and a submit button that hands the checked links to
 * `onSelect` and closes the modal.
 *
 * The rows' `checked` flags are a `seq<bool>`, empty while nothing is shown. The `onSelect`
 * callback is not called here: each call is recorded in `selections`, in order, with its argument.
 */
module SelectionModal {

  /** The files whose flag is set, in row order. */
  function SelectedFiles(files: seq<string>, flags: seq<bool>): (r: seq<string>)
    requires |flags| == |files|
    ensures |r| <= |files|
    decreases |files|
  {
    if files == [] then []
    else
      var n := |files| - 1;
      SelectedFiles(files[..n], flags[..n]) + (if flags[n] then [files[n]] else [])
  }

  /** The row indices whose flag is set, in increasing order. */
  function CheckedIndices(flags: seq<bool>): (ix: seq<nat>)
    ensures forall k :: 0 <= k < |ix| ==> ix[k] < |flags| && flags[ix[k]]
    ensures forall j, k :: 0 <= j < k < |ix| ==> ix[j] < ix[k]
    decreases |flags|
  {
    if flags == [] then []
    else
      var n := |flags| - 1;
      CheckedIndices(flags[..n]) + (if flags[n] then [n] else [])
  }

  /** Every set flag is listed. */
  lemma {:induction false} CheckedIndicesComplete(flags: seq<bool>, i: nat)
    requires i < |flags| && flags[i]
    ensures i in CheckedIndices(flags)
    decreases |flags|
  {
    var n := |flags| - 1;
    if i < n {
      CheckedIndicesComplete(flags[..n], i);
    }
  }

  /** Submit emits exactly the `files[i]` whose flag is set, in index order, duplicates included:
      the k-th file emitted is the file of the k-th checked row. */
  lemma {:induction false} SelectedAreCheckedRows(files: seq<string>, flags: seq<bool>)
    requires |flags| == |files|
    ensures |SelectedFiles(files, flags)| == |CheckedIndices(flags)|
    ensures forall k :: 0 <= k < |CheckedIndices(flags)| ==>
      SelectedFiles(files, flags)[k] == files[CheckedIndices(flags)[k]]
    decreases |files|
  {
    if files != [] {
      var n := |files| - 1;
      SelectedAreCheckedRows(files[..n], flags[..n]);
    }
  }

  /** Every row checked: every file, in order. */
  lemma {:induction false} AllCheckedSelectsAll(files: seq<string>, flags: seq<bool>)
    requires |flags| == |files| && forall k :: 0 <= k < |flags| ==> flags[k]
    ensures SelectedFiles(files, flags) == files
    decreases |files|
  {
    if files != [] {
      var n := |files| - 1;
      AllCheckedSelectsAll(files[..n], flags[..n]);
      assert files[..n] + [files[n]] == files;
    }
  }

  /** No row checked: nothing. */
  lemma {:induction false} NoneCheckedSelectsNone(files: seq<string>, flags: seq<bool>)
    requires |flags| == |files| && forall k :: 0 <= k < |flags| ==> !flags[k]
    ensures SelectedFiles(files, flags) == []
    decreases |files|
  {
    if files != [] {
      var n := |files| - 1;
      NoneCheckedSelectsNone(files[..n], flags[..n]);
    }
  }

  /** Selection over rows split in two is the selection of each part, one after the other. */
  lemma {:induction false} SelectedFilesAppend(f1: seq<string>, g1: seq<bool>, f2: seq<string>, g2: seq<bool>)
    requires |g1| == |f1| && |g2| == |f2|
    ensures SelectedFiles(f1 + f2, g1 + g2) == SelectedFiles(f1, g1) + SelectedFiles(f2, g2)
    decreases |f2|
  {
    if f2 == [] {
      assert f1 + f2 == f1 && g1 + g2 == g1;
    } else {
      var n := |f2| - 1;
      assert (f1 + f2)[..|f1| + n] == f1 + f2[..n];
      assert (g1 + g2)[..|g1| + n] == g1 + g2[..n];
      SelectedFilesAppend(f1, g1, f2[..n], g2[..n]);
    }
  }

  /** Every row but row `k` checked: the files without the k-th. */
  lemma AllButOneSelectsTheOthers(files: seq<string>, flags: seq<bool>, k: nat)
    requires |flags| == |files| && k < |files|
    requires forall i :: 0 <= i < |flags| ==> flags[i] == (i != k)
    ensures SelectedFiles(files, flags) == files[..k] + files[k + 1..]
  {
    assert files == files[..k] + [files[k]] + files[k + 1..];
    assert flags == flags[..k] + [flags[k]] + flags[k + 1..];
    SelectedFilesAppend(files[..k] + [files[k]], flags[..k] + [flags[k]], files[k + 1..], flags[k + 1..]);
    SelectedFilesAppend(files[..k], flags[..k], [files[k]], [flags[k]]);
    AllCheckedSelectsAll(files[..k], flags[..k]);
    AllCheckedSelectsAll(files[k + 1..], flags[k + 1..]);
    assert [files[k]][..0] == [] && [flags[k]][..0] == [];
  }

  class AudioFileSelectionModal {
    const audioFiles: seq<string>
    /** The modal's content is shown (between `onOpen` and `onClose`). */
    var isOpen: bool
    /** The select-all checkbox. */
    var allChecked: bool
    /** The `.audio-checkbox` rows, in document order. */
    var checked: seq<bool>
    /** The argument of every `onSelect` call so far. */
    var selections: seq<seq<string>>

    predicate Valid()
      reads this
    {
      && (isOpen ==> |checked| == |audioFiles|)
      && (!isOpen ==> checked == [] && !allChecked)
    }

    constructor (audioFiles: seq<string>)
      ensures Valid() && this.audioFiles == audioFiles
      ensures !isOpen && selections == []
    {
      this.audioFiles := audioFiles;
      isOpen := false;
      allChecked := false;
      checked := [];
      selections := [];
    }

    /** `onOpen`: the select-all box, then one unchecked row per audio file. */
    method Open()
      requires Valid() && !isOpen
      modifies this
      ensures Valid() && isOpen && !allChecked
      ensures checked == seq(|audioFiles|, _ => false)
      ensures selections == old(selections)
    {
      allChecked := false;
      for i := 0 to |audioFiles|
        invariant checked == seq(i, _ => false)
        invariant !isOpen && !allChecked && selections == old(selections)
      {
        checked := checked + [false];
      }
      isOpen := true;
    }

    /** The select-all box's `change` handler: every row takes the box's new value. */
    method ToggleAll(value: bool)
      requires Valid() && isOpen
      modifies this
      ensures Valid() && isOpen && allChecked == value
      ensures checked == seq(|old(checked)|, _ => value)
      ensures selections == old(selections)
    {
      allChecked := value;
      var i := 0;
      while i < |checked|
        invariant 0 <= i <= |checked| == |old(checked)|
        invariant forall j :: 0 <= j < i ==> checked[j] == value
        invariant forall j :: i <= j < |checked| ==> checked[j] == old(checked)[j]
        invariant isOpen && allChecked == value && selections == old(selections)
      {
        checked := checked[i := value];
        i := i + 1;
      }
    }

    /** The user clicks row `i`. The select-all box is left as it is. */
    method ToggleRow(i: nat, value: bool)
      requires Valid() && isOpen && i < |checked|
      modifies this
      ensures Valid() && isOpen && allChecked == old(allChecked)
      ensures checked == old(checked)[i := value]
      ensures selections == old(selections)
    {
      checked := checked[i := value];
    }

    /** The submit button: collect the checked rows' files, call `onSelect` once, close. */
    method Submit() returns (selected: seq<string>)
      requires Valid() && isOpen
      modifies this
      ensures selected == SelectedFiles(audioFiles, old(checked))
      ensures selections == old(selections) + [selected]
      ensures Valid() && !isOpen
    {
      selected := [];
      for index := 0 to |checked|
        invariant selected == SelectedFiles(audioFiles[..index], checked[..index])
      {
        assert audioFiles[..index + 1][..index] == audioFiles[..index];
        assert checked[..index + 1][..index] == checked[..index];
        if checked[index] {
          selected := selected + [audioFiles[index]];
        }
      }
      assert audioFiles[..|checked|] == audioFiles && checked[..|checked|] == checked;
      selections := selections + [selected];
      Close();
    }

    /** `onClose`: the content is emptied; `onSelect` is not called. */
    method Close()
      requires Valid()
      modifies this
      ensures Valid() && !isOpen && checked == []
      ensures selections == old(selections)
    {
      isOpen := false;
      allChecked := false;
      checked := [];
    }
  }

  // ---------------------------------------------------------------------------------------------
  // Sessions with the modal

  /** Select all, then submit: every listed file is handed over, once. */
  method SelectAllAndSubmit(files: seq<string>) returns (selected: seq<string>, calls: seq<seq<string>>)
    ensures selected == files && calls == [files]
  {
    var modal := new AudioFileSelectionModal(files);
    modal.Open();
    modal.ToggleAll(true);
    selected := modal.Submit();
    AllCheckedSelectsAll(files, seq(|files|, _ => true));
    calls := modal.selections;
  }

  /** Select all, clear row `k`, submit: every file but the k-th. */
  method SelectAllButOne(files: seq<string>, k: nat) returns (selected: seq<string>)
    requires k < |files|
    ensures selected == files[..k] + files[k + 1..]
  {
    var modal := new AudioFileSelectionModal(files);
    modal.Open();
    modal.ToggleAll(true);
    modal.ToggleRow(k, false);
    ghost var flags := modal.checked;
    selected := modal.Submit();
    AllButOneSelectsTheOthers(files, flags, k);
  }

  /** Open, tick some rows, close without submitting: `onSelect` is never called. */
  method OpenThenDismiss(files: seq<string>, ticks: seq<nat>) returns (calls: seq<seq<string>>)
    ensures calls == []
  {
    var modal := new AudioFileSelectionModal(files);
    modal.Open();
    for t := 0 to |ticks|
      invariant modal.Valid() && modal.isOpen && modal.selections == []
    {
      if ticks[t] < |modal.checked| {
        modal.ToggleRow(ticks[t], true);
      }
    }
    modal.Close();
    calls := modal.selections;
  }
}
