/** The client-side classify viewer: the media viewer's index rules, plus moving the shown
    item to the folder of a shortcut key (after which it leaves the list), undoing the last
    move, and counting what was classified. The backend calls (the move, the undo and the
    undo count) are outcomes given to each operation. */
module ClassifyViewer {
  import opened Wrappers
  import opened Media
  import opened Shortcut
  import opened MediaViewer
  import opened Sorting
  import opened ShortcutList

  /** What the viewer last reported. */
  datatype LastAction = Nothing | Skipped | NotConfigured(key: string) | MovedTo(caption: string) | MoveFailed | Undone | UndoFailed

  /** The index after the item at i was removed from a list that now has `length` items: the
      same position, or the new last one when the removed item was last. */
  function IndexAfterRemoval(i: int, length: int): int
  {
    if i >= length then length - 1 else i
  }

  /** After a move the viewer shows the item that followed the moved one, or the one before
      it when the moved item was the last. */
  lemma NextShownAfterRemoval<T>(list: seq<T>, i: nat)
    requires i < |list| && |list| > 1
    ensures var r := Removed(list, i);
      var k := IndexAfterRemoval(i, |r|);
      && CurrentOf(r, k).Some?
      && CurrentOf(r, k).value == if i + 1 < |list| then list[i + 1] else list[i - 1]
  {
    RemovedKeepsOthers(list, i);
  }

  /** The count of a category after one more item was moved into it. */
  function CountedOnce(categories: map<string, int>, caption: string): (r: map<string, int>)
    ensures caption in r && r.Keys == categories.Keys + {caption}
    ensures r[caption] == (if caption in categories then categories[caption] else 0) + 1
    ensures forall c :: c in categories && c != caption ==> r[c] == categories[c]
  {
    categories[caption := (if caption in categories then categories[caption] else 0) + 1]
  }

  /** Math.max(0, processed - 1) */
  function Uncounted(processed: int): (r: int)
    ensures r >= 0
    ensures processed > 0 ==> r == processed - 1
    ensures processed <= 0 ==> r == 0
  {
    if processed - 1 > 0 then processed - 1 else 0
  }

  class Classifier {
    var mediaList: seq<MediaInfo>
    var shortcuts: seq<ShortcutConfig>
    var isOpen: bool
    var currentIndex: int
    var isProcessing: bool
    var lastAction: LastAction
    var undoCount: int
    var processed: int
    var total: int
    var categories: map<string, int>

    /** While the viewer is open it shows an item; the processed count is never negative. */
    ghost predicate Valid()
      reads this
    {
      && (isOpen ==> CurrentOf(mediaList, currentIndex).Some?)
      && processed >= 0
    }

    constructor (list: seq<MediaInfo>, configs: seq<ShortcutConfig>)
      ensures Valid()
      ensures mediaList == list && shortcuts == configs && !isOpen && currentIndex == 0 && !isProcessing
      ensures lastAction == Nothing && undoCount == 0 && processed == 0 && total == 0 && categories == map[]
    {
      mediaList, shortcuts := list, configs;
      isOpen, currentIndex, isProcessing := false, 0, false;
      lastAction, undoCount := Nothing, 0;
      processed, total, categories := 0, 0, map[];
    }

    function CurrentMedia(): (r: Option<MediaInfo>)
      reads this
      requires Valid()
      ensures isOpen ==> r.Some? && r.value == mediaList[currentIndex]
      ensures r.None? <==> currentIndex < 0 || currentIndex >= |mediaList|
    {
      CurrentOf(mediaList, currentIndex)
    }

    /** open: nothing on an empty list; otherwise the clamped index, the list length as the
        total, and the viewer open. */
    method Open(index: int)
      requires Valid()
      modifies this`currentIndex, this`total, this`isOpen
      ensures Valid()
      ensures |mediaList| == 0 ==> isOpen == old(isOpen) && currentIndex == old(currentIndex) && total == old(total)
      ensures |mediaList| > 0 ==> isOpen && currentIndex == Clamp(index, |mediaList|) && total == |mediaList|
    {
      var listLength := |mediaList|;
      if listLength == 0 {
        return;
      }
      currentIndex := Clamp(index, listLength);
      total := listLength;
      OpenShows(mediaList, index);
      isOpen := true;
    }

    /** close: only the viewer's open flag changes. */
    method Close()
      requires Valid()
      modifies this`isOpen
      ensures Valid()
      ensures !isOpen
    {
      isOpen := false;
    }

    method Next()
      requires Valid()
      modifies this`currentIndex
      ensures Valid()
      ensures currentIndex == NextIndex(mediaList, old(currentIndex))
    {
      if HasNext(mediaList, currentIndex) {
        if isOpen {
          StepsStayInList(mediaList, currentIndex);
        }
        currentIndex := currentIndex + 1;
      }
    }

    method Prev()
      requires Valid()
      modifies this`currentIndex
      ensures Valid()
      ensures currentIndex == PrevIndex(old(currentIndex))
    {
      if HasPrev(currentIndex) {
        if isOpen {
          StepsStayInList(mediaList, currentIndex);
        }
        currentIndex := currentIndex - 1;
      }
    }

    /** skip: next, and the skip is reported even on the last item. */
    method Skip()
      requires Valid()
      modifies this`currentIndex, this`lastAction
      ensures Valid()
      ensures currentIndex == NextIndex(mediaList, old(currentIndex))
      ensures lastAction == Skipped
    {
      Next();
      lastAction := Skipped;
    }

    /** refreshUndoCount: the count the backend reports, kept as it was when the call fails. */
    method RefreshUndoCount(reported: Option<int>)
      modifies this`undoCount
      ensures undoCount == if reported.Some? then reported.value else old(undoCount)
    {
      if reported.Some? {
        undoCount := reported.value;
      }
    }

    /** moveByShortcut: `moved` is whether the backend moved the file, `reported` the undo
        count it then gives. Nothing happens without a shown item or while another call is
        under way; a key without a configured folder is reported and changes nothing else; a
        failed move is reported. A move that succeeds counts the item, takes it out of the
        list and shows the item that followed it (the one before when it was last), reports
        the move and refreshes the undo count; when the list is then empty the viewer only
        closes, keeping its index, its last action and its undo count. */
    method MoveByShortcut(key: string, moved: bool, reported: Option<int>) returns (ok: bool)
      requires Valid()
      modifies this`mediaList, this`currentIndex, this`isOpen, this`isProcessing
      modifies this`lastAction, this`undoCount, this`processed, this`categories
      ensures Valid()
      ensures ok <==> old(CurrentOf(mediaList, currentIndex)).Some? && !old(isProcessing) && IsValidShortcut(shortcuts, key) && moved
      ensures !ok ==>
        && mediaList == old(mediaList) && currentIndex == old(currentIndex) && isOpen == old(isOpen)
        && processed == old(processed) && categories == old(categories) && undoCount == old(undoCount)
      ensures lastAction ==
        if old(CurrentOf(mediaList, currentIndex)).None? || old(isProcessing) then old(lastAction)
        else if !IsValidShortcut(shortcuts, key) then NotConfigured(key)
        else if !moved then MoveFailed
        else if mediaList == [] then old(lastAction)
        else MovedTo(Lookup(shortcuts, key).value.caption)
      ensures ok ==>
        && mediaList == Removed(old(mediaList), old(currentIndex))
        && processed == old(processed) + 1
        && categories == CountedOnce(old(categories), Lookup(shortcuts, key).value.caption)
        && (mediaList == [] ==> !isOpen && currentIndex == old(currentIndex) && undoCount == old(undoCount))
        && (mediaList != [] ==>
              && currentIndex == IndexAfterRemoval(old(currentIndex), |mediaList|)
              && isOpen == old(isOpen)
              && CurrentOf(mediaList, currentIndex).Some?
              && undoCount == if reported.Some? then reported.value else old(undoCount))
      ensures isProcessing == old(isProcessing)
    {
      var media := CurrentOf(mediaList, currentIndex);
      if media.None? || isProcessing {
        return false;
      }
      var shortcut := Lookup(shortcuts, key);
      if shortcut.None? || shortcut.value.targetDir == "" {
        lastAction := NotConfigured(key);
        return false;
      }
      isProcessing := true;
      if !moved {
        lastAction := MoveFailed;
        isProcessing := false;
        return false;
      }
      RecordMove(shortcut.value.caption, reported);
      isProcessing := false;
      return true;
    }

    /** What follows a move the backend made: the item is counted under `caption` and leaves
        the list; the viewer closes on an empty list, and otherwise reports the move and
        takes the reported undo count. */
    method RecordMove(caption: string, reported: Option<int>)
      requires Valid() && CurrentOf(mediaList, currentIndex).Some?
      modifies this`mediaList, this`currentIndex, this`isOpen
      modifies this`lastAction, this`undoCount, this`processed, this`categories
      ensures Valid()
      ensures mediaList == Removed(old(mediaList), old(currentIndex))
      ensures processed == old(processed) + 1
      ensures categories == CountedOnce(old(categories), caption)
      ensures mediaList == [] ==>
        !isOpen && currentIndex == old(currentIndex) && lastAction == old(lastAction) && undoCount == old(undoCount)
      ensures mediaList != [] ==>
        && currentIndex == IndexAfterRemoval(old(currentIndex), |mediaList|)
        && isOpen == old(isOpen)
        && CurrentOf(mediaList, currentIndex).Some?
        && lastAction == MovedTo(caption)
        && undoCount == if reported.Some? then reported.value else old(undoCount)
    {
      processed := processed + 1;
      categories := CountedOnce(categories, caption);
      RemoveCurrent();
      if |mediaList| == 0 {
        return;
      }
      lastAction := MovedTo(caption);
      RefreshUndoCount(reported);
    }

    /** Takes the shown item out of the list: the viewer then shows the item that followed it
        (the one before when it was last), or closes, keeping its index, when the list is
        empty. */
    method RemoveCurrent()
      requires Valid() && CurrentOf(mediaList, currentIndex).Some?
      modifies this`mediaList, this`currentIndex, this`isOpen
      ensures Valid()
      ensures mediaList == Removed(old(mediaList), old(currentIndex))
      ensures mediaList == [] ==> !isOpen && currentIndex == old(currentIndex)
      ensures mediaList != [] ==>
        && currentIndex == IndexAfterRemoval(old(currentIndex), |mediaList|)
        && isOpen == old(isOpen)
        && CurrentOf(mediaList, currentIndex).Some?
    {
      var curIdx := currentIndex;
      if |mediaList| > 1 {
        NextShownAfterRemoval(mediaList, curIdx);
      }
      mediaList := Removed(mediaList, curIdx);
      if |mediaList| == 0 {
        isOpen := false;
        return;
      }
      if curIdx >= |mediaList| {
        currentIndex := |mediaList| - 1;
      }
    }

    /** undo: `undone` is whether the backend undid the last move, `reported` the undo count it
        then gives. Nothing happens with no move to undo or while another call is under way; a
        failed undo is reported; a successful one takes one off the processed count, never
        below zero, reports the undo and refreshes the undo count. */
    method Undo(undone: bool, reported: Option<int>) returns (ok: bool)
      requires Valid()
      modifies this`isProcessing, this`lastAction, this`undoCount, this`processed
      ensures Valid()
      ensures isProcessing == old(isProcessing)
      ensures ok <==> old(undoCount) != 0 && !old(isProcessing) && undone
      ensures ok ==> processed == Uncounted(old(processed)) && lastAction == Undone
      ensures ok ==> undoCount == if reported.Some? then reported.value else old(undoCount)
      ensures !ok ==> processed == old(processed) && undoCount == old(undoCount)
      ensures !ok ==> lastAction == if old(undoCount) == 0 || old(isProcessing) then old(lastAction) else UndoFailed
    {
      if undoCount == 0 || isProcessing {
        return false;
      }
      isProcessing := true;
      if !undone {
        lastAction := UndoFailed;
        isProcessing := false;
        return false;
      }
      processed := if processed - 1 > 0 then processed - 1 else 0;
      lastAction := Undone;
      RefreshUndoCount(reported);
      isProcessing := false;
      return true;
    }
  }
}
