/** The client-side media viewer: an index into the list of media the page shows, opened on
    one item, moved one step at a time, and driven by the keyboard. The index rules (the
    current item, whether there is a next or previous one, clamping on open) are shared with
    the classify viewer. Zoom and drag work on floating-point scale and offsets and are not
    part of this model; the keys that ask for them are reported, not carried out. */
module MediaViewer {
  import opened Wrappers
  import opened Media

  /** currentMedia: none for an empty list or an index outside it, otherwise the item there. */
  function CurrentOf<T>(list: seq<T>, index: int): (r: Option<T>)
    ensures r.None? <==> |list| == 0 || index < 0 || index >= |list|
    ensures r.Some? ==> 0 <= index < |list| && r.value == list[index]
  {
    if |list| == 0 || index < 0 || index >= |list| then None else Some(list[index])
  }

  /** hasNext */
  predicate HasNext<T>(list: seq<T>, index: int)
  {
    index < |list| - 1
  }

  /** hasPrev */
  predicate HasPrev(index: int)
  {
    index > 0
  }

  /** Math.max(0, Math.min(index, length - 1)) */
  function Clamp(index: int, length: int): (r: int)
    requires length > 0
    ensures 0 <= r < length
    ensures 0 <= index < length ==> r == index
    ensures index < 0 ==> r == 0
    ensures index >= length ==> r == length - 1
  {
    var upper := if index < length - 1 then index else length - 1;
    if 0 > upper then 0 else upper
  }

  /** The index after next(): one further when there is a next item, unchanged otherwise. */
  function NextIndex<T>(list: seq<T>, index: int): int
  {
    if HasNext(list, index) then index + 1 else index
  }

  /** The index after prev(): one back when there is a previous item, unchanged otherwise. */
  function PrevIndex(index: int): int
  {
    if HasPrev(index) then index - 1 else index
  }

  /** Moving forward or back from a shown item shows an item: next moves exactly one step
      unless the item is the last, prev exactly one step back unless it is the first, and
      otherwise nothing moves. */
  lemma StepsStayInList<T>(list: seq<T>, index: int)
    requires CurrentOf(list, index).Some?
    ensures CurrentOf(list, NextIndex(list, index)).Some?
    ensures CurrentOf(list, PrevIndex(index)).Some?
    ensures NextIndex(list, index) == index + 1 <==> index < |list| - 1
    ensures NextIndex(list, index) == index <==> index == |list| - 1
    ensures PrevIndex(index) == index - 1 <==> index > 0
    ensures PrevIndex(index) == index <==> index == 0
  {
  }

  /** Opening on a non-empty list shows an item, the requested one when it is in the list. */
  lemma OpenShows<T>(list: seq<T>, index: int)
    requires |list| > 0
    ensures CurrentOf(list, Clamp(index, |list|)).Some?
    ensures 0 <= index < |list| ==> CurrentOf(list, Clamp(index, |list|)) == Some(list[index])
  {
  }

  /** What a key asks the open viewer to do. */
  datatype KeyAction = CloseViewer | NextItem | PrevItem | ZoomIn | ZoomOut | ResetZoom | NoAction

  /** The dispatch of handleKeydown. */
  function KeyActionOf(key: string): (a: KeyAction)
    ensures a == NoAction <==> key !in ["Escape", "ArrowRight", "ArrowLeft", "+", "=", "-", "0"]
    ensures a == ZoomIn <==> key == "+" || key == "="
  {
    match key
    case "Escape" => CloseViewer
    case "ArrowRight" => NextItem
    case "ArrowLeft" => PrevItem
    case "+" => ZoomIn
    case "=" => ZoomIn
    case "-" => ZoomOut
    case "0" => ResetZoom
    case _ => NoAction
  }

  class Viewer {
    var mediaList: seq<MediaInfo>
    var isOpen: bool
    var currentIndex: int
    var isLoading: bool
    const enableKeyboard: bool

    /** While the viewer is open it shows an item. */
    ghost predicate Valid()
      reads this
    {
      isOpen ==> CurrentOf(mediaList, currentIndex).Some?
    }

    constructor (list: seq<MediaInfo>, keyboard: bool)
      ensures Valid()
      ensures mediaList == list && !isOpen && currentIndex == 0 && !isLoading && enableKeyboard == keyboard
    {
      mediaList := list;
      isOpen := false;
      currentIndex := 0;
      isLoading := false;
      enableKeyboard := keyboard;
    }

    function CurrentMedia(): (r: Option<MediaInfo>)
      reads this
      requires Valid()
      ensures isOpen ==> r.Some? && r.value == mediaList[currentIndex]
      ensures r.None? <==> currentIndex < 0 || currentIndex >= |mediaList|
    {
      CurrentOf(mediaList, currentIndex)
    }

    method Open(index: int)
      requires Valid()
      modifies this`currentIndex, this`isOpen
      ensures Valid()
      ensures |mediaList| == 0 ==> isOpen == old(isOpen) && currentIndex == old(currentIndex)
      ensures |mediaList| > 0 ==> isOpen && currentIndex == Clamp(index, |mediaList|)
    {
      var listLength := |mediaList|;
      if listLength == 0 {
        return;
      }
      currentIndex := Clamp(index, listLength);
      OpenShows(mediaList, index);
      isOpen := true;
    }

    method Close()
      requires Valid()
      modifies this`isOpen
      ensures Valid()
      ensures !isOpen
    {
      isOpen := false;
    }

    method Next()
      requires Valid()
      modifies this`currentIndex, this`isLoading
      ensures Valid()
      ensures currentIndex == NextIndex(mediaList, old(currentIndex))
      ensures isLoading == (HasNext(mediaList, old(currentIndex)) || old(isLoading))
    {
      if HasNext(mediaList, currentIndex) {
        if isOpen {
          StepsStayInList(mediaList, currentIndex);
        }
        currentIndex := currentIndex + 1;
        isLoading := true;
      }
    }

    method Prev()
      requires Valid()
      modifies this`currentIndex, this`isLoading
      ensures Valid()
      ensures currentIndex == PrevIndex(old(currentIndex))
      ensures isLoading == (HasPrev(old(currentIndex)) || old(isLoading))
    {
      if HasPrev(currentIndex) {
        if isOpen {
          StepsStayInList(mediaList, currentIndex);
        }
        currentIndex := currentIndex - 1;
        isLoading := true;
      }
    }

    method Loaded()
      requires Valid()
      modifies this`isLoading
      ensures Valid()
      ensures !isLoading
    {
      isLoading := false;
    }

    /** handleKeydown: nothing when the viewer is closed or the keyboard is off; otherwise the
        key's action, carried out when it is a navigation and reported when it is a zoom. */
    method HandleKeydown(key: string) returns (action: KeyAction)
      requires Valid()
      modifies this`isOpen, this`currentIndex, this`isLoading
      ensures Valid()
      ensures action == if old(isOpen) && enableKeyboard then KeyActionOf(key) else NoAction
      ensures isOpen == (old(isOpen) && action != CloseViewer)
      ensures currentIndex == match action
        case NextItem => NextIndex(mediaList, old(currentIndex))
        case PrevItem => PrevIndex(old(currentIndex))
        case _ => old(currentIndex)
      ensures isLoading == match action
        case NextItem => HasNext(mediaList, old(currentIndex)) || old(isLoading)
        case PrevItem => HasPrev(old(currentIndex)) || old(isLoading)
        case _ => old(isLoading)
    {
      if !isOpen || !enableKeyboard {
        return NoAction;
      }
      action := KeyActionOf(key);
      match action
      case CloseViewer => Close();
      case NextItem => Next();
      case PrevItem => Prev();
      case _ =>
    }
  }
}
