/** The cursor of a plain vertical list (`useListNavigation`): Up and Down
    cycle over the entries, Left hands the focus to the sidebar, Enter
    selects, the back keys close. */
module ListNavigation {
  import opened Common

  /** The callback a key invokes, if any. */
  datatype ListEffect = NoEffect | Close | FocusSidebar | Select(index: int)

  datatype ListStep = ListStep(index: int, effect: ListEffect)

  /** The list ignores every key while disabled, while the sidebar has the
      focus and while it is empty. */
  predicate Active(itemCount: int, disabled: bool, sidebarFocused: bool) {
    !disabled && !sidebarFocused && itemCount != 0
  }

  predicate ClosesList(e: KeyEvent) {
    e.key == "Escape" || e.key == "Backspace" ||
    (e.key != "ArrowDown" && e.key != "ArrowUp" && e.key != "ArrowLeft" && e.key != "Enter" && e.code == 461)
  }

  /** One keydown on the list; `itemCount` is never negative. */
  function ListKey(e: KeyEvent, itemCount: nat, index: int, disabled: bool, sidebarFocused: bool): (r: ListStep)
    ensures !Active(itemCount, disabled, sidebarFocused) ==> r == ListStep(index, NoEffect)
    ensures Active(itemCount, disabled, sidebarFocused) && ClosesList(e) ==> r == ListStep(index, Close)
    ensures Active(itemCount, disabled, sidebarFocused) && e.key == "ArrowDown" ==>
      r.effect == NoEffect && r.index == JsRem(index + 1, itemCount)
    ensures Active(itemCount, disabled, sidebarFocused) && e.key == "ArrowUp" ==>
      r.effect == NoEffect && r.index == JsRem(index - 1 + itemCount, itemCount)
    ensures Active(itemCount, disabled, sidebarFocused) && e.key == "ArrowLeft" ==> r == ListStep(index, FocusSidebar)
    ensures Active(itemCount, disabled, sidebarFocused) && e.key == "Enter" ==> r == ListStep(index, Select(index))
    ensures r.effect.NoEffect? || r.index == index
  {
    if !Active(itemCount, disabled, sidebarFocused) then ListStep(index, NoEffect)
    else if e.key == "Escape" || e.key == "Backspace" then ListStep(index, Close)
    else if e.key == "ArrowDown" then ListStep(JsRem(index + 1, itemCount), NoEffect)
    else if e.key == "ArrowUp" then ListStep(JsRem(index - 1 + itemCount, itemCount), NoEffect)
    else if e.key == "ArrowLeft" then ListStep(index, FocusSidebar)
    else if e.key == "Enter" then ListStep(index, Select(index))
    else if e.code == 461 then ListStep(index, Close)
    else ListStep(index, NoEffect)
  }

  /** A cursor inside the list stays inside it, whatever the key. */
  lemma ListKeyInRange(e: KeyEvent, itemCount: nat, index: int, disabled: bool, sidebarFocused: bool)
    requires 0 <= index < itemCount
    ensures 0 <= ListKey(e, itemCount, index, disabled, sidebarFocused).index < itemCount
  {
  }

  /** Down and Up are the cyclic successor and predecessor. */
  lemma ArrowsCycle(itemCount: nat, index: int, code: int)
    requires 0 <= index < itemCount
    ensures ListKey(KeyEvent("ArrowDown", code), itemCount, index, false, false).index == CycleNext(index, itemCount)
    ensures ListKey(KeyEvent("ArrowUp", code), itemCount, index, false, false).index == CyclePrev(index, itemCount)
  {
  }

  /** Down then Up comes back to the same entry, and so does Up then Down. */
  lemma DownThenUp(itemCount: nat, index: int, code: int)
    requires 0 <= index < itemCount
    ensures var down := ListKey(KeyEvent("ArrowDown", code), itemCount, index, false, false).index;
      ListKey(KeyEvent("ArrowUp", code), itemCount, down, false, false).index == index
    ensures var up := ListKey(KeyEvent("ArrowUp", code), itemCount, index, false, false).index;
      ListKey(KeyEvent("ArrowDown", code), itemCount, up, false, false).index == index
  {
    ArrowsCycle(itemCount, index, code);
    CycleInverse(index, itemCount);
    ArrowsCycle(itemCount, CycleNext(index, itemCount), code);
    ArrowsCycle(itemCount, CyclePrev(index, itemCount), code);
  }

  /** The webOS back button (461) closes the list like Escape. */
  lemma RemoteBackCloses(itemCount: nat, index: int, key: string)
    requires itemCount > 0
    requires key != "ArrowDown" && key != "ArrowUp" && key != "ArrowLeft" && key != "Enter"
    ensures ListKey(KeyEvent(key, 461), itemCount, index, false, false).effect == Close
  {
  }
}
