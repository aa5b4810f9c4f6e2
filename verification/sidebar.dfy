/** The navigation sidebar (`Sidebar.jsx`): six menu entries, a cursor that
    follows the selected view, cyclic Up/Down while focused, Right to return
    to the view and Enter to open the entry under the cursor. */
module Sidebar {
  import opened Common

  const MENU: seq<string> := ["search", "recent", "popular", "events", "watchlist", "settings"]

  /** The entry a conference slug, or any other unknown view, falls under. */
  const EVENTS_INDEX := 3

  lemma MenuShape()
    ensures |MENU| == 6 && MENU[EVENTS_INDEX] == "events"
    ensures NoDuplicates(MENU)
  {
  }

  /** The cursor position the menu moves to when the selected view changes:
      the view's entry, else "events". */
  function SyncIndex(selectedItem: string): (r: int)
    ensures 0 <= r < |MENU|
    ensures selectedItem in MENU ==> MENU[r] == selectedItem
    ensures selectedItem !in MENU ==> r == EVENTS_INDEX
  {
    var k := IndexOf(MENU, selectedItem);
    if k != -1 then k else EVENTS_INDEX
  }

  /** The view the parent is asked to show, if any. */
  datatype SidebarStep = SidebarStep(index: int, selection: Option<string>)

  /** One keydown; `index` is the cursor. */
  function SidebarKey(focused: bool, index: int, selectedItem: string, e: KeyEvent): (r: SidebarStep)
    requires 0 <= index < |MENU|
    ensures 0 <= r.index < |MENU|
    ensures !focused ==> r == SidebarStep(index, None)
    ensures focused && e.key == "ArrowDown" ==> r == SidebarStep(CycleNext(index, |MENU|), None)
    ensures focused && e.key == "ArrowUp" ==> r == SidebarStep(CyclePrev(index, |MENU|), None)
    ensures focused && e.key == "ArrowRight" ==> r == SidebarStep(index, Some(selectedItem))
    ensures focused && e.key == "Enter" ==> r == SidebarStep(index, Some(MENU[index]))
    ensures r.selection.Some? ==> r.index == index
  {
    if !focused then SidebarStep(index, None)
    else if e.key == "ArrowDown" then SidebarStep(JsRem(index + 1, |MENU|), None)
    else if e.key == "ArrowUp" then SidebarStep(JsRem(index - 1 + |MENU|, |MENU|), None)
    else if e.key == "ArrowRight" then SidebarStep(index, Some(selectedItem))
    else if e.key == "Enter" then SidebarStep(index, Some(MENU[index]))
    else SidebarStep(index, None)
  }

  /** The "selected" mark of an entry: the selected view itself, or
      "events" when the selected view is not a menu entry. */
  predicate IsSelected(item: string, selectedItem: string) {
    selectedItem == item ||
    (item == "events" && selectedItem != "search" && selectedItem != "popular" && selectedItem != "recent" &&
     selectedItem != "settings" && selectedItem != "watchlist")
  }

  /** Exactly one entry carries the mark, and it is the one the cursor
      moves to when the view changes. */
  lemma SelectedIsSyncIndex(selectedItem: string, i: int)
    requires 0 <= i < |MENU|
    ensures IsSelected(MENU[i], selectedItem) <==> i == SyncIndex(selectedItem)
  {
    MenuShape();
    if selectedItem in MENU {
      IndexOfDistinct(MENU, SyncIndex(selectedItem));
    }
  }

  /** Enter selects the entry under the cursor, and the cursor's sync to
      the new view puts it back where it was. */
  lemma EnterKeepsCursor(index: int, selectedItem: string, code: int)
    requires 0 <= index < |MENU|
    ensures var r := SidebarKey(true, index, selectedItem, KeyEvent("Enter", code));
      r.selection.Some? && SyncIndex(r.selection.value) == index
  {
    MenuShape();
    IndexOfDistinct(MENU, index);
  }
}
