/** The main view (`views/Main.jsx`): who owns the focus (the sidebar or
    the content), which view is selected, and whether a fullscreen player
    has unmounted the sidebar. The sidebar's cursor is kept here too, since
    it follows the selected view. */
module MainView {
  import opened Common
  import Sidebar

  datatype MainState = MainState(sidebarFocused: bool, selectedItem: string, fullscreen: bool, sidebarIndex: int)

  predicate Valid(m: MainState) {
    0 <= m.sidebarIndex < |Sidebar.MENU|
  }

  /** Sidebar unfocused, the home view, no fullscreen player. */
  function Initial(): (m: MainState)
    ensures Valid(m) && !m.sidebarFocused && !m.fullscreen && m.selectedItem == "recent"
    ensures Sidebar.MENU[m.sidebarIndex] == m.selectedItem
  {
    MainState(false, "recent", false, Sidebar.SyncIndex("recent"))
  }

  /** A new selected view moves the sidebar cursor to it; re-selecting the
      same view leaves the cursor where it is. */
  function Select(m: MainState, item: string): (r: MainState)
    ensures r.selectedItem == item && r.sidebarFocused == m.sidebarFocused && r.fullscreen == m.fullscreen
    ensures item != m.selectedItem ==> r.sidebarIndex == Sidebar.SyncIndex(item)
    ensures item == m.selectedItem ==> r == m
    ensures Valid(m) ==> Valid(r)
  {
    if item == m.selectedItem then m else m.(selectedItem := item, sidebarIndex := Sidebar.SyncIndex(item))
  }

  /** The sidebar's `onSelectItem`: select the view and give the focus back
      to the content. */
  function SidebarSelect(m: MainState, item: string): (r: MainState)
    ensures r.selectedItem == item && !r.sidebarFocused && r.fullscreen == m.fullscreen
    ensures Valid(m) ==> Valid(r)
  {
    Select(m, item).(sidebarFocused := false)
  }

  /** The content's `onFocusSidebar`: only the focus owner changes. */
  function FocusSidebar(m: MainState): (r: MainState)
    ensures r.sidebarFocused && r.selectedItem == m.selectedItem && r.sidebarIndex == m.sidebarIndex
    ensures r.fullscreen == m.fullscreen
  {
    m.(sidebarFocused := true)
  }

  /** The content's `onSelectItem`: the view changes, the focus does not. */
  function ContentSelect(m: MainState, item: string): (r: MainState)
    ensures r.selectedItem == item && r.sidebarFocused == m.sidebarFocused
    ensures Valid(m) ==> Valid(r)
  {
    Select(m, item)
  }

  /** A keydown as the sidebar sees it: no sidebar is mounted while a player
      is fullscreen, so nothing happens then. */
  function MainKey(m: MainState, e: KeyEvent): (r: MainState)
    requires Valid(m)
    ensures Valid(r)
    ensures m.fullscreen ==> r == m
    ensures !m.sidebarFocused ==> r == m
    ensures r.fullscreen == m.fullscreen
  {
    if m.fullscreen then m
    else
      var s := Sidebar.SidebarKey(m.sidebarFocused, m.sidebarIndex, m.selectedItem, e);
      match s.selection
      case Some(item) => SidebarSelect(m.(sidebarIndex := s.index), item)
      case None => m.(sidebarIndex := s.index)
  }

  /** Handing the focus to the sidebar and pressing Right returns to the
      same view with the content focused, exactly as before. */
  lemma FocusThenRight(m: MainState, code: int)
    requires Valid(m) && !m.fullscreen && !m.sidebarFocused
    ensures MainKey(FocusSidebar(m), KeyEvent("ArrowRight", code)) == m
  {
  }

  /** Enter on the focused sidebar opens the entry under the cursor and
      keeps the cursor on it. */
  lemma EnterOpensEntry(m: MainState, code: int)
    requires Valid(m) && !m.fullscreen && m.sidebarFocused
    ensures var r := MainKey(m, KeyEvent("Enter", code));
      r.selectedItem == Sidebar.MENU[m.sidebarIndex] && !r.sidebarFocused && r.sidebarIndex == m.sidebarIndex
  {
    Sidebar.EnterKeepsCursor(m.sidebarIndex, m.selectedItem, code);
  }

  /** A run of keydowns reaching the sidebar. */
  function Run(m: MainState, keys: seq<KeyEvent>): (r: MainState)
    requires Valid(m)
    ensures Valid(r)
    decreases |keys|
  {
    if keys == [] then m else Run(MainKey(m, keys[0]), keys[1..])
  }

  /** The home component this view renders takes no callbacks, so nothing
      ever calls `onFocusSidebar`: from an unfocused sidebar no run of keys
      changes anything. */
  lemma {:induction false} UnfocusedSidebarStaysIdle(m: MainState, keys: seq<KeyEvent>)
    requires Valid(m) && !m.sidebarFocused
    ensures Run(m, keys) == m
    decreases |keys|
  {
    if keys != [] {
      UnfocusedSidebarStaysIdle(MainKey(m, keys[0]), keys[1..]);
    }
  }
}
