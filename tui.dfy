/** The interactive terminal front end: a main menu of six options, three
    list views filled by the discovery engine, and a key dispatcher. The
    state is the `App` object whose methods move the menu and list
    selections (wrapping at both ends), switch views, toggle the help
    overlay and set the status message. Rendering is not modelled. */
module Tui {
  import opened Results
  import opened Paths
  import opened FsTree
  import opened FileItems
  import opened Discovery

  datatype MenuOption =
    | ListDirectories
    | FindLargeFiles
    | FindDevArtifacts
    | DockerCleanup
    | TempCleanup
    | Exit

  /** The menu, in display order; it never changes after start-up. */
  const MenuOptions: seq<MenuOption> :=
    [ListDirectories, FindLargeFiles, FindDevArtifacts, DockerCleanup, TempCleanup, Exit]

  datatype AppView = Menu | DirectoryList | LargeFiles | DevArtifacts | Loading

  /** The threshold of the large-file view: 100 MiB. */
  const LargeFileThreshold: nat := 100 * 1024 * 1024

  const DockerMessage: string := "Docker cleanup functionality requires CLI mode. Use: safe-clean docker"
  const TempMessage: string := "Temp cleanup functionality requires CLI mode. Use: safe-clean temp"

  // ------------------------------------------------------------ selection

  /** The selection after Down in a list of `len` entries: one further, from
      the last entry (or beyond it) back to the first, and the first entry
      when nothing was selected. */
  function Next(sel: Option<nat>, len: nat): (n: nat)
    requires len > 0
    ensures n < len
  {
    match sel
    case Some(i) => if i >= len - 1 then 0 else i + 1
    case None => 0
  }

  /** The selection after Up: one back, from the first entry to the last,
      and the first entry when nothing was selected. A selection beyond the
      end is not pulled back into range. */
  function Prev(sel: Option<nat>, len: nat): (n: nat)
    requires len > 0
    ensures (sel.Some? ==> sel.value <= len) ==> n < len
  {
    match sel
    case Some(i) => if i == 0 then len - 1 else i - 1
    case None => 0
  }

  lemma MulAtLeast(a: int, n: int)
    requires a >= 1 && n > 0
    ensures a * n >= n
  {
  }

  /** `x` leaves remainder `s` when it is `q` whole rounds of `n` plus `s`. */
  lemma ModOfRounds(x: int, n: int, q: int, s: int)
    requires 0 <= s < n && x == q * n + s
    ensures x % n == s
  {
    var d, m := x / n, x % n;
    assert x == d * n + m;
    assert (q - d) * n == m - s;
    if q > d {
      MulAtLeast(q - d, n);
    } else if q < d {
      MulAtLeast(d - q, n);
    }
  }

  /** Down from an entry in range is the successor modulo the length. */
  lemma NextIsSuccessor(i: nat, len: nat)
    requires i < len
    ensures Next(Some(i), len) == (i + 1) % len
  {
    if i == len - 1 {
      ModOfRounds(i + 1, len, 1, 0);
    } else {
      ModOfRounds(i + 1, len, 0, i + 1);
    }
  }

  /** Up from an entry in range is the predecessor modulo the length. */
  lemma PrevIsPredecessor(i: nat, len: nat)
    requires i < len
    ensures Prev(Some(i), len) == (i + len - 1) % len
  {
    if i == 0 {
      ModOfRounds(len - 1, len, 0, len - 1);
    } else {
      ModOfRounds(i + len - 1, len, 1, i - 1);
    }
  }

  /** Up undoes Down and Down undoes Up on every entry in range. */
  lemma NextPrevInverse(i: nat, len: nat)
    requires i < len
    ensures Prev(Some(Next(Some(i), len)), len) == i
    ensures Next(Some(Prev(Some(i), len)), len) == i
  {
  }

  /** The selection after `k` presses of Down from entry `i`. */
  function Steps(i: nat, k: nat, len: nat): (n: nat)
    requires i < len
    ensures n < len
  {
    if k == 0 then i else Next(Some(Steps(i, k - 1, len)), len)
  }

  /** `k` presses of Down move `k` entries on, modulo the length. */
  lemma {:induction false} StepsAreModular(i: nat, k: nat, len: nat)
    requires i < len
    ensures Steps(i, k, len) == (i + k) % len
  {
    if k == 0 {
      ModOfRounds(i, len, 0, i);
    } else {
      StepsAreModular(i, k - 1, len);
      SuccessorMod(i + k - 1, len);
    }
  }

  /** Down from the remainder of `x` is the remainder of `x + 1`. */
  lemma SuccessorMod(x: nat, n: nat)
    requires n > 0
    ensures Next(Some(x % n), n) == (x + 1) % n
  {
    var q, s := x / n, x % n;
    assert x == q * n + s;
    if s == n - 1 {
      assert x + 1 == (q + 1) * n + 0;
      ModOfRounds(x + 1, n, q + 1, 0);
    } else {
      ModOfRounds(x + 1, n, q, s + 1);
    }
  }

  /** A full round of Down presses comes back to the entry it started from. */
  lemma FullRoundReturns(i: nat, len: nat)
    requires i < len
    ensures Steps(i, len, len) == i
  {
    StepsAreModular(i, len, len);
    ModOfRounds(i + len, len, 1, i);
  }

  // ---------------------------------------------------------------- state

  /** The options that load a list and the view each of them opens. */
  predicate LoadsList(o: MenuOption)
  {
    o == ListDirectories || o == FindLargeFiles || o == FindDevArtifacts
  }

  function ListView(o: MenuOption): AppView
  {
    match o
    case ListDirectories => DirectoryList
    case FindLargeFiles => LargeFiles
    case FindDevArtifacts => DevArtifacts
    case _ => Menu
  }

  /** What list option `o` loads from a working directory that a walk sees
      as `cwd`, sorted largest first with ties in discovery order. */
  ghost function LoadedList(o: MenuOption, cwd: Node): seq<FileItem>
    requires LoadsList(o)
  {
    match o
    case ListDirectories => SortBySize(Listing([CurDir], cwd, true))
    case FindLargeFiles => SortBySize(LargeFilesIn(Walk([CurDir], 0, cwd), LargeFileThreshold))
    case FindDevArtifacts => SortBySize(ArtifactsIn(Walk([CurDir], 0, cwd)))
  }

  /** `items` is what option `o` loads. */
  ghost predicate Loaded(o: MenuOption, cwd: Node, items: seq<FileItem>)
  {
    LoadsList(o) && items == LoadedList(o, cwd)
  }

  /** The observable fields of the application, as one value. */
  datatype AppState = AppState(menuSelected: Option<nat>, view: AppView, items: seq<FileItem>,
                               itemsSelected: Option<nat>, message: Option<string>, showHelp: bool)

  /** What Esc outside the menu leaves behind: back in the menu with no
      items, no item selection and no message; the menu selection and the
      help overlay are kept. */
  function AfterBack(s: AppState): (t: AppState)
    ensures t.view == Menu && t.items == [] && t.itemsSelected == None && t.message == None
    ensures t.menuSelected == s.menuSelected && t.showHelp == s.showHelp
  {
    s.(view := Menu, items := [], itemsSelected := None, message := None)
  }

  /** What Enter in the menu does, from state `s` to state `t`, for a
      working directory that a walk sees as `cwd`: it asks to quit exactly
      on Exit; the three list options load their list and open its view
      with the first entry selected, keeping the menu selection, message and
      help overlay; Docker and Temp only set their message; with no
      selection (or on Exit) nothing changes. */
  ghost predicate MenuActionDone(s: AppState, t: AppState, cwd: Node, exit: bool)
  {
    (exit <==> s.menuSelected == Some(5))
    && if s.menuSelected.None? || s.menuSelected.value >= |MenuOptions| then t == s
       else
         var o := MenuOptions[s.menuSelected.value];
         if o.DockerCleanup? then t == s.(message := Some(DockerMessage))
         else if o.TempCleanup? then t == s.(message := Some(TempMessage))
         else if o.Exit? then t == s
         else t == s.(view := ListView(o), items := t.items, itemsSelected := Some(0)) && Loaded(o, cwd, t.items)
  }

  /** Input events: a key with whether it was a press (releases and repeats
      are ignored), or anything else the terminal reports. */
  datatype KeyCode = Char(c: char) | Esc | Enter | Up | Down | OtherKey
  datatype Event = Key(code: KeyCode, press: bool) | NonKey

  class App {
    var menuSelected: Option<nat>
    var currentView: AppView
    var items: seq<FileItem>
    var itemsSelected: Option<nat>
    var message: Option<string>
    var showHelp: bool

    function State(): AppState
      reads this
    {
      AppState(menuSelected, currentView, items, itemsSelected, message, showHelp)
    }

    /** The menu selection names an option, and a selection in a non-empty
        item list names an item. (A selection of the first entry in an empty
        list is left by a load that found nothing.) */
    ghost predicate Valid()
      reads this
    {
      (menuSelected.Some? ==> menuSelected.value < |MenuOptions|)
      && (items != [] && itemsSelected.Some? ==> itemsSelected.value < |items|)
    }

    /** `App::new`: the menu with its first option selected, no items, no
        message, help hidden. */
    constructor ()
      ensures State() == AppState(Some(0), Menu, [], None, None, false)
      ensures Valid()
    {
      menuSelected := Some(0);
      currentView := Menu;
      items := [];
      itemsSelected := None;
      message := None;
      showHelp := false;
    }

    method NextMenuItem()
      modifies this
      ensures State() == old(State()).(menuSelected := Some(Next(old(menuSelected), |MenuOptions|)))
    {
      var selected := match menuSelected
        case Some(i) => if i >= |MenuOptions| - 1 then 0 else i + 1
        case None => 0;
      menuSelected := Some(selected);
    }

    method PreviousMenuItem()
      modifies this
      ensures State() == old(State()).(menuSelected := Some(Prev(old(menuSelected), |MenuOptions|)))
    {
      var selected := match menuSelected
        case Some(i) => if i == 0 then |MenuOptions| - 1 else i - 1
        case None => 0;
      menuSelected := Some(selected);
    }

    /** Down in a list view; nothing happens while the list is empty. */
    method NextItem()
      modifies this
      ensures old(items) == [] ==> State() == old(State())
      ensures old(items) != [] ==> State() == old(State()).(itemsSelected := Some(Next(old(itemsSelected), |old(items)|)))
    {
      if |items| == 0 {
        return;
      }
      var selected := match itemsSelected
        case Some(i) => if i >= |items| - 1 then 0 else i + 1
        case None => 0;
      itemsSelected := Some(selected);
    }

    /** Up in a list view; nothing happens while the list is empty. */
    method PreviousItem()
      modifies this
      ensures old(items) == [] ==> State() == old(State())
      ensures old(items) != [] ==> State() == old(State()).(itemsSelected := Some(Prev(old(itemsSelected), |old(items)|)))
    {
      if |items| == 0 {
        return;
      }
      var selected := match itemsSelected
        case Some(i) => if i == 0 then |items| - 1 else i - 1
        case None => 0;
      itemsSelected := Some(selected);
    }

    method BackToMenu()
      modifies this
      ensures State() == AfterBack(old(State()))
    {
      currentView := Menu;
      items := [];
      itemsSelected := None;
      message := None;
    }

    method ToggleHelp()
      modifies this
      ensures State() == old(State()).(showHelp := !old(showHelp))
    {
      showHelp := !showHelp;
    }

    /** `execute_menu_action` (Enter in the menu), with `cwd` what a walk of
        the working directory sees. The three list options fill the items
        from the discovery engine and open their view with the first entry
        selected; Docker and Temp only leave a message; Exit asks the caller
        to quit. The status message is left alone by the list options. */
    method ExecuteMenuAction(cwd: Node) returns (exit: bool)
      requires Valid()
      modifies this
      ensures Valid()
      ensures MenuActionDone(old(State()), State(), cwd, exit)
    {
      if menuSelected.None? {
        return false;
      }
      match MenuOptions[menuSelected.value] {
        case ListDirectories =>
          currentView := Loading;
          LoadDirectories(cwd);
          currentView := DirectoryList;
          itemsSelected := Some(0);
        case FindLargeFiles =>
          currentView := Loading;
          LoadLargeFiles(cwd);
          currentView := LargeFiles;
          itemsSelected := Some(0);
        case FindDevArtifacts =>
          currentView := Loading;
          LoadDevArtifacts(cwd);
          currentView := DevArtifacts;
          itemsSelected := Some(0);
        case DockerCleanup =>
          message := Some(DockerMessage);
        case TempCleanup =>
          message := Some(TempMessage);
        case Exit =>
          return true;
      }
      return false;
    }

    /** `load_directories`: the size-ordered inventory of the working
        directory's immediate children. */
    method LoadDirectories(cwd: Node)
      modifies this
      ensures State() == old(State()).(items := items)
      ensures Loaded(ListDirectories, cwd, items)
    {
      var found := AnalyzeDirectory([CurDir], cwd, true);
      assert found == LoadedList(ListDirectories, cwd);
      items := found;
    }

    /** `load_large_files`: every file of at least 100 MiB below the working
        directory, largest first. */
    method LoadLargeFiles(cwd: Node)
      modifies this
      ensures State() == old(State()).(items := items)
      ensures Loaded(FindLargeFiles, cwd, items)
    {
      var found := Discovery.FindLargeFiles([CurDir], cwd, LargeFileThreshold);
      assert found == LoadedList(FindLargeFiles, cwd);
      items := found;
    }

    /** `load_dev_artifacts`: every development artifact below the working
        directory, largest first. */
    method LoadDevArtifacts(cwd: Node)
      modifies this
      ensures State() == old(State()).(items := items)
      ensures Loaded(FindDevArtifacts, cwd, items)
    {
      var found := FindArtifacts([CurDir], cwd);
      assert found == LoadedList(FindDevArtifacts, cwd);
      items := found;
    }

    /** One pass of the event loop of `run_app`. `q` quits from anywhere and
        `h` toggles help; Esc quits from the menu and otherwise goes back to
        it; Enter acts only in the menu; Up and Down move the menu selection
        in the menu and the item selection elsewhere. Everything else,
        releases included, is ignored. */
    method HandleEvent(ev: Event, cwd: Node) returns (quit: bool)
      requires Valid()
      modifies this
      ensures Valid()
      ensures !IsPress(ev) ==> !quit && State() == old(State())
      ensures ev == Key(Char('q'), true) ==> quit && State() == old(State())
      ensures ev == Key(Char('h'), true) ==> !quit && State() == old(State()).(showHelp := !old(showHelp))
      ensures ev == Key(Esc, true) ==>
        quit == (old(currentView) == Menu)
        && State() == if quit then old(State()) else AfterBack(old(State()))
      ensures ev == Key(Enter, true) && old(currentView) != Menu ==> !quit && State() == old(State())
      ensures ev == Key(Enter, true) && old(currentView) == Menu ==> MenuActionDone(old(State()), State(), cwd, quit)
      ensures ev == Key(Up, true) && old(currentView) == Menu ==>
        !quit && State() == old(State()).(menuSelected := Some(Prev(old(menuSelected), |MenuOptions|)))
      ensures ev == Key(Down, true) && old(currentView) == Menu ==>
        !quit && State() == old(State()).(menuSelected := Some(Next(old(menuSelected), |MenuOptions|)))
      ensures ev == Key(Up, true) && old(currentView) != Menu ==>
        !quit && State() == old(State()).(itemsSelected := if old(items) == [] then old(itemsSelected)
                                                           else Some(Prev(old(itemsSelected), |old(items)|)))
      ensures ev == Key(Down, true) && old(currentView) != Menu ==>
        !quit && State() == old(State()).(itemsSelected := if old(items) == [] then old(itemsSelected)
                                                             else Some(Next(old(itemsSelected), |old(items)|)))
      ensures IsPress(ev) && !(ev.code in {Char('q'), Char('h'), Esc, Enter, Up, Down}) ==>
        !quit && State() == old(State())
    {
      quit := false;
      if !IsPress(ev) {
        return;
      }
      match ev.code {
        case Char(c) =>
          if c == 'q' {
            quit := true;
          } else if c == 'h' {
            ToggleHelp();
          }
        case Esc =>
          if currentView == Menu {
            quit := true;
          } else {
            BackToMenu();
          }
        case Enter =>
          if currentView == Menu {
            quit := ExecuteMenuAction(cwd);
          }
        case Up =>
          if currentView == Menu {
            PreviousMenuItem();
          } else {
            PreviousItem();
          }
        case Down =>
          if currentView == Menu {
            NextMenuItem();
          } else {
            NextItem();
          }
        case OtherKey =>
      }
    }
  }

  predicate IsPress(ev: Event)
  {
    ev.Key? && ev.press
  }

  /** `run_app` over the finite event stream `events`: a fresh application
      handles the events in order until one of them quits. `stoppedAt` is the
      index of that event, or none when the stream ran out first. Only a
      press of `q`, Esc or Enter can end the loop, a `q` always does, and Esc
      as the first event quits from the start-up menu. */
  method RunApp(events: seq<Event>, cwd: Node) returns (stoppedAt: Option<nat>)
    ensures stoppedAt.Some? ==>
      (stoppedAt.value < |events| && events[stoppedAt.value] in {Key(Char('q'), true), Key(Esc, true), Key(Enter, true)})
    ensures forall j :: 0 <= j < |events| && events[j] == Key(Char('q'), true) ==>
      stoppedAt.Some? && stoppedAt.value <= j
    ensures |events| > 0 && events[0] == Key(Esc, true) ==> stoppedAt == Some(0)
  {
    var app := new App();
    var i := 0;
    while i < |events|
      invariant 0 <= i <= |events|
      invariant app.Valid()
      invariant i == 0 ==> app.currentView == Menu
      invariant i > 0 ==> events[0] != Key(Esc, true)
      invariant forall j :: 0 <= j < i ==> events[j] != Key(Char('q'), true)
    {
      var quit := app.HandleEvent(events[i], cwd);
      if quit {
        return Some(i);
      }
      i := i + 1;
    }
    return None;
  }

  /** From start-up, Up wraps the selection from the first option to Exit,
      and Enter then quits. */
  method UpThenEnterQuits(cwd: Node) returns (quit: bool)
    ensures quit
  {
    var app := new App();
    var q1 := app.HandleEvent(Key(Up, true), cwd);
    assert app.menuSelected == Some(5);
    quit := app.HandleEvent(Key(Enter, true), cwd);
  }

  /** From start-up, Enter on the first option opens the directory list with
      its first entry selected, and Esc comes back to the menu with the
      selection still on the first option. */
  method ListThenBack(cwd: Node) returns (view: AppView, sel: Option<nat>, items: seq<FileItem>)
    ensures view == Menu && sel == Some(0) && items == []
  {
    var app := new App();
    var q1 := app.HandleEvent(Key(Enter, true), cwd);
    assert app.currentView == DirectoryList && !q1;
    var q2 := app.HandleEvent(Key(Esc, true), cwd);
    view, sel, items := app.currentView, app.menuSelected, app.items;
  }
}
