/** The virtual navigator (VirtualNavigator in Mod.cs) as a value: the process-wide
    navigation state and one function per operation giving the state afterwards.
    The class in Navigator.dfy performs the same operations in place and is proved to
    agree with these functions; the lemmas here state what the operations promise. */
module Navigation {
  import opened Speech
  import Resolver

  datatype GameState = None | MainMenu | SubMenu | NewGame | Loading | InGame | Paused

  /** What a menu entry does when executed (the closures of Mod.cs, as tags). */
  datatype Action =
    | Click(button: string)          // ClickButton(button)
    | SubMenuClick(button: string)   // CurrentState = SubMenu, then ClickButton(button)
    | Back                           // GoBack()

  datatype Item = Item(name: string, phrase: string, action: Action)

  /** The navigator's fields, plus the transcript of the speech sink and the positions
      (in host enumeration order) of the elements clicked so far. */
  datatype Nav = Nav(
    state: GameState,
    menu: seq<Item>,
    index: int,
    active: bool,
    menuName: string,
    spoken: seq<string>,
    clicks: seq<nat>)

  /** The field initialisers of VirtualNavigator. */
  const INITIAL: Nav := Nav(None, [], 0, false, "", [], [])

  function MainMenuItems(): seq<Item>
  {
    [ Item("Resume Game", "Resuming Game", Click("ResumeGame")),
      Item("New Game", "Starting New Game", Click("NewGame")),
      Item("Load Game", "Opening Load Game", Click("LoadGame")),
      Item("Colony Summaries", "Opening Colony Summaries", Click("ColonySummaries")),
      Item("Supply Closet", "Opening Supply Closet", Click("SupplyCloset")),
      Item("Mods", "Opening Mods", SubMenuClick("Mods")),
      Item("Options", "Opening Options", SubMenuClick("Options")),
      Item("Quit to Desktop", "Quitting Game", Click("QuitToDesktop")) ]
  }

  function NewGameItems(): seq<Item>
  {
    [ Item("Survival", "Selecting Survival", Click("Survival")),
      Item("No Sweat", "Selecting No Sweat", Click("NoSweat")),
      Item("Custom Game", "Selecting Custom Game", Click("CustomGame")),
      Item("Back", "Going Back", Back) ]
  }

  function Names(items: seq<Item>): (r: seq<string>)
    ensures |r| == |items| && forall i :: 0 <= i < |items| ==> r[i] == items[i].name
  {
    seq(|items|, i requires 0 <= i < |items| => items[i].name)
  }

  /** The invariant every operation keeps: an active menu is non-empty, a non-empty
      menu has the cursor on one of its entries, no entry has an empty name or phrase,
      and nothing empty was ever spoken. */
  predicate Inv(n: Nav)
  {
    && (n.active ==> |n.menu| > 0)
    && (|n.menu| > 0 ==> 0 <= n.index < |n.menu|)
    && (forall i :: 0 <= i < |n.menu| ==> n.menu[i].name != "" && n.menu[i].phrase != "")
    && NoneEmpty(n.spoken)
  }

  /** The field initialisers satisfy the invariant. */
  lemma InitialInv()
    ensures Inv(INITIAL)
  {
  }

  /** C#'s `%` on int: the remainder takes the sign of the dividend. */
  function CsRem(a: int, b: int): (r: int)
    requires b > 0
    ensures a >= 0 ==> 0 <= r < b
    ensures a < 0 ==> -b < r <= 0
    ensures (a - r) % b == 0
  {
    if a >= 0 then
      ModUnique(a - a % b, b, a / b, 0);
      a % b
    else
      ModUnique(a + (-a) % b, b, -((-a) / b), 0);
      -((-a) % b)
  }

  lemma MulZero(x: int, m: int)
    requires m > 0 && -m < x * m < m
    ensures x == 0
  {
  }

  /** Euclidean remainder is determined by quotient and remainder. */
  lemma ModUnique(a: int, m: int, q: int, r: int)
    requires m > 0 && a == q * m + r && 0 <= r < m
    ensures a % m == r
  {
    var q0, r0 := a / m, a % m;
    assert a == q0 * m + r0;
    assert (q - q0) * m == r0 - r;
    MulZero(q - q0, m);
  }

  /** Speak on the navigator's transcript. */
  function Say(n: Nav, text: string): Nav
  {
    n.(spoken := Speak(n.spoken, text))
  }

  /** Rebuilds the menu, puts the cursor on its first entry, activates it and speaks
      `prefix` followed by the first entry's name (the common body of
      ActivateMainMenu and ActivateNewGameMenu). */
  function Activate(n: Nav, s: GameState, title: string, prefix: string, items: seq<Item>): Nav
    requires |items| > 0
  {
    var m := n.(state := s, menuName := title, menu := items, index := 0, active := true);
    Say(m, prefix + m.menu[m.index].name)
  }

  function ActivateMainMenu(n: Nav): Nav
  {
    Activate(n, MainMenu, "Main Menu", "Main Menu. ", MainMenuItems())
  }

  function ActivateNewGameMenu(n: Nav): Nav
  {
    Activate(n, NewGame, "New Game", "New Game. ", NewGameItems())
  }

  function AnnounceCurrentItem(n: Nav): Nav
  {
    if 0 <= n.index < |n.menu| then Say(n, n.menu[n.index].name) else n
  }

  function NavigateDown(n: Nav): Nav
  {
    if !n.active || |n.menu| == 0 then n
    else AnnounceCurrentItem(n.(index := CsRem(n.index + 1, |n.menu|)))
  }

  function NavigateUp(n: Nav): Nav
  {
    if !n.active || |n.menu| == 0 then n
    else AnnounceCurrentItem(n.(index := CsRem(n.index - 1 + |n.menu|, |n.menu|)))
  }

  /** TryClickButton / ClickButton: click the element `x` resolves to, if any. */
  function TryClick(n: Nav, host: seq<Resolver.Element>, x: string): Nav
  {
    match Resolver.Resolve(host, x)
    case Some(i) => n.(clicks := n.clicks + [i])
    case None => n
  }

  /** Clicks the element of the first back-like name that resolves, if any, and says
      "Going back" either way. */
  function GoBack(n: Nav, host: seq<Resolver.Element>): Nav
  {
    var m := match Resolver.FirstResolving(host, Resolver.BACK_BUTTONS)
      case Some(p) => n.(clicks := n.clicks + [p.1])
      case None => n;
    Say(m, "Going back")
  }

  function RunAction(n: Nav, a: Action, host: seq<Resolver.Element>): Nav
  {
    match a
    case Click(b) => TryClick(n, host, b)
    case SubMenuClick(b) => TryClick(n.(state := SubMenu), host, b)
    case Back => GoBack(n, host)
  }

  /** Speaks the current entry's activation phrase, deactivates the menu and only then
      runs the entry's action, which therefore sees the menu inactive. */
  function ExecuteCurrent(n: Nav, host: seq<Resolver.Element>): Nav
  {
    if !n.active || n.index < 0 || n.index >= |n.menu| then n
    else
      var item := n.menu[n.index];
      RunAction(Say(n, item.phrase).(active := false), item.action, host)
  }

  function Deactivate(n: Nav): Nav
  {
    n.(active := false, menu := [])
  }

  function SetState(n: Nav, s: GameState): Nav
  {
    n.(state := s)
  }

  /** What GameSpawnPatch.Postfix does once a colony has loaded. */
  function ColonyLoaded(n: Nav): Nav
  {
    Say(Deactivate(SetState(n, InGame)), "Colony Loaded")
  }

  // ---------------------------------------------------------------------------
  // Activation

  /** Activation replaces the menu, puts the cursor on its first entry, activates it
      and says the title with the first entry's name; it clicks nothing and keeps
      whatever was said before. */
  lemma ActivateEffect(n: Nav, s: GameState, title: string, prefix: string, items: seq<Item>)
    requires |items| > 0 && prefix != ""
    ensures var r := Activate(n, s, title, prefix, items);
      && r.state == s && r.menuName == title && r.menu == items
      && r.index == 0 && r.active
      && r.spoken == n.spoken + [prefix + items[0].name]
      && r.clicks == n.clicks
  {
  }

  lemma ActivateMainMenuEffect(n: Nav)
    ensures var r := ActivateMainMenu(n);
      && r.state == MainMenu && r.menuName == "Main Menu"
      && Names(r.menu) == ["Resume Game", "New Game", "Load Game", "Colony Summaries",
                           "Supply Closet", "Mods", "Options", "Quit to Desktop"]
      && r.index == 0 && r.active
      && r.spoken == n.spoken + ["Main Menu. Resume Game"]
      && r.clicks == n.clicks
  {
    var items := MainMenuItems();
    ActivateEffect(n, MainMenu, "Main Menu", "Main Menu. ", items);
    assert "Main Menu. " + items[0].name == "Main Menu. Resume Game";
    MainMenuNames();
  }

  /** The entry names of the main menu, in order. */
  lemma MainMenuNames()
    ensures Names(MainMenuItems()) == ["Resume Game", "New Game", "Load Game",
                                       "Colony Summaries", "Supply Closet", "Mods",
                                       "Options", "Quit to Desktop"]
  {
  }

  lemma ActivateNewGameMenuEffect(n: Nav)
    ensures var r := ActivateNewGameMenu(n);
      && r.state == NewGame && r.menuName == "New Game"
      && Names(r.menu) == ["Survival", "No Sweat", "Custom Game", "Back"]
      && r.index == 0 && r.active
      && r.spoken == n.spoken + ["New Game. Survival"]
      && r.clicks == n.clicks
  {
    var items := NewGameItems();
    ActivateEffect(n, NewGame, "New Game", "New Game. ", items);
    assert "New Game. " + items[0].name == "New Game. Survival";
  }

  lemma ActivateKeepsInv(n: Nav)
    requires Inv(n)
    ensures Inv(ActivateMainMenu(n)) && Inv(ActivateNewGameMenu(n))
  {
  }

  // ---------------------------------------------------------------------------
  // Cursor movement

  /** On an active menu Down moves the cursor one entry on, wrapping from the last to
      the first, and says the new entry's name; nothing else changes. */
  lemma NavigateDownStep(n: Nav)
    requires Inv(n) && n.active
    ensures var r := NavigateDown(n);
      && r.index == (n.index + 1) % |n.menu| && 0 <= r.index < |n.menu|
      && r.spoken == n.spoken + [n.menu[r.index].name]
      && r == n.(index := r.index, spoken := r.spoken)
      && Inv(r)
  {
  }

  /** On an active menu Up moves the cursor one entry back, wrapping from the first to
      the last, and says the new entry's name; nothing else changes. */
  lemma NavigateUpStep(n: Nav)
    requires Inv(n) && n.active
    ensures var r := NavigateUp(n);
      && r.index == (n.index - 1 + |n.menu|) % |n.menu| && 0 <= r.index < |n.menu|
      && r.spoken == n.spoken + [n.menu[r.index].name]
      && r == n.(index := r.index, spoken := r.spoken)
      && Inv(r)
  {
  }

  /** Both moves do nothing at all on an inactive or empty menu. */
  lemma NavigateInactiveNoOp(n: Nav)
    requires !n.active || |n.menu| == 0
    ensures NavigateDown(n) == n && NavigateUp(n) == n
  {
  }

  lemma NavigateKeepsInv(n: Nav)
    requires Inv(n)
    ensures Inv(NavigateDown(n)) && Inv(NavigateUp(n))
  {
  }

  /** Up undoes Down as far as the cursor is concerned. */
  lemma UpUndoesDown(n: Nav)
    requires Inv(n) && n.active
    ensures NavigateUp(NavigateDown(n)).(spoken := n.spoken) == n
  {
    var i, m := n.index, |n.menu|;
    NavigateDownStep(n);
    NavigateUpStep(NavigateDown(n));
    if i + 1 < m {
      ModUnique(i + 1, m, 0, i + 1);
      ModUnique(i + m, m, 1, i);
    } else {
      ModUnique(i + 1, m, 1, 0);
      ModUnique(m - 1, m, 0, m - 1);
    }
  }

  /** Down undoes Up as far as the cursor is concerned. */
  lemma DownUndoesUp(n: Nav)
    requires Inv(n) && n.active
    ensures NavigateDown(NavigateUp(n)).(spoken := n.spoken) == n
  {
    var i, m := n.index, |n.menu|;
    NavigateUpStep(n);
    NavigateDownStep(NavigateUp(n));
    if i >= 1 {
      ModUnique(i - 1 + m, m, 1, i - 1);
      ModUnique(i, m, 0, i);
    } else {
      ModUnique(m - 1, m, 0, m - 1);
      ModUnique(m, m, 1, 0);
    }
  }

  function DownTimes(n: Nav, k: nat): Nav
  {
    if k == 0 then n else NavigateDown(DownTimes(n, k - 1))
  }

  function UpTimes(n: Nav, k: nat): Nav
  {
    if k == 0 then n else NavigateUp(UpTimes(n, k - 1))
  }

  lemma ModSucc(a: int, b: int, m: int)
    requires m > 0 && b == a + 1
    ensures (a % m + 1) % m == b % m
  {
    var q, r := a / m, a % m;
    if r + 1 < m {
      ModUnique(r + 1, m, 0, r + 1);
      ModUnique(b, m, q, r + 1);
    } else {
      ModUnique(r + 1, m, 1, 0);
      ModUnique(b, m, q + 1, 0);
    }
  }

  lemma ModPred(a: int, b: int, m: int)
    requires m > 0 && b == a - 1
    ensures (a % m - 1 + m) % m == b % m
  {
    var q, r := a / m, a % m;
    if r >= 1 {
      ModUnique(r - 1 + m, m, 1, r - 1);
      ModUnique(b, m, q, r - 1);
    } else {
      ModUnique(r - 1 + m, m, 0, m - 1);
      ModUnique(b, m, q - 1, m - 1);
    }
  }

  /** One more Down from a state that differs from `n` only in cursor and transcript,
      with the cursor at `a` mod n. */
  lemma DownFrom(n: Nav, p: Nav, a: int, b: int)
    requires Inv(n) && n.active && b == a + 1
    requires Inv(p) && p == n.(index := p.index, spoken := p.spoken)
    requires p.index == a % |n.menu|
    ensures var r := NavigateDown(p);
      && r.index == b % |n.menu|
      && r == n.(index := r.index, spoken := r.spoken)
      && Inv(r)
  {
    NavigateDownStep(p);
    ModSucc(a, b, |n.menu|);
  }

  /** One more Up from a state that differs from `n` only in cursor and transcript,
      with the cursor at `a` mod n. */
  lemma UpFrom(n: Nav, p: Nav, a: int, b: int)
    requires Inv(n) && n.active && b == a - 1
    requires Inv(p) && p == n.(index := p.index, spoken := p.spoken)
    requires p.index == a % |n.menu|
    ensures var r := NavigateUp(p);
      && r.index == b % |n.menu|
      && r == n.(index := r.index, spoken := r.spoken)
      && Inv(r)
  {
    NavigateUpStep(p);
    ModPred(a, b, |n.menu|);
  }

  /** k Downs put the cursor at (start + k) mod n and change nothing but the cursor
      and the transcript. */
  lemma {:induction false} DownTimesIndex(n: Nav, k: nat)
    requires Inv(n) && n.active
    ensures var r := DownTimes(n, k);
      && r.index == (n.index + k) % |n.menu|
      && r == n.(index := r.index, spoken := r.spoken)
      && Inv(r)
  {
    if k == 0 {
      ModUnique(n.index, |n.menu|, 0, n.index);
    } else {
      DownTimesIndex(n, k - 1);
      DownFrom(n, DownTimes(n, k - 1), n.index + (k - 1), n.index + k);
    }
  }

  /** k Ups put the cursor at (start - k) mod n. */
  lemma {:induction false} UpTimesIndex(n: Nav, k: nat)
    requires Inv(n) && n.active
    ensures var r := UpTimes(n, k);
      && r.index == (n.index - k) % |n.menu|
      && r == n.(index := r.index, spoken := r.spoken)
      && Inv(r)
  {
    if k == 0 {
      ModUnique(n.index, |n.menu|, 0, n.index);
    } else {
      UpTimesIndex(n, k - 1);
      UpFrom(n, UpTimes(n, k - 1), n.index - (k - 1), n.index - k);
    }
  }

  /** As many Downs as the menu has entries bring the cursor back. */
  lemma FullCycleDown(n: Nav)
    requires Inv(n) && n.active
    ensures DownTimes(n, |n.menu|).index == n.index
  {
    var m := |n.menu|;
    DownTimesIndex(n, m);
    assert n.index + m == 1 * m + n.index;
    ModUnique(n.index + m, m, 1, n.index);
  }

  /** As many Ups as the menu has entries bring the cursor back. */
  lemma FullCycleUp(n: Nav)
    requires Inv(n) && n.active
    ensures UpTimes(n, |n.menu|).index == n.index
  {
    var m := |n.menu|;
    UpTimesIndex(n, m);
    assert n.index - m == -1 * m + n.index;
    ModUnique(n.index - m, m, -1, n.index);
  }

  // ---------------------------------------------------------------------------
  // Execution, clicking, going back

  /** ExecuteCurrent does nothing when the menu is inactive or the cursor is off it. */
  lemma ExecuteCurrentNoOp(n: Nav, host: seq<Resolver.Element>)
    requires !n.active || n.index < 0 || n.index >= |n.menu|
    ensures ExecuteCurrent(n, host) == n
  {
  }

  /** On an active menu, ExecuteCurrent first says the entry's phrase, leaves the menu
      inactive, keeps the menu and the cursor, and then has exactly the effect of the
      entry's action run on that inactive state. */
  lemma ExecuteCurrentEffect(n: Nav, host: seq<Resolver.Element>)
    requires Inv(n) && n.active
    ensures var item := n.menu[n.index];
            var r := ExecuteCurrent(n, host);
      && r.spoken[..|n.spoken| + 1] == n.spoken + [item.phrase]
      && (!item.action.Back? ==> r.spoken == n.spoken + [item.phrase])
      && !r.active && r.menu == n.menu && r.index == n.index && r.menuName == n.menuName
      && r.state == (if item.action.SubMenuClick? then SubMenu else n.state)
      && |n.clicks| <= |r.clicks| <= |n.clicks| + 1 && r.clicks[..|n.clicks|] == n.clicks
      && r == RunAction(n.(spoken := n.spoken + [item.phrase], active := false), item.action, host)
  {
    var item := n.menu[n.index];
    var m := Say(n, item.phrase).(active := false);
    assert m.spoken == n.spoken + [item.phrase];
    RunActionEffect(m, item.action, host);
  }

  /** An action keeps the menu, cursor and activity, clicks at most one element and
      only ever adds to the transcript. */
  lemma RunActionEffect(n: Nav, a: Action, host: seq<Resolver.Element>)
    ensures var r := RunAction(n, a, host);
      && r.menu == n.menu && r.index == n.index && r.active == n.active
      && r.menuName == n.menuName
      && r.state == (if a.SubMenuClick? then SubMenu else n.state)
      && |n.spoken| <= |r.spoken| && r.spoken[..|n.spoken|] == n.spoken
      && (!a.Back? ==> r.spoken == n.spoken)
      && (NoneEmpty(n.spoken) ==> NoneEmpty(r.spoken))
      && |n.clicks| <= |r.clicks| <= |n.clicks| + 1 && r.clicks[..|n.clicks|] == n.clicks
  {
    match a
    case Click(b) =>
      TryClickFrame(n, host, b);
    case SubMenuClick(b) =>
      TryClickFrame(n.(state := SubMenu), host, b);
    case Back =>
      GoBackEffect(n, host);
  }

  /** TryClick changes nothing but the click log, and adds at most one click to it. */
  lemma TryClickFrame(n: Nav, host: seq<Resolver.Element>, x: string)
    ensures var r := TryClick(n, host, x);
      && r.(clicks := n.clicks) == n
      && |n.clicks| <= |r.clicks| <= |n.clicks| + 1 && r.clicks[..|n.clicks|] == n.clicks
  {
  }

  lemma ExecuteKeepsInv(n: Nav, host: seq<Resolver.Element>)
    requires Inv(n)
    ensures Inv(ExecuteCurrent(n, host))
  {
    if n.active && 0 <= n.index < |n.menu| {
      var item := n.menu[n.index];
      RunActionEffect(Say(n, item.phrase).(active := false), item.action, host);
    }
  }

  /** A click happens iff some active element's name contains the name asked for;
      then the first such element in enumeration order is clicked, and nothing else
      changes. On a miss nothing changes at all. */
  lemma TryClickEffect(n: Nav, host: seq<Resolver.Element>, x: string)
    ensures var r := TryClick(n, host, x);
      && r.(clicks := n.clicks) == n
      && ((exists i :: 0 <= i < |host| && host[i].active && Resolver.Contains(host[i].name, x))
          <==> |r.clicks| == |n.clicks| + 1)
      && (|r.clicks| == |n.clicks| + 1 ==>
            && r.clicks == n.clicks + [r.clicks[|n.clicks|]]
            && var i := r.clicks[|n.clicks|];
               i < |host| && host[i].active && Resolver.Contains(host[i].name, x)
               && forall j :: 0 <= j < i ==> !(host[j].active && Resolver.Contains(host[j].name, x)))
      && (|r.clicks| != |n.clicks| + 1 ==> r == n)
  {
    Resolver.ResolveIff(host, x);
    match Resolver.Resolve(host, x)
    case Some(i) =>
      Resolver.MatchesNameIff(host[i].name, x);
      forall j | 0 <= j < i
        ensures !(host[j].active && Resolver.Contains(host[j].name, x))
      {
        Resolver.MatchesNameIff(host[j].name, x);
      }
    case None =>
  }

  /** GoBack says "Going back" exactly once and clicks at most one element: the one the
      highest-priority back-like name resolves to, when some name resolves. */
  lemma GoBackEffect(n: Nav, host: seq<Resolver.Element>)
    ensures var r := GoBack(n, host);
      && r.spoken == n.spoken + ["Going back"]
      && r.(spoken := n.spoken, clicks := n.clicks) == n
      && match Resolver.FirstResolving(host, Resolver.BACK_BUTTONS)
         case None =>
           && r.clicks == n.clicks
           && forall k :: 0 <= k < |Resolver.BACK_BUTTONS| ==>
                Resolver.Resolve(host, Resolver.BACK_BUTTONS[k]).None?
         case Some(p) =>
           && r.clicks == n.clicks + [p.1]
           && Resolver.Resolve(host, Resolver.BACK_BUTTONS[p.0]) == Resolver.Some(p.1)
           && forall k :: 0 <= k < p.0 ==>
                Resolver.Resolve(host, Resolver.BACK_BUTTONS[k]).None?
  {
  }

  // ---------------------------------------------------------------------------
  // Deactivation and state changes

  lemma DeactivateEffect(n: Nav)
    ensures var r := Deactivate(n);
      && !r.active && r.menu == []
      && r == n.(active := false, menu := [])
      && Deactivate(r) == r
      && (Inv(n) ==> Inv(r))
  {
  }

  /** SetState changes the state and nothing else; in particular it leaves an active
      menu active, whatever state it sets. */
  lemma SetStateOnlyState(n: Nav, s: GameState)
    ensures var r := SetState(n, s);
      && r.state == s && r.(state := n.state) == n && r.active == n.active
      && (Inv(n) ==> Inv(r))
  {
  }

  lemma ColonyLoadedEffect(n: Nav)
    ensures var r := ColonyLoaded(n);
      && r.state == InGame && !r.active && r.menu == []
      && r.spoken == n.spoken + ["Colony Loaded"]
      && r.index == n.index && r.clicks == n.clicks
      && (Inv(n) ==> Inv(r))
  {
  }

  // ---------------------------------------------------------------------------
  // Scenarios

  /** Two Downs from the top of a menu of at least three entries. */
  lemma TwoDownsFromTop(a: Nav)
    requires Inv(a) && a.active && a.index == 0 && |a.menu| >= 3
    ensures var b := NavigateDown(NavigateDown(a));
      && b.index == 2 && b.menu == a.menu && b.active && b.state == a.state
      && b.spoken == a.spoken + [a.menu[1].name, a.menu[2].name]
      && Inv(b)
  {
    ModUnique(1, |a.menu|, 0, 1);
    ModUnique(2, |a.menu|, 0, 2);
    NavigateDownStep(a);
    NavigateDownStep(NavigateDown(a));
  }

  /** From any state: main menu, Down twice, and the cursor is on "Load Game"; Enter
      then says "Opening Load Game" and leaves the menu inactive. */
  lemma MainMenuScenario(n: Nav, host: seq<Resolver.Element>)
    ensures var a := ActivateMainMenu(n);
            var b := NavigateDown(NavigateDown(a));
            var c := ExecuteCurrent(b, host);
      && |b.menu| == 8 && b.index == 2 && b.menu[2].name == "Load Game"
      && b.spoken == n.spoken + ["Main Menu. Resume Game", "New Game", "Load Game"]
      && c.spoken == b.spoken + ["Opening Load Game"]
      && !c.active && c.state == MainMenu
  {
    var a := ActivateMainMenu(n);
    ActivateMainMenuEffect(n);
    ModUnique(1, 8, 0, 1);
    ModUnique(2, 8, 0, 2);
    assert NavigateDown(a).index == 1;
    var b := NavigateDown(NavigateDown(a));
    assert b.index == 2;
    assert b.menu[2] == Item("Load Game", "Opening Load Game", Click("LoadGame"));
    TryClickFrame(b.(spoken := b.spoken + ["Opening Load Game"], active := false), host, "LoadGame");
  }

  /** With only a "CancelButton" on screen, GoBack passes over "CloseButton", "Close",
      "BackButton" and "Back" and clicks it. */
  lemma GoBackScenario(n: Nav, host: seq<Resolver.Element>)
    requires host == [Resolver.Element("CancelButton", true)]
    ensures Resolver.FirstResolving(host, Resolver.BACK_BUTTONS) == Resolver.Some((4, 0))
    ensures GoBack(n, host).clicks == n.clicks + [0]
  {
    var e := host[0];
    CancelButtonMisses(e);
    var names := Resolver.BACK_BUTTONS;
    assert Resolver.StartsWith(e.name, names[4]);
    Resolver.HitByPrefix(e, names[4]);
    Resolver.FirstResolvingAt(host, names, 4);
  }

  /** "CancelButton" contains none of the first four back-like names. */
  lemma CancelButtonMisses(e: Resolver.Element)
    requires e.name == "CancelButton"
    ensures forall j :: 0 <= j < 4 ==> Resolver.Resolve([e], Resolver.BACK_BUTTONS[j]).None?
  {
    var names := Resolver.BACK_BUTTONS;
    Resolver.MissByChar(e, names[0], 's');
    Resolver.MissByChar(e, names[1], 's');
    Resolver.MissByChar(e, names[2], 'k');
    Resolver.MissByChar(e, names[3], 'k');
  }

  /** "NewGame" resolves to "NewGameButtonWidget" and passes over an earlier
      "LoadGameButton". */
  lemma ResolveScenario(host: seq<Resolver.Element>, x: string)
    requires x == "NewGame"
    requires host == [Resolver.Element("LoadGameButton", true),
                      Resolver.Element("NewGameButtonWidget", true)]
    ensures Resolver.Resolve(host, x) == Resolver.Some(1)
  {
    var a, b := host[0], host[1];
    assert !Resolver.Hit(a, x) by {
      Resolver.NotContainedByMissingChar(a.name, x, 'N');
      Resolver.MatchesNameIff(a.name, x);
    }
    assert Resolver.Hit(b, x) by {
      assert Resolver.StartsWith(b.name, x);
      Resolver.MatchesNameIff(b.name, x);
    }
    assert host == [a, b];
    Resolver.ResolvePair(a, b, x);
  }
}
