/** VirtualNavigator of Mod.cs as an object whose methods update its fields in place.
    Every method is proved to leave the object in the state the matching function of
    module Navigation computes from the state before, so the lemmas proved there hold
    of the object too. */
module Navigator {
  import opened Speech
  import Resolver
  import opened Navigation

  class VirtualNavigator {
    var state: GameState
    var menu: seq<Item>
    var index: int
    var active: bool
    var menuName: string
    /** What the speech sink has been handed, oldest first. */
    var spoken: seq<string>
    /** The elements clicked, as positions in the host's enumeration at the time. */
    var clicks: seq<nat>

    function Snapshot(): Nav
      reads this
    {
      Nav(state, menu, index, active, menuName, spoken, clicks)
    }

    constructor ()
      ensures Snapshot() == INITIAL
    {
      state, menu, index, active, menuName := None, [], 0, false, "";
      spoken, clicks := [], [];
    }

    /** NVDA.Speak: empty text is dropped, anything else reaches the narrator. */
    method Speak(text: string)
      modifies this`spoken
      ensures spoken == Speech.Speak(old(spoken), text)
    {
      if text == "" {
        return;
      }
      spoken := spoken + [text];
    }

    method ActivateMainMenu()
      modifies this
      ensures Snapshot() == Navigation.ActivateMainMenu(old(Snapshot()))
    {
      state := MainMenu;
      menuName := "Main Menu";
      menu := [];
      menu := menu + [Item("Resume Game", "Resuming Game", Click("ResumeGame"))];
      menu := menu + [Item("New Game", "Starting New Game", Click("NewGame"))];
      menu := menu + [Item("Load Game", "Opening Load Game", Click("LoadGame"))];
      menu := menu + [Item("Colony Summaries", "Opening Colony Summaries", Click("ColonySummaries"))];
      menu := menu + [Item("Supply Closet", "Opening Supply Closet", Click("SupplyCloset"))];
      menu := menu + [Item("Mods", "Opening Mods", SubMenuClick("Mods"))];
      menu := menu + [Item("Options", "Opening Options", SubMenuClick("Options"))];
      menu := menu + [Item("Quit to Desktop", "Quitting Game", Click("QuitToDesktop"))];
      index := 0;
      active := true;
      assert menu == MainMenuItems();
      Speak("Main Menu. " + menu[index].name);
    }

    method ActivateNewGameMenu()
      modifies this
      ensures Snapshot() == Navigation.ActivateNewGameMenu(old(Snapshot()))
    {
      state := NewGame;
      menuName := "New Game";
      menu := [];
      menu := menu + [Item("Survival", "Selecting Survival", Click("Survival"))];
      menu := menu + [Item("No Sweat", "Selecting No Sweat", Click("NoSweat"))];
      menu := menu + [Item("Custom Game", "Selecting Custom Game", Click("CustomGame"))];
      menu := menu + [Item("Back", "Going Back", Back)];
      index := 0;
      active := true;
      assert menu == NewGameItems();
      Speak("New Game. " + menu[index].name);
    }

    method NavigateDown()
      modifies this
      ensures Snapshot() == Navigation.NavigateDown(old(Snapshot()))
    {
      if !active || |menu| == 0 {
        return;
      }
      index := CsRem(index + 1, |menu|);
      AnnounceCurrentItem();
    }

    method NavigateUp()
      modifies this
      ensures Snapshot() == Navigation.NavigateUp(old(Snapshot()))
    {
      if !active || |menu| == 0 {
        return;
      }
      index := CsRem(index - 1 + |menu|, |menu|);
      AnnounceCurrentItem();
    }

    method ExecuteCurrent(host: seq<Resolver.Element>)
      modifies this
      ensures Snapshot() == Navigation.ExecuteCurrent(old(Snapshot()), host)
    {
      if !active || index < 0 || index >= |menu| {
        return;
      }
      var item := menu[index];
      Speak(item.phrase);
      active := false;
      RunAction(item.action, host);
    }

    /** Runs an entry's action. It is only ever run with the menu already inactive. */
    method RunAction(a: Action, host: seq<Resolver.Element>)
      requires !active
      modifies this
      ensures Snapshot() == Navigation.RunAction(old(Snapshot()), a, host)
      ensures !active
    {
      match a
      case Click(b) =>
        ClickButton(host, b);
      case SubMenuClick(b) =>
        state := SubMenu;
        ClickButton(host, b);
      case Back =>
        GoBack(host);
    }

    method AnnounceCurrentItem()
      modifies this`spoken
      ensures Snapshot() == Navigation.AnnounceCurrentItem(old(Snapshot()))
    {
      if 0 <= index < |menu| {
        Speak(menu[index].name);
      }
    }

    /** Tries the back-like names in priority order and stops at the first that
        clicks something; says "Going back" whether or not one did. */
    method GoBack(host: seq<Resolver.Element>)
      modifies this`clicks, this`spoken
      ensures Snapshot() == Navigation.GoBack(old(Snapshot()), host)
    {
      var names := Resolver.BACK_BUTTONS;
      var k := 0;
      while k < |names|
        invariant 0 <= k <= |names|
        invariant Snapshot() == old(Snapshot())
        invariant forall j :: 0 <= j < k ==> Resolver.Resolve(host, names[j]).None?
      {
        var clicked := TryClickButton(host, names[k]);
        if clicked {
          Resolver.FirstResolvingAt(host, names, k);
          Speak("Going back");
          return;
        }
        k := k + 1;
      }
      Resolver.FirstResolvingNone(host, names);
      Speak("Going back");
    }

    method Deactivate()
      modifies this`active, this`menu
      ensures Snapshot() == Navigation.Deactivate(old(Snapshot()))
    {
      active := false;
      menu := [];
    }

    method SetState(s: GameState)
      modifies this`state
      ensures Snapshot() == Navigation.SetState(old(Snapshot()), s)
    {
      state := s;
    }

    /** ClickButton: a miss is only logged, so it changes nothing. */
    method ClickButton(host: seq<Resolver.Element>, x: string)
      modifies this`clicks
      ensures Snapshot() == TryClick(old(Snapshot()), host, x)
    {
      var clicked := TryClickButton(host, x);
    }

    /** Clicks the first active element whose name contains a variant of `x`, and
        reports whether there was one. */
    method TryClickButton(host: seq<Resolver.Element>, x: string) returns (clicked: bool)
      modifies this`clicks
      ensures clicked == Resolver.Resolve(host, x).Some?
      ensures Snapshot() == TryClick(old(Snapshot()), host, x)
    {
      var found := Resolver.FindButton(host, x);
      match found
      case Some(i) =>
        clicks := clicks + [i];
        clicked := true;
      case None =>
        clicked := false;
    }
  }

  /** GameSpawnPatch.Postfix: the colony has loaded. */
  method GameSpawnPostfix(nav: VirtualNavigator)
    modifies nav
    ensures nav.Snapshot() == ColonyLoaded(old(nav.Snapshot()))
  {
    nav.SetState(InGame);
    nav.Deactivate();
    nav.Speak("Colony Loaded");
  }
}
