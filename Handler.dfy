/** A11YInputHandler of Mod.cs as an object: its lastInputTime field, the coroutines
    it has started and not yet resumed, and the navigator it drives. Each method is
    proved to agree with the matching function of module Input. */
module Handler {
  import Resolver
  import opened Navigation
  import opened Input
  import opened Navigator

  class InputHandler {
    var lastInputTime: int
    var pending: seq<Timer>
    const nav: VirtualNavigator

    function Snapshot(): World
      reads this, nav
    {
      World(lastInputTime, pending, nav.Snapshot())
    }

    constructor (nav: VirtualNavigator)
      ensures this.nav == nav && lastInputTime == 0 && pending == []
    {
      this.nav := nav;
      lastInputTime := 0;
      pending := [];
    }

    /** One frame: `keys` are the keys that went down in it, `now` the clock. */
    method Update(now: int, keys: set<Key>, host: seq<Resolver.Element>)
      modifies this, nav
      ensures Snapshot() == Input.Update(old(Snapshot()), now, keys, host)
    {
      if now - lastInputTime < INPUT_DELAY {
        return;
      }
      if Backspace in keys {
        lastInputTime := now;
        if nav.state == SubMenu {
          nav.GoBack(host);
          pending := pending + [ReactivateAfterBack];
        } else if nav.active {
          nav.Deactivate();
          nav.Speak("Menu closed");
        }
        return;
      }
      if !nav.active {
        return;
      }
      if DownArrow in keys {
        lastInputTime := now;
        nav.NavigateDown();
      } else if UpArrow in keys {
        lastInputTime := now;
        nav.NavigateUp();
      } else if Return in keys || KeypadEnter in keys {
        lastInputTime := now;
        nav.ExecuteCurrent(host);
      }
    }

    /** The oldest waiting coroutine resumes after its delay. */
    method Fire()
      modifies this, nav
      ensures Snapshot() == Input.Fire(old(Snapshot()))
    {
      if pending == [] {
        return;
      }
      var timer := pending[0];
      pending := pending[1..];
      match timer
      case ReactivateAfterBack =>
        if nav.state != InGame {
          nav.ActivateMainMenu();
        }
      case MainMenuAfterSpawn =>
        nav.ActivateMainMenu();
      case NewGameAfterSpawn =>
        nav.ActivateNewGameMenu();
    }
  }

  /** MainMenuPatch.Postfix. */
  method MainMenuPostfix(h: InputHandler)
    modifies h
    ensures h.Snapshot() == MainMenuSpawned(old(h.Snapshot()))
  {
    h.pending := h.pending + [MainMenuAfterSpawn];
  }

  /** NewGameFlowPatch.Postfix. */
  method NewGameFlowPostfix(h: InputHandler)
    modifies h
    ensures h.Snapshot() == NewGameSpawned(old(h.Snapshot()))
  {
    h.pending := h.pending + [NewGameAfterSpawn];
  }

  /** GameSpawnPatch.Postfix, seen from the whole overlay. */
  method GamePostfix(h: InputHandler)
    modifies h.nav
    ensures h.Snapshot() == GameSpawned(old(h.Snapshot()))
  {
    GameSpawnPostfix(h.nav);
  }
}
