/** A11YInputHandler.Update, its delayed reactivation of the main menu, and the
    navigator calls of the host-event patches, as functions over the whole state of
    the overlay. Time is an integer clock in milliseconds; a coroutine waiting on
    WaitForSeconds is a pending timer that a later Fire step resumes. */
module Input {
  import opened Speech
  import Resolver
  import opened Navigation

  /** The keys the handler polls; every other key is an OtherKey. */
  datatype Key = Backspace | DownArrow | UpArrow | Return | KeypadEnter | OtherKey(code: int)

  /** A started coroutine not yet resumed. All of them wait 0.5 s, so they resume in
      the order they were started. */
  datatype Timer =
    | ReactivateAfterBack   // ReactivateMainMenuAfterDelay, started by Backspace
    | MainMenuAfterSpawn    // MainMenuPatch.ActivateAfterDelay
    | NewGameAfterSpawn     // NewGameFlowPatch.ActivateNewGameAfterDelay

  /** The minimum time between two accepted key presses: 0.2 s. */
  const INPUT_DELAY: int := 200

  predicate Recognized(k: Key)
  {
    !k.OtherKey?
  }

  /** The handler's lastInputTime, the coroutines waiting to resume, and the
      navigator. */
  datatype World = World(lastInputTime: int, pending: seq<Timer>, nav: Nav)

  const START: World := World(0, [], INITIAL)

  /** One frame of A11YInputHandler.Update at time `now`, with `keys` the keys that
      went down during the frame and `host` the host's buttons. */
  function Update(w: World, now: int, keys: set<Key>, host: seq<Resolver.Element>): World
  {
    if now - w.lastInputTime < INPUT_DELAY then w
    else if Backspace in keys then
      var w1 := w.(lastInputTime := now);
      if w.nav.state == SubMenu then
        w1.(nav := GoBack(w.nav, host), pending := w.pending + [ReactivateAfterBack])
      else if w.nav.active then
        w1.(nav := Say(Deactivate(w.nav), "Menu closed"))
      else w1
    else if !w.nav.active then w
    else if DownArrow in keys then w.(lastInputTime := now, nav := NavigateDown(w.nav))
    else if UpArrow in keys then w.(lastInputTime := now, nav := NavigateUp(w.nav))
    else if Return in keys || KeypadEnter in keys then
      w.(lastInputTime := now, nav := ExecuteCurrent(w.nav, host))
    else w
  }

  /** The oldest waiting coroutine resumes. The one Backspace started reactivates the
      main menu only if no colony has loaded meanwhile. */
  function Fire(w: World): World
  {
    if w.pending == [] then w
    else
      var rest := w.(pending := w.pending[1..]);
      match w.pending[0]
      case ReactivateAfterBack =>
        if w.nav.state != InGame then rest.(nav := ActivateMainMenu(w.nav)) else rest
      case MainMenuAfterSpawn => rest.(nav := ActivateMainMenu(w.nav))
      case NewGameAfterSpawn => rest.(nav := ActivateNewGameMenu(w.nav))
  }

  /** MainMenuPatch.Postfix: the main menu is activated after a delay. */
  function MainMenuSpawned(w: World): World
  {
    w.(pending := w.pending + [MainMenuAfterSpawn])
  }

  /** NewGameFlowPatch.Postfix: the new-game menu is activated after a delay. */
  function NewGameSpawned(w: World): World
  {
    w.(pending := w.pending + [NewGameAfterSpawn])
  }

  /** GameSpawnPatch.Postfix. */
  function GameSpawned(w: World): World
  {
    w.(nav := ColonyLoaded(w.nav))
  }

  // ---------------------------------------------------------------------------
  // Routing

  /** Within INPUT_DELAY of the last accepted press nothing happens at all. */
  lemma UpdateDebounced(w: World, now: int, keys: set<Key>, host: seq<Resolver.Element>)
    requires now - w.lastInputTime < INPUT_DELAY
    ensures Update(w, now, keys, host) == w
  {
  }

  /** Once a press has been accepted, every frame until INPUT_DELAY has passed is
      ignored, so one press cannot produce two steps. */
  lemma AcceptedPressBlocksRepeats(w: World, now: int, keys: set<Key>,
                                   host: seq<Resolver.Element>, later: int,
                                   keys': set<Key>, host': seq<Resolver.Element>)
    requires Update(w, now, keys, host).lastInputTime == now
    requires later < now + INPUT_DELAY
    ensures var w' := Update(w, now, keys, host); Update(w', later, keys', host') == w'
  {
  }

  /** Backspace outranks every other key pressed in the same frame. In a sub-menu it
      goes back and schedules the main menu's reactivation; elsewhere it closes an
      active menu and says "Menu closed", or does nothing else. Either way the press
      is accepted. */
  lemma UpdateBackspace(w: World, now: int, keys: set<Key>, host: seq<Resolver.Element>)
    requires now - w.lastInputTime >= INPUT_DELAY && Backspace in keys
    ensures var r := Update(w, now, keys, host);
      && r == Update(w, now, {Backspace}, host)
      && r.lastInputTime == now
      && (w.nav.state == SubMenu ==>
            r.nav == GoBack(w.nav, host) && r.pending == w.pending + [ReactivateAfterBack])
      && (w.nav.state != SubMenu ==> r.pending == w.pending)
      && (w.nav.state != SubMenu && w.nav.active ==>
            && !r.nav.active && r.nav.menu == []
            && r.nav.spoken == w.nav.spoken + ["Menu closed"]
            && r.nav.(active := w.nav.active, menu := w.nav.menu, spoken := w.nav.spoken)
               == w.nav)
      && (w.nav.state != SubMenu && !w.nav.active ==> r.nav == w.nav)
  {
  }

  /** Without Backspace, nothing happens while the menu is inactive. */
  lemma UpdateGated(w: World, now: int, keys: set<Key>, host: seq<Resolver.Element>)
    requires Backspace !in keys && !w.nav.active
    ensures Update(w, now, keys, host) == w
  {
  }

  /** Without Backspace and with the menu active, exactly one of Down, Up and Enter is
      handled, in that order of precedence, and the press is accepted; with none of
      them nothing happens. */
  lemma UpdatePrecedence(w: World, now: int, keys: set<Key>, host: seq<Resolver.Element>)
    requires now - w.lastInputTime >= INPUT_DELAY && Backspace !in keys && w.nav.active
    ensures var r := Update(w, now, keys, host);
      && r.pending == w.pending
      && (DownArrow in keys ==> r.nav == NavigateDown(w.nav) && r.lastInputTime == now)
      && (DownArrow !in keys && UpArrow in keys ==>
            r.nav == NavigateUp(w.nav) && r.lastInputTime == now)
      && (DownArrow !in keys && UpArrow !in keys && (Return in keys || KeypadEnter in keys) ==>
            r.nav == ExecuteCurrent(w.nav, host) && r.lastInputTime == now)
      && (DownArrow !in keys && UpArrow !in keys && Return !in keys && KeypadEnter !in keys ==>
            r == w)
  {
  }

  /** Keys the handler does not poll make no difference. */
  lemma UpdateIgnoresOtherKeys(w: World, now: int, keys: set<Key>, host: seq<Resolver.Element>)
    ensures Update(w, now, keys, host) ==
            Update(w, now, (set k | k in keys && Recognized(k)), host)
  {
    var known := set k | k in keys && Recognized(k);
    assert Backspace in keys <==> Backspace in known;
    assert DownArrow in keys <==> DownArrow in known;
    assert UpArrow in keys <==> UpArrow in known;
    assert Return in keys <==> Return in known;
    assert KeypadEnter in keys <==> KeypadEnter in known;
  }

  /** A frame in which only unpolled keys went down changes nothing. */
  lemma OtherKeysOnly(w: World, now: int, keys: set<Key>, host: seq<Resolver.Element>)
    requires forall k :: k in keys ==> !Recognized(k)
    ensures Update(w, now, keys, host) == w
  {
    UpdateIgnoresOtherKeys(w, now, keys, host);
    assert (set k | k in keys && Recognized(k)) == {};
  }

  /** Update keeps the navigator's invariant. */
  lemma UpdateKeepsInv(w: World, now: int, keys: set<Key>, host: seq<Resolver.Element>)
    requires Inv(w.nav)
    ensures Inv(Update(w, now, keys, host).nav)
  {
    GoBackEffect(w.nav, host);
    SpeakKeepsNoneEmpty(w.nav.spoken, "Menu closed");
    NavigateKeepsInv(w.nav);
    ExecuteKeepsInv(w.nav, host);
  }

  /** The overlay starts in a state satisfying the invariant; with UpdateKeepsInv,
      FireKeepsInv and HostEventsKeepInv, every state reachable from it does too. */
  lemma StartInv()
    ensures Inv(START.nav) && START.pending == []
  {
    InitialInv();
  }

  // ---------------------------------------------------------------------------
  // Timers and host events

  /** The reactivation Backspace schedules brings the main menu back unless a colony
      has loaded by the time it fires, and then it changes nothing. */
  lemma FireReactivation(w: World)
    requires w.pending != [] && w.pending[0] == ReactivateAfterBack
    ensures Fire(w).pending == w.pending[1..]
    ensures w.nav.state == InGame ==> Fire(w).nav == w.nav
    ensures w.nav.state != InGame ==> Fire(w).nav == ActivateMainMenu(w.nav)
  {
  }

  /** Resuming a coroutine keeps the navigator's invariant. */
  lemma FireKeepsInv(w: World)
    requires Inv(w.nav)
    ensures Inv(Fire(w).nav)
  {
    ActivateKeepsInv(w.nav);
  }

  /** In a sub-menu, Backspace goes back; when the scheduled reactivation fires, the
      main menu is active again with the cursor on its first entry. */
  lemma BackFromSubMenu(w: World, now: int, host: seq<Resolver.Element>)
    requires w.nav.state == SubMenu && w.pending == []
    requires now - w.lastInputTime >= INPUT_DELAY
    ensures var r := Fire(Update(w, now, {Backspace}, host));
      && r.nav.state == MainMenu && r.nav.active && r.nav.index == 0
      && r.nav.menu == MainMenuItems() && r.pending == []
      && r.nav.spoken == w.nav.spoken + ["Going back", "Main Menu. Resume Game"]
  {
    GoBackEffect(w.nav, host);
    ActivateMainMenuEffect(GoBack(w.nav, host));
  }

  /** If the colony loads between Backspace and the reactivation, the menu stays
      closed and the game stays InGame. */
  lemma BackThenColonyLoads(w: World, now: int, host: seq<Resolver.Element>)
    requires w.nav.state == SubMenu && w.pending == []
    requires now - w.lastInputTime >= INPUT_DELAY
    ensures var r := Fire(GameSpawned(Update(w, now, {Backspace}, host)));
      && r.nav.state == InGame && !r.nav.active && r.nav.menu == []
      && r.pending == []
      && r.nav.spoken == w.nav.spoken + ["Going back", "Colony Loaded"]
  {
    GoBackEffect(w.nav, host);
    ColonyLoadedEffect(GoBack(w.nav, host));
  }

  /** The host-event patches keep the navigator's invariant. */
  lemma HostEventsKeepInv(w: World)
    requires Inv(w.nav)
    ensures Inv(MainMenuSpawned(w).nav) && Inv(NewGameSpawned(w).nav) && Inv(GameSpawned(w).nav)
  {
    ColonyLoadedEffect(w.nav);
  }
}
