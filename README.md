# ONI Access: virtual menu navigation, modelled in Dafny

ONI Access is a mod for Oxygen Not Included. It lets a blind player run the game's
main menu and new-game screen with the keyboard, while a screen reader (NVDA) speaks.
The mod keeps a virtual menu of its own: a fixed list of entries, a cursor and an
"active" flag. Up and Down move the cursor and speak the entry under it. Enter speaks
the entry's activation phrase, deactivates the menu and then clicks the matching game
button. The button is found by its object name. Backspace goes back. Each Harmony
patch of a game screen's `OnSpawn` tells the navigator which screen is showing.

All of it lives in `Mod.cs`. The model has six modules:

- `Speech` is the speech sink `NVDA.Speak`. The model keeps a transcript of every
  string handed to the narrator. An empty string is never handed over.
- `Resolver` is the button lookup of `TryClickButton` and the priority list of
  `GoBack`. The game's live buttons are a sequence of (name, active) records in
  enumeration order. `Resolve` is the reference definition: the first active element
  whose name contains `x`, `"Button_" + x` or `x + "Button"`. `FindButton` is the
  source's nested loop, proved equal to `Resolve`. `FirstResolving` is the first
  back-like name that resolves.
- `Navigation` is the navigator as a value: a datatype `Nav` holding the fields of
  `VirtualNavigator`, the speech transcript and the list of clicks. It has one function
  per operation, and lemmas that state what the operations promise. Those are the
  cursor wrap-around, the no-op cases, the order "speak, deactivate, then act" in
  `ExecuteCurrent`, the click and go-back policy, and an invariant that every operation
  keeps. A menu entry's closure is a tagged `Action`: `Click`, `SubMenuClick` or `Back`.
- `Navigator` is `VirtualNavigator` as a class. Its fields are updated in place. Each
  method is proved to leave `Snapshot()` equal to the matching `Navigation` function
  applied to the old snapshot.
- `Input` models one frame of `A11YInputHandler.Update` as a function of the world:
  `lastInputTime`, the coroutines still waiting, and the navigator. It also models the
  resumption of a waiting coroutine (`Fire`) and the navigator calls of the three
  `OnSpawn` patches. The lemmas cover the debounce gate, Backspace priority, the
  Down > Up > Enter precedence, gating on the active flag, invariant preservation, and
  the delayed reactivation, which is skipped once a colony has loaded.
- `Handler` is `A11YInputHandler` as a class that drives a `VirtualNavigator`. Its
  methods are proved equal to the `Input` functions.

Time is an integer clock in milliseconds, so the 0.2 s debounce is `INPUT_DELAY = 200`.
Each `WaitForSeconds(0.5f)` coroutine becomes a pending `Timer`. All of them wait the
same 0.5 s, so they resume oldest first, one per `Fire` step. A click is recorded as
the position of the clicked button in the enumeration that was searched.

Notes on what the code does:

- `SetState` only overwrites the state (Mod.cs:180-184). It does not deactivate the
  menu, whatever state it sets, `InGame` or `Loading` included.
- No code path treats the `Loading` state specially; it is declared (Mod.cs:43) and
  never set.
- The two menus are fixed lists built inline (Mod.cs:74-111); there is no activation
  over an arbitrary entry list.
- Backspace is handled inside the debounce gate (Mod.cs:258-261), so it shares the
  0.2 s delay with the other keys.
- Keys are only polled with `Input.GetKeyDown` (Mod.cs:261, 283-293), so no key is
  consumed or withheld from the game.

## Model

| member | source | states |
|---|---|---|
| Speech.Speak | Mod.cs:19-21 | empty text is dropped; any other text is appended to the transcript exactly once; nothing already in the transcript changes, and nothing empty is ever added |
| Speech.SpeakKeepsNoneEmpty | Mod.cs:19-21 | a transcript with no empty string keeps that property after any Speak |
| Resolver.ContainsIff | Mod.cs:211 | the substring test agrees with "p occurs in s at some position", in both directions |
| Resolver.MatchesNameIff | Mod.cs:197-202 | a name contains one of the three variants of x iff it contains x itself, since both longer variants contain x |
| Resolver.Resolve | Mod.cs:195-220 | the element chosen is active, its name contains a variant of x, and no earlier element is both; when nothing is chosen, no element qualifies |
| Resolver.ResolveIff | Mod.cs:195-220 | resolution succeeds iff some active element's name contains x |
| Resolver.ResolveSingle | Mod.cs:204-219 | with one element on screen, it is chosen iff it is active and its name contains x |
| Resolver.FindButton | Mod.cs:204-219 | the nested loop (elements in order, inactive ones skipped, the variants in turn, early return) returns exactly the choice of Resolve |
| Resolver.FirstResolving | Mod.cs:152-166 | the chosen name is the first in the list that resolves, and it gives the element clicked; with no choice, no name in the list resolves |
| Resolver.FirstResolvingAt | Mod.cs:152-166 | conversely, a name that resolves with no earlier name resolving is the one chosen, with the element it resolves to |
| Resolver.FirstResolvingNone | Mod.cs:152-170 | when no name in the list resolves, none is chosen |
| Navigation.CsRem | Mod.cs:116-124 | C# `%`: the remainder has the dividend's sign, is smaller than the divisor in magnitude, and differs from the dividend by a multiple of the divisor |
| Navigation.InitialInv | Mod.cs:68-72 | the field initialisers satisfy the navigator invariant, its base case |
| Navigation.ActivateEffect | Mod.cs:74-111 | activation sets the state and title, installs exactly the given entries, puts the cursor on the first, activates the menu, speaks the fixed prefix with the first name, and clicks nothing |
| Navigation.ActivateMainMenuEffect | Mod.cs:74-93 | afterwards the state is MainMenu, the menu holds the eight entries from "Resume Game" to "Quit to Desktop" in order, the cursor is 0, the menu is active, exactly "Main Menu. Resume Game" is spoken, and nothing is clicked |
| Navigation.ActivateNewGameMenuEffect | Mod.cs:95-111 | afterwards the state is NewGame with Survival, No Sweat, Custom Game and Back, the cursor is 0, the menu is active, and exactly "New Game. Survival" is spoken |
| Navigation.ActivateKeepsInv | Mod.cs:74-111 | both activations keep the navigator invariant |
| Navigation.NavigateDownStep | Mod.cs:113-119 | on an active menu of n entries the cursor becomes (i+1) mod n and stays in [0,n); exactly the new entry's name is spoken; no other field changes |
| Navigation.NavigateUpStep | Mod.cs:121-127 | on an active menu the cursor becomes (i-1+n) mod n and stays in [0,n); exactly the new entry's name is spoken; no other field changes |
| Navigation.NavigateInactiveNoOp | Mod.cs:113-127 | on an inactive or empty menu, Down and Up leave the whole state, the transcript included, unchanged |
| Navigation.NavigateKeepsInv | Mod.cs:113-127 | Down and Up keep the navigator invariant |
| Navigation.UpUndoesDown | Mod.cs:113-127 | Up after Down restores every field except the transcript |
| Navigation.DownUndoesUp | Mod.cs:113-127 | Down after Up restores every field except the transcript |
| Navigation.DownTimesIndex | Mod.cs:113-119 | k Downs put the cursor at (i+k) mod n and change nothing but the cursor and the transcript |
| Navigation.UpTimesIndex | Mod.cs:121-127 | k Ups put the cursor at (i-k) mod n and change nothing but the cursor and the transcript |
| Navigation.FullCycleDown | Mod.cs:113-119 | n Downs on an n-entry menu bring the cursor back to where it started |
| Navigation.FullCycleUp | Mod.cs:121-127 | n Ups on an n-entry menu bring the cursor back to where it started |
| Navigation.TwoDownsFromTop | Mod.cs:113-119 | two Downs from the first entry stop on the third entry and speak the second and third names |
| Navigation.ExecuteCurrentNoOp | Mod.cs:129-131 | with the menu inactive or the cursor outside the menu, ExecuteCurrent changes nothing |
| Navigation.ExecuteCurrentEffect | Mod.cs:129-137 | otherwise the entry's phrase is spoken first, and the action then runs on a state whose menu is already inactive; menu and cursor are kept; only a sub-menu entry changes the state; at most one click |
| Navigation.RunActionEffect | Mod.cs:81-88 | an action keeps menu, cursor and active flag; a sub-menu action sets SubMenu before clicking; only Back speaks; at most one element is clicked |
| Navigation.ExecuteKeepsInv | Mod.cs:129-137 | ExecuteCurrent keeps the navigator invariant |
| Navigation.TryClickEffect | Mod.cs:186-220 | a click happens iff some active element's name contains the name; then exactly one element is clicked, the first such in enumeration order, and it is active; a miss changes nothing at all |
| Navigation.GoBackEffect | Mod.cs:147-171 | "Going back" is spoken exactly once whether or not a name resolved; at most one element is clicked, the one the first resolving name in the priority list gives |
| Navigation.DeactivateEffect | Mod.cs:173-178 | the menu is inactive and empty, nothing else changes, and deactivating again changes nothing |
| Navigation.SetStateOnlyState | Mod.cs:180-184 | only the state changes; an active menu stays active |
| Navigation.ColonyLoadedEffect | Mod.cs:382-388 | after a colony loads the state is InGame, the menu is inactive and empty, and "Colony Loaded" is the one string spoken |
| Navigation.MainMenuScenario | Mod.cs:74-137 | from any state: main menu, Down twice, and the cursor is on "Load Game"; Enter then speaks "Opening Load Game" and the menu is inactive |
| Navigation.GoBackScenario | Mod.cs:147-171 | with only "CancelButton" on screen, CloseButton, Close, BackButton and Back all miss and the fifth name, CancelButton, clicks it |
| Navigation.ResolveScenario | Mod.cs:195-220 | "NewGame" passes over "LoadGameButton" and resolves to "NewGameButtonWidget" |
| Navigator.VirtualNavigator.constructor | Mod.cs:68-72 | the navigator starts in state None, with an empty inactive menu, the cursor at 0 and nothing spoken or clicked |
| Navigator.VirtualNavigator.Speak | Mod.cs:19-21 | the transcript becomes the Speak function of the old one |
| Navigator.VirtualNavigator.ActivateMainMenu | Mod.cs:74-93 | clearing and refilling the menu in place leaves the state given by ActivateMainMenu |
| Navigator.VirtualNavigator.ActivateNewGameMenu | Mod.cs:95-111 | clearing and refilling the menu in place leaves the state given by ActivateNewGameMenu |
| Navigator.VirtualNavigator.NavigateDown | Mod.cs:113-119 | the new state is NavigateDown of the old one |
| Navigator.VirtualNavigator.NavigateUp | Mod.cs:121-127 | the new state is NavigateUp of the old one |
| Navigator.VirtualNavigator.ExecuteCurrent | Mod.cs:129-137 | the new state is ExecuteCurrent of the old one; the action can only be run once the menu is inactive |
| Navigator.VirtualNavigator.RunAction | Mod.cs:81-88 | requires the menu to be inactive, as the action is only run after that; leaves it inactive |
| Navigator.VirtualNavigator.AnnounceCurrentItem | Mod.cs:139-145 | speaks the current entry's name when the cursor is on an entry, and otherwise nothing |
| Navigator.VirtualNavigator.GoBack | Mod.cs:147-171 | the loop over the priority list with early return leaves the state given by GoBack |
| Navigator.VirtualNavigator.Deactivate | Mod.cs:173-178 | changes only the active flag and the menu, as Deactivate |
| Navigator.VirtualNavigator.SetState | Mod.cs:180-184 | changes only the state field |
| Navigator.VirtualNavigator.ClickButton | Mod.cs:186-193 | the state becomes TryClick of the old one; a miss changes nothing |
| Navigator.VirtualNavigator.TryClickButton | Mod.cs:195-220 | reports whether the name resolved, and records the one click TryClick prescribes |
| Navigator.GameSpawnPostfix | Mod.cs:382-388 | SetState(InGame), Deactivate, then "Colony Loaded", as ColonyLoaded |
| Input.StartInv | Mod.cs:68-72 | the overlay starts with no waiting coroutine and a navigator satisfying the invariant, so with the three preservation lemmas every reachable state satisfies it |
| Input.UpdateDebounced | Mod.cs:258 | within INPUT_DELAY of the last accepted press a frame changes nothing at all |
| Input.AcceptedPressBlocksRepeats | Mod.cs:258-297 | after an accepted press, every frame before INPUT_DELAY has passed is ignored, so one press makes at most one step |
| Input.UpdateBackspace | Mod.cs:260-278 | Backspace outranks every other key; in SubMenu it goes back and schedules a reactivation; otherwise an active menu is closed and "Menu closed" is spoken, and an inactive one is left alone; in every case lastInputTime becomes now |
| Input.UpdateGated | Mod.cs:280-281 | without Backspace, an inactive menu makes the frame change nothing |
| Input.UpdatePrecedence | Mod.cs:283-297 | with an active menu, Down beats Up, and Up beats Return or KeypadEnter; each accepted key sets lastInputTime; with none of them nothing changes |
| Input.UpdateIgnoresOtherKeys | Mod.cs:256-298 | the frame's effect depends only on the polled keys among those pressed |
| Input.OtherKeysOnly | Mod.cs:256-298 | a frame in which only unpolled keys went down changes nothing |
| Input.UpdateKeepsInv | Mod.cs:256-298 | every frame keeps the navigator invariant |
| Input.FireReactivation | Mod.cs:300-307 | the reactivation activates the main menu iff the state is not InGame when it fires; otherwise it changes nothing |
| Input.FireKeepsInv | Mod.cs:300-307 | resuming any waiting coroutine keeps the navigator invariant |
| Input.BackFromSubMenu | Mod.cs:261-307 | in a sub-menu, Backspace and then the reactivation leave the main menu active at its first entry; "Going back" and "Main Menu. Resume Game" are spoken, in that order |
| Input.BackThenColonyLoads | Mod.cs:300-388 | if a colony loads between Backspace and the reactivation, the state stays InGame and the menu stays inactive and empty |
| Input.HostEventsKeepInv | Mod.cs:330-388 | the three OnSpawn patches keep the navigator invariant |
| Handler.InputHandler.constructor | Mod.cs:240-242 | the handler starts with lastInputTime 0 and no waiting coroutine |
| Handler.InputHandler.Update | Mod.cs:256-298 | one frame on the objects leaves the state given by the Update function |
| Handler.InputHandler.Fire | Mod.cs:300-307 | resuming the oldest coroutine leaves the state given by the Fire function |
| Handler.MainMenuPostfix | Mod.cs:333-350 | schedules the delayed activation of the main menu |
| Handler.NewGameFlowPostfix | Mod.cs:359-373 | schedules the delayed activation of the new-game menu |
| Handler.GamePostfix | Mod.cs:382-388 | the colony-loaded sequence, seen on the whole handler state |

## Left out

- The NVDA call `nvdaController_speakText`, its error code and its exception handler (Mod.cs:16-17, 23-32) are a foreign call. The model records the text handed to it.
- `string.IsNullOrEmpty` also drops a null text. Dafny strings cannot be null, and no caller in `Mod.cs` passes null. So only the empty-string case is modelled.
- `Debug.Log` and `LogAllButtons` (Mod.cs:222-232) only write to the log.
- Unity's `FindObjectsOfType<KButton>`, `activeInHierarchy` and null buttons (Mod.cs:204-207) are replaced by an input sequence of (name, active) records. Each call can be given a different sequence.
- `SignalClick` (Mod.cs:214) is replaced by a recorded click. What the game then does (a screen opening or closing, or a `MainMenu.OnSpawn` raised from inside the click) is not modelled.
- The null test on an entry's action (Mod.cs:136) is not modelled, because every entry the code builds has an action.
- The MonoBehaviour lifecycle is not modelled: the `Awake` singleton, `DontDestroyOnLoad`, the handler's creation in `MainMenuPatch.Postfix` and the `Instance != null` test in `NewGameFlowPatch.Postfix` (Mod.cs:244-254, 337-341, 363). The model assumes the single handler exists.
- Coroutine timing (Mod.cs:300-302, 343-350, 365-373) is modelled as a queue of pending timers, resumed oldest first by an explicit `Fire` step. Unity would stop the main-menu coroutine if its `MainMenu` object were destroyed first. That case is not modelled.
- Floating-point time (`Time.unscaledTime`, `INPUT_DELAY = 0.2f`, Mod.cs:241-242, 258) becomes an integer millisecond clock with a 200 ms delay. Float rounding is not modelled.
- Navigation.NavigateDownStep: does not model 32-bit wrap-around of `CurrentIndex + 1` (or `- 1 + Count`), because the cursor never leaves [0, 8) and the sum cannot overflow. C#'s truncating `%` is modelled by `CsRem`.
- Harmony patching and mod loading (`Mod.OnLoad`, the `[HarmonyPatch]` attributes, Mod.cs:313-389) are left out. Only the navigator calls each `Postfix` makes are kept.
- `CurrentMenuName` is kept as a field, but no part of `Mod.cs` reads it.
- The states `Loading` and `Paused` are declared but never set by any code in `Mod.cs`.
