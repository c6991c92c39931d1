/** The three menus of the plugin as a state machine: the click handler onInventoryClick, the close
    hook onInventoryClose and the openers they call, over the state every player shares. */
module Menus {
  import opened Options
  import opened Materials
  import opened Rules
  import opened Sessions

  type PlayerId = int

  /** The inventory view a player has open, as the handlers tell it apart by title. `ListMenu`
      remembers how many rule items were placed when it was rendered. */
  datatype Screen = MainMenu | CreateMenu | ListMenu(shown: nat) | Elsewhere

  /** The plugin's state: the rule store, the pending rules by player, and each player's open view. */
  datatype World = World(rules: Store, pending: map<PlayerId, Pending>, views: map<PlayerId, Screen>)

  /** What a click did: the new state, and whether the click event was cancelled (so the host does
      not move the clicked item). */
  datatype Reaction = Reaction(world: World, cancelled: bool)

  // Raw slots of the controls.
  const MAIN_CREATE := 11
  const MAIN_LIST := 15
  const CREATE_SIZE := 27
  const CREATE_INPUT := 11
  const CREATE_OUTPUT := 15
  const CREATE_DECREASE := 3
  const CREATE_INCREASE := 5
  const CREATE_SAVE := 22
  const CREATE_CANCEL := 26
  const LIST_BACK := 49

  function ViewOf(w: World, p: PlayerId): Screen {
    if p in w.views then w.views[p] else Elsewhere
  }

  /** Player `q` has the same pending rule (or none) and the same view in both states. */
  predicate SamePlayer(w: World, r: World, q: PlayerId) {
    && (q in w.pending <==> q in r.pending)
    && (q in w.pending ==> w.pending[q] == r.pending[q])
    && ViewOf(w, q) == ViewOf(r, q)
  }

  /** onInventoryClose: closing the create menu drops the player's pending rule. */
  function Close(w: World, p: PlayerId): (r: World)
    ensures r.rules == w.rules
    ensures ViewOf(r, p) == Elsewhere
    ensures ViewOf(w, p) == CreateMenu ==> p !in r.pending
    ensures ViewOf(w, p) != CreateMenu ==> r.pending == w.pending
    ensures forall q :: q != p ==> SamePlayer(w, r, q)
  {
    var w' := if ViewOf(w, p) == CreateMenu then w.(pending := w.pending - {p}) else w;
    w'.(views := w'.views[p := Elsewhere])
  }

  /** `player.openInventory(menu)`: the view already open is closed first, with its close hook. */
  function Open(w: World, p: PlayerId, s: Screen): (r: World)
    ensures r.rules == w.rules && ViewOf(r, p) == s
    ensures r.pending == (if ViewOf(w, p) == CreateMenu then w.pending - {p} else w.pending)
    ensures forall q :: q != p ==> SamePlayer(w, r, q)
  {
    var w' := Close(w, p);
    w'.(views := w'.views[p := s])
  }

  /** openMainMenu, also what the /autocompressor command calls. */
  function OpenMainMenu(w: World, p: PlayerId): World {
    Open(w, p, MainMenu)
  }

  /** openCreateRuleMenu: the pending rule is (re)initialised, then the menu opens. */
  function OpenCreateRuleMenu(w: World, p: PlayerId): World {
    Open(w.(pending := w.pending[p := Initial]), p, CreateMenu)
  }

  /** openRuleListMenu: one rule item per stored rule, up to the list capacity. */
  function OpenRuleListMenu(w: World, p: PlayerId): World {
    Open(w, p, ListMenu(Min(|w.rules|, LIST_CAPACITY)))
  }

  /** The edit a create-menu slot stands for. */
  function EditAt(slot: int, cursor: Option<Material>): Option<Edit> {
    if slot == CREATE_INPUT then Some(SetInput(cursor))
    else if slot == CREATE_OUTPUT then Some(SetOutput(cursor))
    else if slot == CREATE_DECREASE then Some(Decrease)
    else if slot == CREATE_INCREASE then Some(Increase)
    else None
  }

  /** A handled click on the create menu (slot below 27, pending rule present). */
  function CreateClick(w: World, p: PlayerId, slot: int, cursor: Option<Material>): (r: World)
    requires p in w.pending
    ensures forall q :: q != p ==> SamePlayer(w, r, q)
    ensures r.rules != w.rules ==> slot == CREATE_SAVE
  {
    var pending := w.pending[p];
    match EditAt(slot, cursor)
    case Some(e) => w.(pending := w.pending[p := ApplyEdit(pending, e)])
    case None =>
      if slot == CREATE_SAVE then
        if pending.input.Some? && pending.output.Some? then
          OpenMainMenu(Close(w.(rules := Save(w.rules, pending)), p), p)
        else w
      else if slot == CREATE_CANCEL then OpenMainMenu(w.(pending := w.pending - {p}), p)
      else w
  }

  /** A click on the rule list rendered with `shown` rule items; `order` is the store's iteration
      order at the time of the click. */
  function ListClick(w: World, p: PlayerId, shown: nat, slot: int, order: seq<string>): (r: World)
    ensures forall q :: q != p ==> SamePlayer(w, r, q)
    ensures r.rules != w.rules ==> 0 <= slot < LIST_CAPACITY && slot < shown
  {
    if 0 <= slot < LIST_CAPACITY && slot < shown then
      match KeyAt(order, slot)
      case Some(k) => OpenRuleListMenu(w.(rules := w.rules - {k}), p)
      case None => w
    else if slot == LIST_BACK then OpenMainMenu(w, p)
    else w
  }

  /** onInventoryClick for player `p` at raw slot `slot` holding `cursor`. */
  function Click(w: World, p: PlayerId, slot: int, cursor: Option<Material>, order: seq<string>): (r: Reaction)
    ensures ViewOf(w, p) == Elsewhere ==> r == Reaction(w, false)
    ensures r.cancelled <==> ViewOf(w, p) != Elsewhere && !(ViewOf(w, p) == CreateMenu && p in w.pending && slot >= CREATE_SIZE)
    ensures forall q :: q != p ==> SamePlayer(w, r.world, q)
    ensures r.world.rules != w.rules ==>
      || (ViewOf(w, p) == CreateMenu && slot == CREATE_SAVE)
      || (ViewOf(w, p).ListMenu? && 0 <= slot < LIST_CAPACITY)
  {
    match ViewOf(w, p)
    case MainMenu =>
      var w' := if slot == MAIN_CREATE then OpenCreateRuleMenu(w, p)
                else if slot == MAIN_LIST then OpenRuleListMenu(w, p)
                else w;
      Reaction(w', true)
    case CreateMenu =>
      if p !in w.pending then Reaction(w, true)
      else if slot >= CREATE_SIZE then Reaction(w, false)
      else Reaction(CreateClick(w, p, slot, cursor), true)
    case ListMenu(shown) =>
      Reaction(ListClick(w, p, shown, slot, order), true)
    case Elsewhere =>
      Reaction(w, false)
  }

  /** What every reachable state holds of player `q`: a pending rule exactly while the create menu
      is open, a valid one, and a rendered list of no more than the capacity. */
  predicate ConsistentAt(w: World, q: PlayerId) {
    && (q in w.pending ==> ViewOf(w, q) == CreateMenu && Valid(w.pending[q]))
    && (ViewOf(w, q) == CreateMenu ==> q in w.pending)
    && (ViewOf(w, q).ListMenu? ==> ViewOf(w, q).shown <= LIST_CAPACITY)
  }

  ghost predicate Consistent(w: World) {
    forall q :: ConsistentAt(w, q)
  }

  lemma EmptyConsistent()
    ensures Consistent(World(map[], map[], map[]))
  {
  }

  /** A step that leaves every other player as they were and leaves `p` consistent keeps the
      whole state consistent. */
  lemma StepKeepsConsistent(w: World, r: World, p: PlayerId)
    requires Consistent(w) && ConsistentAt(r, p)
    requires forall q :: q != p ==> SamePlayer(w, r, q)
    ensures Consistent(r)
  {
    forall q
      ensures ConsistentAt(r, q)
    {
      if q != p {
        assert SamePlayer(w, r, q);
        assert ConsistentAt(w, q);
      }
    }
  }

  /** The close hook and every opener keep the world consistent. */
  lemma CloseKeepsConsistent(w: World, p: PlayerId)
    requires Consistent(w)
    ensures Consistent(Close(w, p))
  {
    assert ConsistentAt(w, p);
    StepKeepsConsistent(w, Close(w, p), p);
  }

  lemma OpenMainMenuKeepsConsistent(w: World, p: PlayerId)
    requires Consistent(w)
    ensures Consistent(OpenMainMenu(w, p))
  {
    CloseKeepsConsistent(w, p);
    var c := Close(w, p);
    assert ConsistentAt(c, p);
    StepKeepsConsistent(c, OpenMainMenu(w, p), p);
  }

  lemma ClickKeepsConsistentMain(w: World, p: PlayerId, slot: int)
    requires Consistent(w) && ViewOf(w, p) == MainMenu
    ensures Consistent(OpenCreateRuleMenu(w, p))
    ensures Consistent(OpenRuleListMenu(w, p))
  {
    assert ConsistentAt(w, p);
    var w1 := w.(pending := w.pending[p := Initial]);
    var c1 := Close(w1, p);
    assert forall q :: q != p ==> SamePlayer(w, w1, q);
    assert forall q :: q != p ==> SamePlayer(w, c1, q);
    StepKeepsConsistent(w, OpenCreateRuleMenu(w, p), p);
    var c2 := Close(w, p);
    assert forall q :: q != p ==> SamePlayer(w, c2, q);
    StepKeepsConsistent(w, OpenRuleListMenu(w, p), p);
  }

  lemma CreateClickKeepsConsistent(w: World, p: PlayerId, slot: int, cursor: Option<Material>)
    requires Consistent(w) && ViewOf(w, p) == CreateMenu && p in w.pending
    ensures Consistent(CreateClick(w, p, slot, cursor))
  {
    assert ConsistentAt(w, p);
    var pending := w.pending[p];
    match EditAt(slot, cursor)
    case Some(e) =>
      EditKeepsValid(pending, e);
      var r := w.(pending := w.pending[p := ApplyEdit(pending, e)]);
      assert forall q :: q != p ==> SamePlayer(w, r, q);
      StepKeepsConsistent(w, r, p);
    case None =>
      if slot == CREATE_SAVE && pending.input.Some? && pending.output.Some? {
        var w1 := w.(rules := Save(w.rules, pending));
        assert forall q :: SamePlayer(w, w1, q);
        StepKeepsConsistent(w, w1, p);
        CloseKeepsConsistent(w1, p);
        OpenMainMenuKeepsConsistent(Close(w1, p), p);
      } else if slot == CREATE_CANCEL {
        var w1 := w.(pending := w.pending - {p});
        var r := OpenMainMenu(w1, p);
        var c := Close(w1, p);
        assert forall q :: q != p ==> SamePlayer(w, w1, q);
        assert forall q :: q != p ==> SamePlayer(w, c, q);
        assert forall q :: q != p ==> SamePlayer(w, r, q);
        StepKeepsConsistent(w, r, p);
      }
  }

  lemma DeleteKeepsConsistent(w: World, w1: World, p: PlayerId)
    requires Consistent(w) && ViewOf(w, p).ListMenu?
    requires w1 == w.(rules := w1.rules)
    ensures Consistent(OpenRuleListMenu(w1, p))
  {
    assert ConsistentAt(w, p);
    var c := Close(w1, p);
    assert forall q :: q != p ==> SamePlayer(w, c, q);
    StepKeepsConsistent(w, OpenRuleListMenu(w1, p), p);
  }

  lemma ListClickKeepsConsistent(w: World, p: PlayerId, shown: nat, slot: int, order: seq<string>)
    requires Consistent(w) && ViewOf(w, p) == ListMenu(shown)
    ensures Consistent(ListClick(w, p, shown, slot, order))
  {
    assert ConsistentAt(w, p);
    if 0 <= slot < LIST_CAPACITY && slot < shown {
      var found := KeyAt(order, slot);
      if found.Some? {
        var w1 := w.(rules := w.rules - {found.value});
        assert ListClick(w, p, shown, slot, order) == OpenRuleListMenu(w1, p);
        DeleteKeepsConsistent(w, w1, p);
      }
    } else if slot == LIST_BACK {
      OpenMainMenuKeepsConsistent(w, p);
    }
  }

  /** Every click keeps the world consistent. */
  lemma ClickKeepsConsistent(w: World, p: PlayerId, slot: int, cursor: Option<Material>, order: seq<string>)
    requires Consistent(w)
    ensures Consistent(Click(w, p, slot, cursor, order).world)
  {
    match ViewOf(w, p)
    case MainMenu =>
      ClickKeepsConsistentMain(w, p, slot);
    case CreateMenu =>
      if p in w.pending && slot < CREATE_SIZE {
        CreateClickKeepsConsistent(w, p, slot, cursor);
      }
    case ListMenu(shown) =>
      ListClickKeepsConsistent(w, p, shown, slot, order);
    case Elsewhere =>
  }

  /** Opening the create menu from any view but the create menu itself leaves the player editing
      the default rule (COBBLESTONE, 9, STONE, 1), whatever was pending before. */
  lemma OpenCreateInitialises(w: World, p: PlayerId)
    requires ViewOf(w, p) != CreateMenu
    ensures var r := OpenCreateRuleMenu(w, p);
      ViewOf(r, p) == CreateMenu && p in r.pending && r.pending[p] == Initial && r.rules == w.rules
  {
  }

  /** The main menu: slot 11 opens the create menu with a fresh pending rule, slot 15 opens the
      list, any other slot does nothing; every click there is cancelled. */
  lemma MainMenuDispatch(w: World, p: PlayerId, slot: int, cursor: Option<Material>, order: seq<string>)
    requires ViewOf(w, p) == MainMenu
    ensures var r := Click(w, p, slot, cursor, order);
      && r.cancelled
      && r.world.rules == w.rules
      && (slot == MAIN_CREATE ==> ViewOf(r.world, p) == CreateMenu && r.world.pending[p] == Initial)
      && (slot == MAIN_LIST ==> ViewOf(r.world, p) == ListMenu(Min(|w.rules|, LIST_CAPACITY)))
      && (slot != MAIN_CREATE && slot != MAIN_LIST ==> r.world == w)
  {
  }

  /** The create menu without a pending rule swallows every click; with one, clicks on the player's
      own inventory (raw slot 27 and up) are left to the host untouched. */
  lemma CreateMenuGuards(w: World, p: PlayerId, slot: int, cursor: Option<Material>, order: seq<string>)
    requires ViewOf(w, p) == CreateMenu
    ensures p !in w.pending ==> Click(w, p, slot, cursor, order) == Reaction(w, true)
    ensures p in w.pending && slot >= CREATE_SIZE ==> Click(w, p, slot, cursor, order) == Reaction(w, false)
  {
  }

  /** An edit control changes only the player's pending rule, as the edit prescribes. */
  lemma CreateMenuEdit(w: World, p: PlayerId, slot: int, cursor: Option<Material>, order: seq<string>)
    requires ViewOf(w, p) == CreateMenu && p in w.pending
    requires EditAt(slot, cursor).Some?
    ensures var r := Click(w, p, slot, cursor, order);
      && r.world == w.(pending := w.pending[p := ApplyEdit(w.pending[p], EditAt(slot, cursor).value)])
      && r.cancelled
  {
  }

  /** In a consistent world the save button always succeeds: the pending rule is stored under its
      rule id (replacing any rule of the same pair), the pending rule is dropped and the main menu
      opens. The "set both items" rejection cannot happen. */
  lemma SaveClick(w: World, p: PlayerId, cursor: Option<Material>, order: seq<string>)
    requires Consistent(w) && ViewOf(w, p) == CreateMenu
    ensures p in w.pending && Valid(w.pending[p])
    ensures var s := w.pending[p];
      var r := Click(w, p, CREATE_SAVE, cursor, order).world;
      && r.rules == w.rules[RuleId(s.input.value, s.output.value) := RuleOf(s)]
      && p !in r.pending
      && ViewOf(r, p) == MainMenu
  {
    assert ConsistentAt(w, p);
  }

  /** Cancel drops the pending rule, opens the main menu, and leaves the store alone. */
  lemma CancelClick(w: World, p: PlayerId, cursor: Option<Material>, order: seq<string>)
    requires ViewOf(w, p) == CreateMenu && p in w.pending
    ensures var r := Click(w, p, CREATE_CANCEL, cursor, order).world;
      r.rules == w.rules && p !in r.pending && ViewOf(r, p) == MainMenu
  {
  }

  /** A click on a displayed rule removes the rule at that position of the current iteration order,
      exactly one key, and re-renders the list. */
  lemma ListMenuDelete(w: World, p: PlayerId, shown: nat, slot: int, cursor: Option<Material>, order: seq<string>)
    requires ViewOf(w, p) == ListMenu(shown) && IsEnumeration(order, w.rules)
    requires 0 <= slot < Min(shown, LIST_CAPACITY) && slot < |order|
    ensures var r := Click(w, p, slot, cursor, order);
      && r.cancelled
      && r.world.rules.Keys == w.rules.Keys - {order[slot]}
      && |r.world.rules| == |w.rules| - 1
      && (forall k :: k in r.world.rules ==> r.world.rules[k] == w.rules[k])
      && ViewOf(r.world, p) == ListMenu(Min(|w.rules| - 1, LIST_CAPACITY))
  {
    var r := Click(w, p, slot, cursor, order);
    var w1 := w.(rules := w.rules - {order[slot]});
    assert r == Reaction(OpenRuleListMenu(w1, p), true);
    RemoveAtEnumeration(w.rules, order, slot);
    assert w1.rules == RemoveAt(w.rules, order, slot);
  }

  /** On a list opened by openRuleListMenu, with the iteration order unchanged since, a click at a
      display slot removes exactly the key of the rule that `ListView` shows there. */
  lemma ListViewDelete(w: World, p: PlayerId, slot: int, cursor: Option<Material>, order: seq<string>)
    requires IsEnumeration(order, w.rules)
    requires ViewOf(w, p) == ListMenu(|ListView(w.rules, order)|)
    requires 0 <= slot < |ListView(w.rules, order)|
    ensures var r := Click(w, p, slot, cursor, order).world;
      && r.rules.Keys == w.rules.Keys - {order[slot]}
      && w.rules[order[slot]] == ListView(w.rules, order)[slot]
  {
    ListMenuDelete(w, p, |ListView(w.rules, order)|, slot, cursor, order);
  }

  /** When the store has shrunk below the clicked position since the list was rendered, nothing
      happens; slot 49 goes back to the main menu; every other slot does nothing. All are
      cancelled. */
  lemma ListMenuClick(w: World, p: PlayerId, shown: nat, slot: int, cursor: Option<Material>, order: seq<string>)
    requires ViewOf(w, p) == ListMenu(shown) && IsEnumeration(order, w.rules)
    ensures var r := Click(w, p, slot, cursor, order);
      && r.cancelled
      && (0 <= slot < Min(shown, LIST_CAPACITY) && slot >= |order| ==> r.world == w)
      && (slot == LIST_BACK ==> r.world.rules == w.rules && ViewOf(r.world, p) == MainMenu)
      && (!(0 <= slot < Min(shown, LIST_CAPACITY)) && slot != LIST_BACK ==> r.world == w)
  {
    var r := Click(w, p, slot, cursor, order);
    assert r == Reaction(ListClick(w, p, shown, slot, order), true);
    if 0 <= slot < Min(shown, LIST_CAPACITY) && slot >= |order| {
      assert KeyAt(order, slot) == None;
    }
  }

  /** A click on the create menu, as the player's position in a session. */
  datatype Tap = Tap(slot: int, cursor: Option<Material>)

  /** Player `p` clicking through `taps` in turn. */
  function RunTaps(w: World, p: PlayerId, taps: seq<Tap>, order: seq<string>): World
    decreases |taps|
  {
    if |taps| == 0 then w
    else RunTaps(Click(w, p, taps[0].slot, taps[0].cursor, order).world, p, taps[1..], order)
  }

  /** A session that never presses Save leaves the rule store exactly as it was when the session
      began, however it ends: the player stays in the create menu through every other control, and
      both Cancel and closing the menu then drop the pending rule. */
  lemma {:induction false} AbandonedSessionKeepsStore(w: World, p: PlayerId, taps: seq<Tap>, cursor: Option<Material>, order: seq<string>)
    requires ViewOf(w, p) == CreateMenu && p in w.pending
    requires forall i :: 0 <= i < |taps| ==> taps[i].slot != CREATE_SAVE && taps[i].slot != CREATE_CANCEL
    ensures var e := RunTaps(w, p, taps, order);
      && e.rules == w.rules && ViewOf(e, p) == CreateMenu && p in e.pending
      && Close(e, p).rules == w.rules && p !in Close(e, p).pending
      && Click(e, p, CREATE_CANCEL, cursor, order).world.rules == w.rules
      && p !in Click(e, p, CREATE_CANCEL, cursor, order).world.pending
    decreases |taps|
  {
    if |taps| > 0 {
      var next := Click(w, p, taps[0].slot, taps[0].cursor, order).world;
      assert next.rules == w.rules && ViewOf(next, p) == CreateMenu && p in next.pending;
      assert forall i :: 0 <= i < |taps| - 1 ==> taps[1..][i] == taps[i + 1];
      AbandonedSessionKeepsStore(next, p, taps[1..], cursor, order);
    }
  }
}
