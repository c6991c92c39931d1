# AutoCompressor, modelled in Dafny

AutoCompressor is a Bukkit server plugin. Once a second it looks at every online player's inventory.
For each stored compression rule ("9 COBBLESTONE into 1 STONE"), it checks whether the player holds
enough of the input material. If so, it removes exactly that many units slot by slot, adds the output
item and announces the conversion. A set of chest-style menus lets a player create rules, list them
and delete them:

- the main menu has "create" at slot 11 and "list" at slot 15;
- the create menu edits a per-player pending rule;
- the list menu shows up to 45 rules and deletes the one clicked.

This project models the plugin's logic as pure functions over immutable values and proves properties
of them:

- `options.dfy`: `Option`, standing in for Java's nullable references.
- `materials.dfy`: `Material` (an enum constant name) and `FormatMaterialName`.
- `inventories.dfy`: inventory slots, counting a material, and the removal loop of
  `processCompression`. The loop is written both as the recursive `Take` and as the index loop
  `RemoveInputs`, and the two are proved equal.
- `rules.dfy`: `Rule` (CompressionRule) with Java `int` fields, the store, rule ids, the capped list
  view and positional deletion.
- `compression.dfy`: one compression pass over the rules in store iteration order.
- `sessions.dfy`: the pending rule, its four edit controls, and Save.
- `menus.dfy`: the click handler, the close hook and the menu openers, as one state machine over the
  shared state (store, pending rules by player, each player's open view).

Modelling choices:

- **Store order.** The store is a Java `HashMap`, so its iteration order is arbitrary. The model keeps
  the store as a `map`. Every walk of it (the pass, the list view, deletion) takes the order as an
  explicit `order` argument. Properties are stated for any `order` that enumerates the keys exactly
  once (`IsEnumeration`). Insertion order is never assumed.
- **Inserting the output.** `Inventory.addItem` is host code, so the pass takes it as a function
  parameter (`Inserter`).
- **Opening a menu.** In Bukkit, opening an inventory first closes the one already open and runs its
  close hook. `Menus.Open` does the same. This is why Save (through `closeInventory`, :391) drops
  the pending rule. Cancel removes it explicitly (:398) before opening the main menu.
- **Java `int`.** `inputAmount` and `outputAmount` are `Int32`. The increase button is Java `x + 1`,
  so it wraps from 2147483647 to -2147483648 (`Rules.Increment`). The amount stays at least 1 under
  every edit except that one (`Sessions.EditKeepsValid`). A rule whose amount is not positive (after a
  wrap, or loaded from the configuration) fires on every pass and removes nothing. The model
  reproduces this.
- **List clicks.** A click on the list counts as a click on a rule item when its slot is below the
  number of items placed when the list was drawn (`ListMenu(shown)`). Deletion then walks the
  store's current order. If the store has shrunk below that position in the meantime, nothing is
  removed and the list is not redrawn.

Behaviour of the code worth knowing:

- A new pending rule starts as (COBBLESTONE, 9, STONE, 1) (AutoCompressor.java:231). It does not start
  with unset materials. The edit controls only ever set a material that is neither null nor AIR. So in
  every reachable state both materials are set, and the "Please set both input and output items!"
  branch (:393-395) cannot happen (`Menus.SaveClick`). A Save without choosing items stores
  `COBBLESTONE_TO_STONE`.
- Rule amounts are unchecked `int`s. They are not guaranteed positive.
- In the list menu, only slot 49 goes back to the main menu. Other non-rule slots do nothing.
- Create-menu clicks at raw slot 27 and above (the player's own inventory) are not cancelled. This is
  how the player picks up the item to use as a cursor.
- A rule id `IN + "_TO_" + OUT` does not identify its pair for arbitrary names
  (`Rules.RuleIdCollision`). It does when the input name contains no `_TO_` and does not end in `_TO`
  (`Rules.RuleIdInjective`).

## Model

| member | source | states |
|---|---|---|
| `Materials.FormatMaterialName` | AutoCompressor.java:456-476 | Same length as the name and no `_`. Each character is the lower-cased character, with `_` turned into a space. It is upper-cased exactly when it is a letter with no letter between it and the start or the last space before it, so digits do not use up the capital. |
| `Inventories.CountMatching` | AutoCompressor.java:130-136 | The counting loop sums the amounts of exactly the non-null stacks of the input material (`Count`). |
| `Inventories.Take` | AutoCompressor.java:141-155 | The removal keeps the number of slots and changes nothing when the amount to remove is not positive. |
| `Inventories.TakeSlots` | AutoCompressor.java:144-155 | Slots not holding the input material are never touched. A stack of the input is cleared, kept, or shrunk while keeping its material. |
| `Inventories.TakeShape` | AutoCompressor.java:141-155 | Complete shape of a removal of 0 < n <= count units. It stops at the first slot `p` where the running count reaches n. Every earlier input stack is cleared and the rest are untouched. Slot `p` keeps the surplus, or is cleared when there is none. Every later slot is unchanged. |
| `Inventories.TakeRemovesExactly` | AutoCompressor.java:141-155 | When at least n units are present, exactly n units of the input are removed. |
| `Inventories.TakeKeepsOtherMaterials` | AutoCompressor.java:144-155 | The count of every other material is unchanged by the removal. |
| `Inventories.SweepIsTake` | AutoCompressor.java:141-155 | The loop read as an in-place sweep from index i, with the prefix before i already settled, leaves that prefix alone and performs exactly the removal `Take` on the slots from i on. |
| `Inventories.RemoveInputs` | AutoCompressor.java:141-155 | The index loop with `remainingToRemove` and its early stop computes exactly `Take`. |
| `Rules.Increment` | AutoCompressor.java:367 | Java `int` addition of 1: the mathematical successor reduced modulo 2^32 into the signed range, so the largest int goes to the smallest. |
| `Rules.RuleIdCollision` | AutoCompressor.java:386 | Two different material pairs can produce the same rule id. |
| `Rules.RuleIdInjective` | AutoCompressor.java:386 | When the input names hold no `_TO_` and do not end in `_TO`, equal rule ids imply equal input and output materials. |
| `Rules.ListFrom` | AutoCompressor.java:239-257 | The listing loop from a display slot on places min(remaining entries, 45 - slot) rules, the i-th being the rule of the i-th key. |
| `Rules.ListView` | AutoCompressor.java:239-257 | The list shows min(size, 45) rules. Display slot i (labelled "#i+1") holds the rule of the i-th key in iteration order. |
| `Rules.KeyAt` | AutoCompressor.java:411-421 | The key-set walk finds the i-th key exactly when 0 <= i < size, and finds nothing otherwise. |
| `Rules.RemoveAt` | AutoCompressor.java:411-425 | Deleting at position i removes only the key at position i. Every remaining rule is unchanged. An out-of-range position changes nothing. |
| `Rules.RemoveAtEnumeration` | AutoCompressor.java:411-425 | For a true enumeration, the store shrinks by exactly one. The old order without position i enumerates what is left, so later rules move up one position. |
| `Compression.ApplyEffect` | AutoCompressor.java:131-159 | A rule that does not reach its threshold leaves the inventory unchanged. One that does removes max(inputAmount, 0) units of its input and keeps every other material's count. The output is then inserted into what is left. |
| `Compression.Pass` | AutoCompressor.java:129-165 | Each rule is evaluated once, so no more rules are announced than there are rules. |
| `Compression.PassFiresOnlyItsRules` | AutoCompressor.java:129-165 | Every announced rule is one of the rules of the pass. |
| `Compression.PassQuiescent` | AutoCompressor.java:129-139 | If no rule reaches its threshold, a pass changes nothing and announces nothing, so a second pass over such an inventory is quiet too. |
| `Compression.PassAppend` | AutoCompressor.java:129-165 | A pass over rules a then b is a pass over a, followed by a pass over b on the inventory a left. The announcements are concatenated. |
| `Compression.RuleSeesEarlierRules` | AutoCompressor.java:129-165 | The rule at position i is judged against the inventory left by the rules before it. It is announced after theirs exactly when it fires there. |
| `Compression.ProcessCompression` | AutoCompressor.java:128-166 | A pass over the store in iteration order announces only stored rules, at most one per stored entry. |
| `Compression.DefaultRuleExample` | AutoCompressor.java:139-155 | Stacks 5, 5, 4 of cobblestone under 9 into 1 stone become cleared, 1 and 4, and the rule fires once. 8 cobblestone do not fire. |
| `Sessions.ApplyEdit` | AutoCompressor.java:323-382 | Slots 11 and 15 set the material only for a cursor that is non-null and not AIR. Decrease lowers the amount only above 1. Increase adds 1 with Java wrap-around. No edit touches the output amount, and each edit leaves the other fields unchanged. |
| `Sessions.InitialValid` | AutoCompressor.java:231 | The initial pending rule has both materials set, not AIR, output amount 1 and a positive amount. |
| `Sessions.EditKeepsValid` | AutoCompressor.java:323-367 | Every edit keeps both materials set and not AIR, and the output amount at 1. The amount stays at least 1, except for an increase from the largest int. |
| `Sessions.DecreaseUndoesIncrease` | AutoCompressor.java:345-367 | Decrease after an increase that did not wrap restores the pending rule. |
| `Sessions.IncreaseUndoesDecrease` | AutoCompressor.java:345-367 | Increase after a decrease not stopped by the floor restores the pending rule. |
| `Sessions.Save` | AutoCompressor.java:383-395 | The store is upserted under `IN_TO_OUT` and every other key keeps its rule. The store is unchanged when a material is missing. |
| `Sessions.SaveReplaces` | AutoCompressor.java:383-395 | Saving twice with the same materials (set or not) gives the store a single save of the later pending rule would give: the later rule replaces the earlier one. |
| `Sessions.SaveDistinctPairs` | AutoCompressor.java:386-387 | Saving two different pairs with unambiguous input names keeps both rules. |
| `Menus.Close` | AutoCompressor.java:437-447 | Closing the create menu drops the player's pending rule. Closing any other view keeps all pending rules. The store and every other player are untouched. |
| `Menus.Open` | AutoCompressor.java:437-447 | Opening a view first runs the close hook of the view already open: the player's pending rule is dropped exactly when that view was the create menu, and every other pending rule is kept. The store is left alone, the new view is shown, and no other player is touched. |
| `Menus.CreateClick` | AutoCompressor.java:323-400 | A handled create-menu click touches no other player and changes the store only through Save (slot 22). |
| `Menus.ListClick` | AutoCompressor.java:404-434 | A list click touches no other player and changes the store only at a displayed rule slot below 45. |
| `Menus.Click` | AutoCompressor.java:292-435 | The click is cancelled exactly on the three menus, except create-menu clicks at slot 27 and above while a rule is pending. Other views are untouched. Other players are never affected. The store changes only through Save (create slot 22) or a list slot below 45. |
| `Menus.EmptyConsistent` | AutoCompressor.java:33-34 | The plugin's starting state (no rules, no pending rules, no views) is consistent. |
| `Menus.CloseKeepsConsistent` | AutoCompressor.java:437-447 | The close hook keeps every player consistent: pending rule exactly while in the create menu, valid, and list within capacity. |
| `Menus.OpenMainMenuKeepsConsistent` | AutoCompressor.java:168-184 | Opening the main menu, also from the command, keeps the state consistent. |
| `Menus.ClickKeepsConsistent` | AutoCompressor.java:292-435 | Every click by any player keeps the state consistent. |
| `Menus.OpenCreateInitialises` | AutoCompressor.java:186-234 | Opening the create menu from any view but the create menu itself leaves the player in it with the pending rule (COBBLESTONE, 9, STONE, 1), whatever was pending before. The store is untouched. The only caller is the main menu (:305), which meets that condition. |
| `Menus.MainMenuDispatch` | AutoCompressor.java:300-310 | In the main menu, slot 11 opens the create menu with a fresh pending rule and slot 15 opens the list sized min(size, 45). Every other slot is a no-op. All clicks are cancelled. |
| `Menus.CreateMenuGuards` | AutoCompressor.java:312-321 | Without a pending rule, every create-menu click is cancelled and ignored. With one, clicks at slot 27 and above are neither handled nor cancelled. |
| `Menus.CreateMenuEdit` | AutoCompressor.java:323-382 | An edit control changes only the player's pending rule, as `ApplyEdit` prescribes, and is cancelled. |
| `Menus.SaveClick` | AutoCompressor.java:383-395 | In a consistent state Save always succeeds. The store becomes the old store with `IN_TO_OUT` set to the pending rule, the pending rule is dropped, and the main menu opens. |
| `Menus.CancelClick` | AutoCompressor.java:396-400 | Cancel drops the pending rule, opens the main menu and leaves the store unchanged. |
| `Menus.ListViewDelete` | AutoCompressor.java:236-266 | On a list drawn by openRuleListMenu, with the iteration order unchanged since, a click at display slot i removes exactly the key of the rule `ListView` shows at slot i. |
| `Menus.ListMenuDelete` | AutoCompressor.java:404-425 | A click on a displayed rule removes exactly the key at that position of the current order, keeps every other rule, redraws the list one shorter and is cancelled. |
| `Menus.ListMenuClick` | AutoCompressor.java:404-434 | A displayed position beyond the store's current size changes nothing. Slot 49 returns to the main menu with the store unchanged. Other slots are no-ops. All clicks are cancelled. |
| `Menus.AbandonedSessionKeepsStore` | AutoCompressor.java:312-447 | Any run of create-menu clicks without Save or Cancel keeps the player in the create menu and the store unchanged. A following Cancel or close drops the pending rule with the store as it was when the session began. |

## Left out

- Persistence: loading and saving the rules as YAML (AutoCompressor.java:62-115) is file I/O through the host's configuration library. In the model the store is just the in-memory map. A failed write is not modelled.
- The once-a-second scheduler and the loop over online players (:117-126) are host plumbing. `ProcessCompression` is one player's pass.
- Menu rendering: item stacks, display names, lore, chat colours, the conversion and edit messages, and the join greeting (:160-163, :168-290, :449-454) are presentation. An announced conversion appears in the model as the rule in `Outcome.fired`.
- The display-name checks on clicked items (:358, :377, :409) are not modelled as text. A list click is on a rule item when its slot is below the number of items drawn. The input display refresh is rendering.
- The command (AutoCompressorCommand.java) is a permission check that calls `openMainMenu`, which is `Menus.OpenMainMenu`.
- Events from non-player entities (:294, :439) are ignored by the source and are not modelled.
- Compression.ApplyEffect: says nothing about how many output units end up in the inventory, because `addItem` (:159) and its overflow policy belong to the host and are a parameter here.
- Inventories.CountMatching: the sum is unbounded, not a wrapping Java `int`. Stack sizes are at most a few dozen per slot, so the real sum never approaches 2^31.
- Materials.FormatMaterialName: assumes the JVM's default locale lowers A-Z to a-z. `toLowerCase()` (:458) follows the default locale, and under a Turkish or Azerbaijani locale `I` lowers to a dotless `ı`, so "DIAMOND" is shown as "Dıamond" where the model gives "Diamond". Letters and case mapping are ASCII. Java's Unicode tables are not modelled.
- How the HashMap reorders its keys after an insertion or removal is not modelled. Each walk takes the order at that moment as an argument.
- Concurrency between the pass and edits: everything runs on the server thread.
