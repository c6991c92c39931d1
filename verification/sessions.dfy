/** The per-player pending rule of the create menu (`pendingRules`), its edit operations, and the
    save that turns it into a stored rule. */
module Sessions {
  import opened Options
  import opened Materials
  import opened Rules

  /** A pending CompressionRule. Its material fields are Java references and may be null, which the
      save handler checks for, so they are Options here. */
  datatype Pending = Pending(input: Option<Material>, inputAmount: Int32, output: Option<Material>, outputAmount: Int32)

  /** The pending rule put in place each time the create menu opens. */
  const Initial := Pending(Some(COBBLESTONE), 9, Some(STONE), 1)

  /** The cursor item can be taken as a material: it is not null and not AIR. */
  predicate Usable(cursor: Option<Material>) {
    cursor.Some? && cursor.value != AIR
  }

  /** The four edit controls of the create menu: slot 11 (input from cursor), slot 15 (output from
      cursor), slot 3 (decrease) and slot 5 (increase). */
  datatype Edit = SetInput(cursor: Option<Material>) | SetOutput(cursor: Option<Material>) | Decrease | Increase

  function ApplyEdit(p: Pending, e: Edit): (r: Pending)
    ensures r.outputAmount == p.outputAmount
    ensures !e.SetInput? ==> r.input == p.input
    ensures !e.SetOutput? ==> r.output == p.output
    ensures e.SetInput? || e.SetOutput? ==> r.inputAmount == p.inputAmount
    ensures e.SetInput? ==> r.input == (if Usable(e.cursor) then e.cursor else p.input)
    ensures e.SetOutput? ==> r.output == (if Usable(e.cursor) then e.cursor else p.output)
    ensures e.Decrease? && p.inputAmount > 1 ==> r.inputAmount == p.inputAmount - 1
    ensures e.Decrease? && p.inputAmount <= 1 ==> r == p
    ensures e.Increase? && p.inputAmount < INT_MAX ==> r.inputAmount == p.inputAmount + 1
    ensures e.Increase? && p.inputAmount == INT_MAX ==> r.inputAmount == INT_MIN
  {
    match e
    case SetInput(cursor) => if Usable(cursor) then p.(input := cursor) else p
    case SetOutput(cursor) => if Usable(cursor) then p.(output := cursor) else p
    case Decrease => if p.inputAmount > 1 then p.(inputAmount := p.inputAmount - 1) else p
    case Increase => p.(inputAmount := Increment(p.inputAmount))
  }

  /** The shape every pending rule has: both materials set and not AIR, and the output amount 1
      (no control of the create menu changes it). */
  predicate Valid(p: Pending) {
    Usable(p.input) && Usable(p.output) && p.outputAmount == 1
  }

  lemma InitialValid()
    ensures Valid(Initial) && Initial.inputAmount >= 1
  {
  }

  /** Every edit keeps a pending rule valid, and keeps the required amount at least 1 unless it is
      an increase from the largest int, which wraps. */
  lemma EditKeepsValid(p: Pending, e: Edit)
    requires Valid(p)
    ensures Valid(ApplyEdit(p, e))
    ensures p.inputAmount >= 1 && !(e.Increase? && p.inputAmount == INT_MAX) ==> ApplyEdit(p, e).inputAmount >= 1
  {
  }

  /** Decrease undoes an increase that did not wrap. */
  lemma DecreaseUndoesIncrease(p: Pending)
    requires 1 <= p.inputAmount < INT_MAX
    ensures ApplyEdit(ApplyEdit(p, Increase), Decrease) == p
  {
  }

  /** Increase undoes a decrease that was not stopped by the floor. */
  lemma IncreaseUndoesDecrease(p: Pending)
    requires p.inputAmount > 1
    ensures ApplyEdit(ApplyEdit(p, Decrease), Increase) == p
  {
  }

  /** The rule a save stores, built from a pending rule whose materials are both set. */
  function RuleOf(p: Pending): Rule
    requires p.input.Some? && p.output.Some?
  {
    Rule(p.input.value, p.inputAmount, p.output.value, p.outputAmount)
  }

  /** The store after the save button: an upsert under `input + "_TO_" + output`, or no change
      when a material is missing. */
  function Save(store: Store, p: Pending): (r: Store)
    ensures p.input.None? || p.output.None? ==> r == store
    ensures p.input.Some? && p.output.Some? ==>
      var id := RuleId(p.input.value, p.output.value);
      && r.Keys == store.Keys + {id}
      && r[id] == Rule(p.input.value, p.inputAmount, p.output.value, p.outputAmount)
      && (forall k :: k in store && k != id ==> r[k] == store[k])
  {
    if p.input.Some? && p.output.Some? then store[RuleId(p.input.value, p.output.value) := RuleOf(p)]
    else store
  }

  /** Saving the same pair twice leaves one rule, with the quantities of the later save. */
  lemma SaveReplaces(store: Store, first: Pending, second: Pending)
    requires second.input == first.input && second.output == first.output
    ensures Save(Save(store, first), second) == Save(store, second)
  {
  }

  /** Two saves of different pairs with unambiguous input names keep both rules. */
  lemma SaveDistinctPairs(store: Store, first: Pending, second: Pending)
    requires first.input.Some? && first.output.Some? && second.input.Some? && second.output.Some?
    requires (first.input, first.output) != (second.input, second.output)
    requires UnambiguousName(first.input.value.name) && UnambiguousName(second.input.value.name)
    ensures var r := Save(Save(store, first), second);
      && RuleId(first.input.value, first.output.value) in r
      && r[RuleId(first.input.value, first.output.value)] == RuleOf(first)
      && r[RuleId(second.input.value, second.output.value)] == RuleOf(second)
  {
    var a := RuleId(first.input.value, first.output.value);
    var b := RuleId(second.input.value, second.output.value);
    if a == b {
      RuleIdInjective(first.input.value, first.output.value, second.input.value, second.output.value);
    }
  }
}
