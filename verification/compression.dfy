/** processCompression: one pass of every stored rule over one player's inventory. */
module Compression {
  import opened Options
  import opened Materials
  import opened Inventories
  import opened Rules

  /** `Inventory.addItem(new ItemStack(material, amount))`: the host's insertion policy (stacking,
      overflow) is outside the plugin, so a pass is parameterised by it. */
  type Inserter = (Inventory, Material, int) -> Inventory

  /** The inventory after a pass, and the rules that fired in it (each one is announced to the
      player), in the order they fired. */
  datatype Outcome = Outcome(inventory: Inventory, fired: seq<Rule>)

  /** A rule fires when the player holds at least `inputAmount` units of its input. */
  predicate Fires(inv: Inventory, rule: Rule) {
    Count(inv, rule.input) >= rule.inputAmount
  }

  /** One rule's turn in a pass. */
  function Apply(inv: Inventory, rule: Rule, insert: Inserter): Inventory {
    if Fires(inv, rule) then insert(Take(inv, rule.input, rule.inputAmount), rule.output, rule.outputAmount)
    else inv
  }

  /** A firing first takes exactly `inputAmount` units of the input, leaving every other material as
      it was, and hands the rest to the insertion of the output; a rule that does not fire leaves the
      inventory as it is. */
  lemma ApplyEffect(inv: Inventory, rule: Rule, insert: Inserter)
    ensures !Fires(inv, rule) ==> Apply(inv, rule, insert) == inv
    ensures Fires(inv, rule) ==>
      var left := Take(inv, rule.input, rule.inputAmount);
      && Apply(inv, rule, insert) == insert(left, rule.output, rule.outputAmount)
      && |left| == |inv|
      && Count(left, rule.input) == Count(inv, rule.input) - (if rule.inputAmount < 0 then 0 else rule.inputAmount)
      && (forall other :: other != rule.input ==> Count(left, other) == Count(inv, other))
  {
    if Fires(inv, rule) {
      var left := Take(inv, rule.input, rule.inputAmount);
      if rule.inputAmount >= 0 {
        TakeRemovesExactly(inv, rule.input, rule.inputAmount);
      }
      forall other | other != rule.input
        ensures Count(left, other) == Count(inv, other)
      {
        TakeKeepsOtherMaterials(inv, rule.input, rule.inputAmount, other);
      }
    }
  }

  /** The rules in order, each evaluated once against the inventory the earlier ones left. */
  function Pass(inv: Inventory, rules: seq<Rule>, insert: Inserter): (o: Outcome)
    ensures |o.fired| <= |rules|
    decreases |rules|
  {
    if |rules| == 0 then Outcome(inv, [])
    else
      var rest := Pass(Apply(inv, rules[0], insert), rules[1..], insert);
      Outcome(rest.inventory, (if Fires(inv, rules[0]) then [rules[0]] else []) + rest.fired)
  }

  /** Every announced rule is one of the rules of the pass. */
  lemma {:induction false} PassFiresOnlyItsRules(inv: Inventory, rules: seq<Rule>, insert: Inserter)
    ensures forall x :: x in Pass(inv, rules, insert).fired ==> x in rules
    decreases |rules|
  {
    if |rules| > 0 {
      PassFiresOnlyItsRules(Apply(inv, rules[0], insert), rules[1..], insert);
      assert forall x :: x in rules[1..] ==> x in rules;
    }
  }

  /** A pass in which no rule reaches its threshold changes nothing and announces nothing; in
      particular a second pass over such an inventory is quiet too. */
  lemma {:induction false} PassQuiescent(inv: Inventory, rules: seq<Rule>, insert: Inserter)
    requires forall i :: 0 <= i < |rules| ==> !Fires(inv, rules[i])
    ensures Pass(inv, rules, insert) == Outcome(inv, [])
    decreases |rules|
  {
    if |rules| > 0 {
      assert Apply(inv, rules[0], insert) == inv;
      assert forall i :: 0 <= i < |rules| - 1 ==> rules[1..][i] == rules[i + 1];
      PassQuiescent(inv, rules[1..], insert);
    }
  }

  /** One step of a pass: the first rule's turn, then the pass of the rest. */
  lemma PassStep(inv: Inventory, rules: seq<Rule>, insert: Inserter)
    requires |rules| > 0
    ensures var rest := Pass(Apply(inv, rules[0], insert), rules[1..], insert);
            Pass(inv, rules, insert) == Outcome(rest.inventory, (if Fires(inv, rules[0]) then [rules[0]] else []) + rest.fired)
  {
  }

  /** A pass over `a + b` is a pass over `a` followed by a pass over `b` from where `a` left off. */
  lemma {:induction false} PassAppend(inv: Inventory, a: seq<Rule>, b: seq<Rule>, insert: Inserter)
    ensures Pass(inv, a + b, insert)
         == Outcome(Pass(Pass(inv, a, insert).inventory, b, insert).inventory,
                    Pass(inv, a, insert).fired + Pass(Pass(inv, a, insert).inventory, b, insert).fired)
    decreases |a|
  {
    if |a| == 0 {
      assert a + b == b;
    } else {
      var ab := a + b;
      assert ab[0] == a[0] && ab[1..] == a[1..] + b;
      var next := Apply(inv, a[0], insert);
      PassStep(inv, ab, insert);
      PassStep(inv, a, insert);
      PassAppend(next, a[1..], b, insert);
      var first := Pass(next, a[1..], insert);
      var second := Pass(first.inventory, b, insert);
      ConcatAssociative(if Fires(inv, a[0]) then [a[0]] else [], first.fired, second.fired);
    }
  }

  /** The rule at position `i` is judged against the inventory the rules before it left, and is
      announced after them exactly when it fires there. */
  lemma RuleSeesEarlierRules(inv: Inventory, rules: seq<Rule>, i: int, insert: Inserter)
    requires 0 <= i < |rules|
    ensures var before := Pass(inv, rules[..i], insert);
            var after := Pass(inv, rules[..i + 1], insert);
            && after.inventory == Apply(before.inventory, rules[i], insert)
            && after.fired == before.fired + (if Fires(before.inventory, rules[i]) then [rules[i]] else [])
  {
    assert rules[..i + 1] == rules[..i] + [rules[i]];
    PassAppend(inv, rules[..i], [rules[i]], insert);
    var before := Pass(inv, rules[..i], insert);
    assert [rules[i]][1..] == [];
  }

  /** processCompression for one player: the stored rules in the store's iteration order. Every
      announced rule is a stored rule, and no rule is announced more often than the store holds it. */
  function ProcessCompression(inv: Inventory, store: Store, order: seq<string>, insert: Inserter): (o: Outcome)
    requires IsEnumeration(order, store)
    ensures |o.fired| <= |store|
    ensures forall x :: x in o.fired ==> x in store.Values
  {
    var rules := Values(store, order);
    var o := Pass(inv, rules, insert);
    PassFiresOnlyItsRules(inv, rules, insert);
    assert forall x :: x in rules ==> x in store.Values;
    o
  }

  /** A worked example: stacks of 5, 5 and 4 cobblestone against the default rule
      (9 cobblestone into 1 stone) clear the first stack and leave 1 in the second; 8 cobblestone do
      not fire at all. */
  lemma DefaultRuleExample(insert: Inserter)
    ensures var rule := Rule(COBBLESTONE, 9, STONE, 1);
      var inv := [Some(Stack(COBBLESTONE, 5)), Some(Stack(COBBLESTONE, 5)), Some(Stack(COBBLESTONE, 4))];
      && Fires(inv, rule)
      && Take(inv, COBBLESTONE, 9) == [None, Some(Stack(COBBLESTONE, 1)), Some(Stack(COBBLESTONE, 4))]
      && Pass(inv, [rule], insert).fired == [rule]
    ensures var rule := Rule(COBBLESTONE, 9, STONE, 1);
      var inv := [Some(Stack(COBBLESTONE, 8))];
      Pass(inv, [rule], insert) == Outcome(inv, [])
  {
    var inv := [Some(Stack(COBBLESTONE, 5)), Some(Stack(COBBLESTONE, 5)), Some(Stack(COBBLESTONE, 4))];
    assert inv[1..][1..][1..] == [];
    assert Count(inv[1..][1..], COBBLESTONE) == 4;
    assert Count(inv[1..], COBBLESTONE) == 9;
    assert Count(inv, COBBLESTONE) == 14;
    var small := [Some(Stack(COBBLESTONE, 8))];
    assert small[1..] == [];
    assert Count(small, COBBLESTONE) == 8;
  }
}
