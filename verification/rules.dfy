/** CompressionRule, the rule store `compressionRules` and the parts of the plugin that depend on the
    store's iteration order: rule ids, the capped list view, and positional deletion. */
module Rules {
  import opened Options
  import opened Materials

  const INT_MIN: int := -0x8000_0000
  const INT_MAX: int := 0x7fff_ffff

  /** Java's `int`. */
  type Int32 = x: int | -0x8000_0000 <= x <= 0x7fff_ffff

  /** Java's `x + 1` on an `int`: the mathematical sum reduced to 32-bit two's complement, so the
      largest value wraps to the smallest. */
  function Increment(x: Int32): (r: Int32)
    ensures r == (x + 1 - INT_MIN) % 0x1_0000_0000 + INT_MIN
  {
    if x == INT_MAX then INT_MIN else x + 1
  }

  /** A stored CompressionRule. The materials of a stored rule are never null: they come from
      `Material.valueOf` when loaded, and from a session whose materials were checked on save. */
  datatype Rule = Rule(input: Material, inputAmount: Int32, output: Material, outputAmount: Int32)

  /** `compressionRules`, keyed by rule id. Its HashMap iteration order is not part of the map: the
      operations that walk the store take that order as an explicit argument. */
  type Store = map<string, Rule>

  const SEPARATOR := "_TO_"

  /** The rule id built on save: `input + "_TO_" + output`. */
  function RuleId(input: Material, output: Material): string {
    input.name + SEPARATOR + output.name
  }

  /** A name that can stand first in a rule id without being confused with another pair: it holds no
      "_TO_" and does not end in "_TO". */
  predicate UnambiguousName(n: string) {
    && (forall i :: 0 <= i && i + 4 <= |n| ==> !(n[i] == '_' && n[i + 1] == 'T' && n[i + 2] == 'O' && n[i + 3] == '_'))
    && !(|n| >= 3 && n[|n| - 3] == '_' && n[|n| - 2] == 'T' && n[|n| - 1] == 'O')
  }

  /** Rule ids do not identify their pair in general: two different pairs can share one id. */
  lemma RuleIdCollision()
    ensures RuleId(Material("X_TO"), Material("Y")) == RuleId(Material("X"), Material("TO_Y"))
  {
  }

  /** Where the separator of one of two equal rule ids falls inside the other's first name. */
  lemma SeparatorOverlap(x: string, b: string, y: string, d: string)
    requires x + SEPARATOR + b == y + SEPARATOR + d
    ensures |x| + 4 <= |y| ==> y[|x|] == '_' && y[|x| + 1] == 'T' && y[|x| + 2] == 'O' && y[|x| + 3] == '_'
    ensures |y| == |x| + 3 ==> y[|y| - 3] == '_' && y[|y| - 2] == 'T' && y[|y| - 1] == 'O'
    ensures !(|x| < |y| < |x| + 3)
  {
    var s := x + SEPARATOR + b;
    var L := |x|;
    assert s[L] == '_' && s[L + 1] == 'T' && s[L + 2] == 'O' && s[L + 3] == '_';
    assert forall k :: 0 <= k < |y| ==> s[k] == y[k];
    assert s[|y|] == '_';
  }

  /** In two equal rule ids, an unambiguous first name cannot be the longer one. */
  lemma FirstNameNotLonger(x: string, b: string, y: string, d: string)
    requires UnambiguousName(y)
    requires x + SEPARATOR + b == y + SEPARATOR + d
    ensures |y| <= |x|
  {
    SeparatorOverlap(x, b, y, d);
  }

  /** When the first names are unambiguous, a rule id determines its pair of materials. */
  lemma RuleIdInjective(a: Material, b: Material, c: Material, d: Material)
    requires UnambiguousName(a.name) && UnambiguousName(c.name)
    requires RuleId(a, b) == RuleId(c, d)
    ensures a == c && b == d
  {
    var s := RuleId(a, b);
    FirstNameNotLonger(a.name, b.name, c.name, d.name);
    FirstNameNotLonger(c.name, d.name, a.name, b.name);
    assert a.name == s[..|a.name|] == c.name;
    assert b.name == s[|a.name| + 4..] == d.name;
  }

  /** `order` is one enumeration of the store's keys: each key exactly once. */
  predicate IsEnumeration(order: seq<string>, store: Store) {
    && |order| == |store|
    && (forall i, j :: 0 <= i < j < |order| ==> order[i] != order[j])
    && (forall k :: k in store ==> k in order)
    && (forall k :: k in order ==> k in store)
  }

  /** `values()` in the given key order. */
  function Values(store: Store, order: seq<string>): seq<Rule>
    requires forall k :: k in order ==> k in store
  {
    seq(|order|, i requires 0 <= i < |order| => store[order[i]])
  }

  /** The rule list shows at most this many rules (slots 0 to 44 of a 54-slot menu). */
  const LIST_CAPACITY := 45

  function Min(a: int, b: int): int {
    if a < b then a else b
  }

  /** The loop of openRuleListMenu from display slot `slot` on: one rule per entry, stopping when
      the entries run out or the slot reaches the capacity. */
  function ListFrom(store: Store, order: seq<string>, slot: nat): (shown: seq<Rule>)
    requires forall k :: k in order ==> k in store
    ensures |shown| == if slot >= LIST_CAPACITY then 0 else Min(|order|, LIST_CAPACITY - slot)
    ensures forall i :: 0 <= i < |shown| ==> shown[i] == store[order[i]]
    decreases |order|
  {
    if |order| == 0 || slot >= LIST_CAPACITY then []
    else [store[order[0]]] + ListFrom(store, order[1..], slot + 1)
  }

  /** The rules openRuleListMenu displays: display slot `i` shows the `i`-th rule of the iteration
      order, and no more than LIST_CAPACITY are shown. */
  function ListView(store: Store, order: seq<string>): (shown: seq<Rule>)
    requires IsEnumeration(order, store)
    ensures |shown| == Min(|store|, LIST_CAPACITY)
    ensures forall i :: 0 <= i < |shown| ==> shown[i] == store[order[i]]
  {
    ListFrom(store, order, 0)
  }

  /** The key-set walk of the delete handler: the key met when the running index equals `index`,
      or none when the walk ends first. */
  function KeyAt(order: seq<string>, index: int): (found: Option<string>)
    ensures 0 <= index < |order| ==> found == Some(order[index])
    ensures !(0 <= index < |order|) ==> found == None
    decreases |order|
  {
    if |order| == 0 then None
    else if index == 0 then Some(order[0])
    else KeyAt(order[1..], index - 1)
  }

  /** Removing the rule at iteration position `index`. */
  function RemoveAt(store: Store, order: seq<string>, index: int): (r: Store)
    ensures 0 <= index < |order| ==> r.Keys == store.Keys - {order[index]}
    ensures forall k :: k in r ==> k in store && r[k] == store[k]
    ensures !(0 <= index < |order|) ==> r == store
  {
    match KeyAt(order, index)
    case Some(k) => store - {k}
    case None => store
  }

  /** Dropping position `index` from a sequence without repetitions. */
  lemma DropIndex(order: seq<string>, index: int)
    requires forall i, j :: 0 <= i < j < |order| ==> order[i] != order[j]
    requires 0 <= index < |order|
    ensures var rest := order[..index] + order[index + 1..];
      && |rest| == |order| - 1
      && (forall i, j :: 0 <= i < j < |rest| ==> rest[i] != rest[j])
      && (forall x :: x in rest <==> x in order && x != order[index])
  {
    var rest := order[..index] + order[index + 1..];
    assert forall a :: 0 <= a < |rest| ==> rest[a] == order[if a < index then a else a + 1];
    forall x
      ensures x in rest <==> x in order && x != order[index]
    {
      if x in order && x != order[index] {
        var a :| 0 <= a < |order| && order[a] == x;
        assert rest[if a < index then a else a - 1] == x;
      }
    }
  }

  /** With a true enumeration, positional deletion removes exactly one rule, and the remaining
      order (the later rules moved up one position) enumerates what is left. */
  lemma RemoveAtEnumeration(store: Store, order: seq<string>, index: int)
    requires IsEnumeration(order, store)
    requires 0 <= index < |order|
    ensures |RemoveAt(store, order, index)| == |store| - 1
    ensures IsEnumeration(order[..index] + order[index + 1..], RemoveAt(store, order, index))
  {
    var r := RemoveAt(store, order, index);
    var k := order[index];
    assert r.Keys == store.Keys - {k};
    assert |r.Keys| == |store.Keys| - 1;
    DropIndex(order, index);
  }
}
