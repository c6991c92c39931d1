/** A player's inventory contents as seen by processCompression: counting the units of one material
    and the slot-by-slot removal of a fixed number of units. */
module Inventories {
  import opened Options
  import opened Materials

  /** A stack in the inventory holds at least one unit; an empty slot is None. */
  type Amount = n: int | n >= 1 witness 1

  datatype Stack = Stack(material: Material, amount: Amount)

  /** `getContents()`: one entry per slot, in slot-index order. */
  type Inventory = seq<Option<Stack>>

  predicate IsStackOf(slot: Option<Stack>, m: Material) {
    slot.Some? && slot.value.material == m
  }

  /** The units of `m` held in one slot. */
  function UnitsIn(slot: Option<Stack>, m: Material): nat {
    if IsStackOf(slot, m) then slot.value.amount else 0
  }

  /** Total units of `m` over all non-empty slots. */
  function Count(inv: Inventory, m: Material): nat {
    if |inv| == 0 then 0 else UnitsIn(inv[0], m) + Count(inv[1..], m)
  }

  lemma {:induction false} CountAppend(a: Inventory, b: Inventory, m: Material)
    ensures Count(a + b, m) == Count(a, m) + Count(b, m)
  {
    if |a| == 0 {
      assert a + b == b;
    } else {
      assert (a + b)[1..] == a[1..] + b;
      CountAppend(a[1..], b, m);
    }
  }

  /** Counting a prefix one slot longer adds that slot's units. */
  lemma CountPrefixStep(inv: Inventory, i: nat, m: Material)
    requires i < |inv|
    ensures Count(inv[..i + 1], m) == Count(inv[..i], m) + UnitsIn(inv[i], m)
  {
    assert inv[..i + 1] == inv[..i] + [inv[i]];
    CountAppend(inv[..i], [inv[i]], m);
  }

  /** Counting a prefix of length k + 1 is the first slot plus a prefix of length k of the rest. */
  lemma CountPrefixCons(inv: Inventory, k: nat, m: Material)
    requires k < |inv|
    ensures Count(inv[..k + 1], m) == UnitsIn(inv[0], m) + Count(inv[1..][..k], m)
  {
    assert inv[..k + 1][1..] == inv[1..][..k];
  }

  /** The matching-item count of processCompression, as the loop over the slots. */
  method CountMatching(inv: Inventory, m: Material) returns (matching: nat)
    ensures matching == Count(inv, m)
  {
    matching := 0;
    var i := 0;
    while i < |inv|
      invariant 0 <= i <= |inv|
      invariant matching == Count(inv[..i], m)
    {
      CountPrefixStep(inv, i, m);
      if inv[i].Some? && inv[i].value.material == m {
        matching := matching + inv[i].value.amount;
      }
      i := i + 1;
    }
    assert inv[..i] == inv;
  }

  /** Removal of `n` units of `m`: slots are visited from index 0; a stack holding no more than what
      is still owed is cleared, the first stack holding more is reduced and the removal stops. */
  function Take(inv: Inventory, m: Material, n: int): (r: Inventory)
    ensures |r| == |inv|
    ensures n <= 0 ==> r == inv
  {
    if |inv| == 0 || n <= 0 then inv
    else if IsStackOf(inv[0], m) then
      if inv[0].value.amount <= n then [None] + Take(inv[1..], m, n - inv[0].value.amount)
      else [Some(Stack(m, inv[0].value.amount - n))] + inv[1..]
    else [inv[0]] + Take(inv[1..], m, n)
  }

  /** What the removal may do to one slot: a slot not holding `m` is untouched; a stack of `m` is
      cleared, kept, or shrunk while keeping its material. */
  predicate SlotChange(before: Option<Stack>, after: Option<Stack>, m: Material) {
    if !IsStackOf(before, m) then after == before
    else after == None || after == before || (IsStackOf(after, m) && after.value.amount < before.value.amount)
  }

  lemma {:induction false} TakeSlots(inv: Inventory, m: Material, n: int)
    ensures forall j :: 0 <= j < |inv| ==> SlotChange(inv[j], Take(inv, m, n)[j], m)
  {
    if |inv| > 0 && n > 0 {
      TakeUnfold(inv, m, n);
      var r := Take(inv, m, n);
      if !(IsStackOf(inv[0], m) && inv[0].value.amount > n) {
        var n' := n - UnitsIn(inv[0], m);
        var tail := Take(inv[1..], m, n');
        TakeSlots(inv[1..], m, n');
        forall j | 0 < j < |inv|
          ensures SlotChange(inv[j], r[j], m)
        {
          assert r[j] == tail[j - 1] && inv[j] == inv[1..][j - 1];
        }
      }
    }
  }

  /** The complete shape of a removal that stops at slot `p`: `p` is the first slot at which the
      running count of `m` reaches `n`; every earlier stack of `m` is cleared, slot `p` keeps what is
      left over (or is cleared when nothing is), and every other slot is untouched. */
  ghost predicate RemovalShape(inv: Inventory, r: Inventory, m: Material, n: int, p: int) {
    && 0 <= p < |inv| && |r| == |inv|
    && IsStackOf(inv[p], m)
    && Count(inv[..p], m) < n <= Count(inv[..p + 1], m)
    && (forall j :: 0 <= j < p ==> r[j] == (if IsStackOf(inv[j], m) then None else inv[j]))
    && (forall j :: p < j < |inv| ==> r[j] == inv[j])
    && r[p] == (if Count(inv[..p + 1], m) == n then None else Some(Stack(m, Count(inv[..p + 1], m) - n)))
  }

  /** One step of Take: the first slot is settled and the rest is left to the recursive removal. */
  lemma TakeUnfold(inv: Inventory, m: Material, n: int)
    requires |inv| > 0 && n > 0
    ensures IsStackOf(inv[0], m) && inv[0].value.amount > n ==>
      Take(inv, m, n) == [Some(Stack(m, inv[0].value.amount - n))] + inv[1..]
    ensures !(IsStackOf(inv[0], m) && inv[0].value.amount > n) ==>
      Take(inv, m, n) == [if IsStackOf(inv[0], m) then None else inv[0]] + Take(inv[1..], m, n - UnitsIn(inv[0], m))
  {
  }

  /** The removal stops at slot 0 when the first slot already covers what is owed. */
  lemma ShapeAtHead(inv: Inventory, m: Material, n: int)
    requires |inv| > 0 && 0 < n && IsStackOf(inv[0], m) && inv[0].value.amount >= n
    ensures RemovalShape(inv, Take(inv, m, n), m, n, 0)
  {
    CountPrefixCons(inv, 0, m);
    assert inv[..0] == [];
    TakeUnfold(inv, m, n);
  }

  /** Past the first slot, a removal that does not stop at slot 0 is the removal of the rest. */
  lemma TakeTail(inv: Inventory, m: Material, n: int)
    requires |inv| > 0 && 0 < n && !(IsStackOf(inv[0], m) && inv[0].value.amount > n)
    ensures var r := Take(inv, m, n);
      && r[0] == (if IsStackOf(inv[0], m) then None else inv[0])
      && forall j :: 0 < j < |inv| ==> r[j] == Take(inv[1..], m, n - UnitsIn(inv[0], m))[j - 1]
  {
    TakeUnfold(inv, m, n);
  }

  /** A removal of the rest that stops at `p` makes a removal of the whole that stops at `p + 1`. */
  lemma ShapeShift(inv: Inventory, m: Material, n: int, p: int)
    requires |inv| > 0 && 0 < n && !(IsStackOf(inv[0], m) && inv[0].value.amount >= n)
    requires RemovalShape(inv[1..], Take(inv[1..], m, n - UnitsIn(inv[0], m)), m, n - UnitsIn(inv[0], m), p)
    ensures RemovalShape(inv, Take(inv, m, n), m, n, p + 1)
  {
    var rest := inv[1..];
    var tail := Take(rest, m, n - UnitsIn(inv[0], m));
    var r := Take(inv, m, n);
    TakeTail(inv, m, n);
    CountPrefixCons(inv, p, m);
    CountPrefixCons(inv, p + 1, m);
    assert inv[p + 1] == rest[p] && r[p + 1] == tail[p];
    forall j | 0 < j < p + 1
      ensures r[j] == (if IsStackOf(inv[j], m) then None else inv[j])
    {
      assert r[j] == tail[j - 1] && inv[j] == rest[j - 1];
    }
    forall j | p + 1 < j < |inv|
      ensures r[j] == inv[j]
    {
      assert r[j] == tail[j - 1] && inv[j] == rest[j - 1];
    }
  }

  lemma {:induction false} TakeShape(inv: Inventory, m: Material, n: int)
    requires 0 < n <= Count(inv, m)
    ensures exists p :: RemovalShape(inv, Take(inv, m, n), m, n, p)
  {
    assert |inv| > 0;
    if IsStackOf(inv[0], m) && inv[0].value.amount >= n {
      ShapeAtHead(inv, m, n);
    } else {
      var n' := n - UnitsIn(inv[0], m);
      TakeShape(inv[1..], m, n');
      var p :| RemovalShape(inv[1..], Take(inv[1..], m, n'), m, n', p);
      ShapeShift(inv, m, n, p);
    }
  }

  /** The removal takes exactly `n` units of `m` when that many are present. */
  lemma {:induction false} TakeRemovesExactly(inv: Inventory, m: Material, n: int)
    requires 0 <= n <= Count(inv, m)
    ensures Count(Take(inv, m, n), m) == Count(inv, m) - n
  {
    if |inv| == 0 || n == 0 {
    } else if IsStackOf(inv[0], m) && inv[0].value.amount > n {
      var r := Take(inv, m, n);
      assert r[1..] == inv[1..];
    } else {
      var r := Take(inv, m, n);
      var n' := n - UnitsIn(inv[0], m);
      assert r[1..] == Take(inv[1..], m, n');
      TakeRemovesExactly(inv[1..], m, n');
    }
  }

  /** Two inventories that agree on every slot not holding `m`, where the second may only have
      cleared or shrunk stacks of `m`, hold the same units of every other material. */
  lemma {:induction false} OtherMaterialsKept(inv: Inventory, r: Inventory, m: Material, other: Material)
    requires |r| == |inv| && other != m
    requires forall j :: 0 <= j < |inv| ==> SlotChange(inv[j], r[j], m)
    ensures Count(r, other) == Count(inv, other)
  {
    if |inv| > 0 {
      assert forall j :: 0 <= j < |inv| - 1 ==> inv[1..][j] == inv[j + 1] && r[1..][j] == r[j + 1];
      OtherMaterialsKept(inv[1..], r[1..], m, other);
    }
  }

  /** The removal leaves the count of every other material as it was. */
  lemma TakeKeepsOtherMaterials(inv: Inventory, m: Material, n: int, other: Material)
    requires other != m
    ensures Count(Take(inv, m, n), other) == Count(inv, other)
  {
    TakeSlots(inv, m, n);
    OtherMaterialsKept(inv, Take(inv, m, n), m, other);
  }

  /** What one visit of the removal loop leaves in a slot, and what is still owed after it. */
  function SlotAfter(slot: Option<Stack>, m: Material, owed: int): Option<Stack>
    requires owed > 0
  {
    if !IsStackOf(slot, m) then slot
    else if slot.value.amount <= owed then None
    else Some(Stack(m, slot.value.amount - owed))
  }

  function OwedAfter(slot: Option<Stack>, m: Material, owed: int): int {
    if !IsStackOf(slot, m) then owed
    else if slot.value.amount <= owed then owed - slot.value.amount
    else 0
  }

  lemma TakeFrom(contents: Inventory, i: nat, m: Material, owed: int)
    requires i < |contents| && owed > 0
    ensures Take(contents[i..], m, owed)
         == [SlotAfter(contents[i], m, owed)] + Take(contents[i + 1..], m, OwedAfter(contents[i], m, owed))
  {
    assert contents[i..][1..] == contents[i + 1..];
    TakeUnfold(contents[i..], m, owed);
  }

  /** Concatenation is associative. */
  lemma ConcatAssociative<T>(x: seq<T>, y: seq<T>, z: seq<T>)
    ensures x + (y + z) == (x + y) + z
  {
  }

  /** Overwriting the first slot past a prefix extends the prefix by that slot. */
  lemma Splice(settled: Inventory, rest: Inventory, x: Option<Stack>)
    requires |rest| > 0
    ensures (settled + rest)[|settled|] == rest[0]
    ensures (settled + rest)[|settled| := x] == (settled + [x]) + rest[1..]
  {
    assert (settled + rest)[|settled| := x] == (settled + [x]) + rest[1..];
  }

  /** The removal loop as a tail recursion: the slots from `i` on are visited in place while
      `owed` units are still to be removed. */
  function Sweep(r: Inventory, m: Material, i: nat, owed: int): Inventory
    decreases |r| - i
  {
    if i >= |r| || owed <= 0 then r
    else Sweep(r[i := SlotAfter(r[i], m, owed)], m, i + 1, OwedAfter(r[i], m, owed))
  }

  /** Sweeping in place past an already settled prefix performs the removal on the rest. */
  lemma {:induction false} SweepIsTake(settled: Inventory, rest: Inventory, m: Material, owed: int)
    ensures Sweep(settled + rest, m, |settled|, owed) == settled + Take(rest, m, owed)
    decreases |rest|
  {
    if |rest| > 0 && owed > 0 {
      var x := SlotAfter(rest[0], m, owed);
      var left := OwedAfter(rest[0], m, owed);
      Splice(settled, rest, x);
      SweepIsTake(settled + [x], rest[1..], m, left);
      assert rest[0..] == rest;
      TakeFrom(rest, 0, m, owed);
      ConcatAssociative(settled, [x], Take(rest[1..], m, left));
    }
  }

  /** The removal loop of processCompression, index by index with `remainingToRemove`; it computes
      exactly Take. */
  method RemoveInputs(contents: Inventory, m: Material, amount: int) returns (r: Inventory)
    ensures r == Take(contents, m, amount)
  {
    var remaining := amount;
    r := contents;
    var i: nat := 0;
    SweepIsTake([], contents, m, amount);
    assert [] + contents == contents;
    while i < |r| && remaining > 0
      invariant i <= |r| == |contents|
      invariant Sweep(r, m, i, remaining) == Take(contents, m, amount)
    {
      var item := r[i];
      ghost var next := r[i := SlotAfter(item, m, remaining)];
      ghost var owed := OwedAfter(item, m, remaining);
      if item.Some? && item.value.material == m {
        if item.value.amount <= remaining {
          remaining := remaining - item.value.amount;
          r := r[i := None];
        } else {
          r := r[i := Some(Stack(m, item.value.amount - remaining))];
          remaining := 0;
        }
      } else {
        assert next == r;
      }
      assert r == next && remaining == owed;
      i := i + 1;
    }
  }
}
